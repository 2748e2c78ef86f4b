/** The in-process per-session history of generated images, bounded to the
    most recent MAX_HISTORY entries. */
module HistoryCache {
  import opened Wrappers
  import opened Http

  const MAX_HISTORY: nat := 10

  function Min(a: int, b: int): int {
    if a <= b then a else b
  }

  /** The last `n` elements of `s` (all of `s` when it is shorter), in order. */
  function LastN<T>(s: seq<T>, n: nat): (r: seq<T>)
    ensures |r| == Min(n, |s|)
  {
    s[|s| - Min(n, |s|)..]
  }

  /** Keeping the last `n` twice loses nothing: trimming before more elements
      arrive gives the same result as trimming once at the end. */
  lemma {:induction false} LastNAbsorbs<T>(s: seq<T>, t: seq<T>, n: nat)
    ensures LastN(LastN(s, n) + t, n) == LastN(s + t, n)
  {
    var a := LastN(s, n);
    var lhs := LastN(a + t, n);
    var rhs := LastN(s + t, n);
    assert |lhs| == |rhs|;
    forall i | 0 <= i < |lhs|
      ensures lhs[i] == rhs[i]
    {
      var j := |a| + |t| - |lhs| + i;
      if j >= |a| {
        assert (a + t)[j] == t[j - |a|];
        assert (s + t)[|s| + |t| - |rhs| + i] == t[j - |a|];
      } else {
        assert (a + t)[j] == a[j] == s[|s| - |a| + j];
        assert (s + t)[|s| + |t| - |rhs| + i] == s[|s| - |a| + j];
      }
    }
  }

  /** One history after one more image: the image goes last and the oldest
      entries beyond MAX_HISTORY are dropped. */
  function AppendBounded(history: seq<Bytes>, img: Bytes): (r: seq<Bytes>)
    ensures |r| == Min(|history| + 1, MAX_HISTORY)
    ensures r[|r| - 1] == img
    ensures |history| < MAX_HISTORY ==> r == history + [img]
    ensures |history| >= MAX_HISTORY ==> r == history[|history| - MAX_HISTORY + 1..] + [img]
  {
    var grown := history + [img];
    assert |history| >= MAX_HISTORY ==> grown[|grown| - MAX_HISTORY..] == history[|history| - MAX_HISTORY + 1..] + [img];
    LastN(grown, MAX_HISTORY)
  }

  /** Every stored history is non-empty and within the bound. */
  ghost predicate Bounded(db: map<string, seq<Bytes>>) {
    forall s :: s in db ==> 0 < |db[s]| <= MAX_HISTORY
  }

  /** A session's history, empty when the session is unknown. */
  function HistoryIn(db: map<string, seq<Bytes>>, sessionId: string): (h: seq<Bytes>)
    ensures sessionId !in db ==> h == []
    ensures sessionId in db ==> h == db[sessionId]
  {
    if sessionId in db then db[sessionId] else []
  }

  /** The store after one image was appended to one session. */
  function Step(db: map<string, seq<Bytes>>, sessionId: string, img: Bytes): (db': map<string, seq<Bytes>>)
    ensures db'.Keys == db.Keys + {sessionId}
    ensures db'[sessionId] == AppendBounded(HistoryIn(db, sessionId), img)
    ensures forall s :: s in db && s != sessionId ==> db'[s] == db[s]
  {
    db[sessionId := AppendBounded(HistoryIn(db, sessionId), img)]
  }

  /** Appending keeps every history in the store non-empty and bounded. */
  lemma StepKeepsBounded(db: map<string, seq<Bytes>>, sessionId: string, img: Bytes)
    requires Bounded(db)
    ensures Bounded(Step(db, sessionId, img))
  {
    var db' := Step(db, sessionId, img);
    forall s | s in db'
      ensures 0 < |db'[s]| <= MAX_HISTORY
    {
      if s != sessionId {
        assert db'[s] == db[s];
      }
    }
  }

  /** A new session starts with exactly the appended image. */
  lemma StepCreatesSession(db: map<string, seq<Bytes>>, sessionId: string, img: Bytes)
    requires sessionId !in db
    ensures Step(db, sessionId, img)[sessionId] == [img]
  {
  }

  /** One successful generation: the session it was stored under and the image. */
  datatype Generation = Generation(sessionId: string, img: Bytes)

  /** The store after a run of generations, applied in order. */
  function Replay(db: map<string, seq<Bytes>>, gens: seq<Generation>): map<string, seq<Bytes>>
    decreases |gens|
  {
    if gens == [] then db
    else Replay(Step(db, gens[0].sessionId, gens[0].img), gens[1..])
  }

  /** The images generated for one session, in generation order. */
  function ImagesFor(gens: seq<Generation>, sessionId: string): (imgs: seq<Bytes>)
    ensures imgs == [] <==> forall g :: g in gens ==> g.sessionId != sessionId
    decreases |gens|
  {
    if gens == [] then []
    else (if gens[0].sessionId == sessionId then [gens[0].img] else []) + ImagesFor(gens[1..], sessionId)
  }

  /** One step seen from a single session: its own appends extend it, the
      appends of other sessions leave it as it was. */
  lemma StepSeenFrom(db: map<string, seq<Bytes>>, g: Generation, sessionId: string)
    ensures g.sessionId == sessionId ==> HistoryIn(Step(db, g.sessionId, g.img), sessionId) == LastN(HistoryIn(db, sessionId) + [g.img], MAX_HISTORY)
    ensures g.sessionId != sessionId ==> HistoryIn(Step(db, g.sessionId, g.img), sessionId) == HistoryIn(db, sessionId)
    ensures sessionId in Step(db, g.sessionId, g.img) <==> sessionId in db || g.sessionId == sessionId
  {
  }

  /** Trimming after an image and again after the images that follow it is
      the same as trimming once after all of them. */
  lemma OwnImageThenRest(h: seq<Bytes>, img: Bytes, rest: seq<Bytes>)
    ensures LastN(LastN(h + [img], MAX_HISTORY) + rest, MAX_HISTORY) == LastN(h + ([img] + rest), MAX_HISTORY)
  {
    LastNAbsorbs(h + [img], rest, MAX_HISTORY);
    assert h + [img] + rest == h + ([img] + rest);
  }

  /** After any interleaving of generations across sessions, each session holds
      the last MAX_HISTORY of ITS OWN images, in order: other sessions'
      generations never touch it. */
  lemma {:induction false} ReplayHistory(db: map<string, seq<Bytes>>, gens: seq<Generation>, sessionId: string)
    requires |HistoryIn(db, sessionId)| <= MAX_HISTORY
    ensures HistoryIn(Replay(db, gens), sessionId) == LastN(HistoryIn(db, sessionId) + ImagesFor(gens, sessionId), MAX_HISTORY)
    decreases |gens|
  {
    var h := HistoryIn(db, sessionId);
    if gens == [] {
      assert h + [] == h;
    } else {
      var g := gens[0];
      var next := Step(db, g.sessionId, g.img);
      assert Replay(db, gens) == Replay(next, gens[1..]);
      StepSeenFrom(db, g, sessionId);
      ReplayHistory(next, gens[1..], sessionId);
      var rest := ImagesFor(gens[1..], sessionId);
      if g.sessionId == sessionId {
        assert ImagesFor(gens, sessionId) == [g.img] + rest;
        OwnImageThenRest(h, g.img, rest);
      } else {
        assert ImagesFor(gens, sessionId) == rest;
      }
    }
  }

  /** A session is stored after a run of generations exactly when it was
      stored before or one of the generations was for it. */
  lemma {:induction false} ReplaySessions(db: map<string, seq<Bytes>>, gens: seq<Generation>, sessionId: string)
    ensures sessionId in Replay(db, gens) <==> sessionId in db || ImagesFor(gens, sessionId) != []
    decreases |gens|
  {
    if gens != [] {
      var g := gens[0];
      var next := Step(db, g.sessionId, g.img);
      assert Replay(db, gens) == Replay(next, gens[1..]);
      StepSeenFrom(db, g, sessionId);
      ReplaySessions(next, gens[1..], sessionId);
    }
  }

  /** Starting from the empty store: after N generations for a session, its
      history is the last min(N, MAX_HISTORY) of them, in order. */
  lemma HistoryAfterGenerations(gens: seq<Generation>, sessionId: string)
    ensures var h := HistoryIn(Replay(map[], gens), sessionId);
            var mine := ImagesFor(gens, sessionId);
            && |h| == Min(|mine|, MAX_HISTORY)
            && h == mine[|mine| - |h|..]
  {
    ReplayHistory(map[], gens, sessionId);
    assert [] + ImagesFor(gens, sessionId) == ImagesFor(gens, sessionId);
  }

  /** The module-level store `temp_db`, updated in place by the POST handlers. */
  class TempDb {
    var sessions: map<string, seq<Bytes>>

    ghost predicate Valid()
      reads this
    {
      Bounded(sessions)
    }

    constructor ()
      ensures Valid() && sessions == map[]
    {
      sessions := map[];
    }

    /** `temp_db.get(session_id)`. */
    function Get(sessionId: string): (r: Option<seq<Bytes>>)
      reads this
      ensures r.Some? <==> sessionId in sessions
      ensures r.Some? ==> r.value == sessions[sessionId]
    {
      if sessionId in sessions then Some(sessions[sessionId]) else None
    }

    /** Append an image to a session's history, creating the session if it is
        new and dropping the oldest entries past MAX_HISTORY. */
    method Append(sessionId: string, img: Bytes)
      requires Valid()
      modifies this
      ensures Valid()
      ensures sessions == Step(old(sessions), sessionId, img)
    {
      ghost var before := HistoryIn(sessions, sessionId);
      if sessionId !in sessions {
        sessions := sessions[sessionId := []];
      }
      var history := sessions[sessionId];
      assert history == before;
      history := history + [img];
      if |history| > MAX_HISTORY {
        history := history[|history| - MAX_HISTORY..];
      }
      assert history == AppendBounded(before, img);
      sessions := sessions[sessionId := history];
      StepKeepsBounded(old(sessions), sessionId, img);
    }
  }
}
