/** The domain record handed to the image generator. */
module Entity {
  import opened Http

  /** Validated upload bytes with the MIME type they were accepted under. */
  datatype Media = Media(mediaData: Bytes, mediaType: string)
}
