/** The files that move through the upload and extraction pipeline. */
module Media {

  /** A decoded byte payload with the media type the decoder reports for it. */
  datatype Blob = Blob(mimeType: string, bytes: seq<bv8>)

  /** A browser `File`: a name, a declared media type and the bytes. */
  datatype File = File(name: string, mimeType: string, bytes: seq<bv8>)

  /** One pending video of the configuration modal, paired with the capture
      interval that is sent to the frame-extraction service with it. */
  datatype VideoJob = VideoJob(file: File, captureInterval: real)

  const VIDEO_PREFIX: string := "video/"

  /** JavaScript's `String.prototype.startsWith`. */
  predicate StartsWith(s: string, prefix: string) {
    |prefix| <= |s| && s[..|prefix|] == prefix
  }

  /** The upload test `file.type.startsWith('video/')`: case-sensitive, on the declared type only. */
  predicate IsVideo(f: File) {
    StartsWith(f.mimeType, VIDEO_PREFIX)
  }
}
