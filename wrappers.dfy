/** Shared value types: optional values, results, the error taxonomy of the
    downloader, and the abstract outcome of one HTTP GET. */
module Wrappers {

  datatype Option<+T> = None | Some(value: T)

  datatype Result<+T> = Ok(value: T) | Err(error: Error)

  /** The failures the parser package reports; each Go error string becomes one
      constructor (the message text itself is not modelled). */
  datatype Error =
    | InvalidURL                           // extractID: the link does not match
    | NetworkError                         // the request itself failed
    | HttpStatus(code: int)                // a reply other than 200
    | BodyUnreadable                       // reading or decoding the body failed
    | M3u8Missing                          // a strategy found no m3u8 reference
    | BalancerMissing                      // HTML page without a video_balancer block
    | ManifestNotFound                     // all three locator strategies failed
    | UnrecognizedManifest(excerpt: seq<bv8>) // neither master nor media playlist
    | StorageError                         // creating the downloads directory failed
    | FfmpegFailed                         // ffmpeg missing, not started, or exited non-zero
    | Panicked                             // not a returned error: a nil dereference panics

  /** What one GET with the browser-like header set produced: a transport
      failure, or a status code with a body that was (Some) or was not (None)
      read and decoded into T. */
  datatype HttpReply<T> = NetError | Reply(status: int, body: Option<T>)

  const StatusOK: int := 200
}
