/**
 * Types shared by the three caching components: the URL key, the decoded
 * image handle, the application messages the components send, and the
 * message channel they send them on.
 */
module Common {

  datatype Option<+T> = None | Some(value: T)

  /** Rust's `u64`. */
  newtype u64 = x: int | 0 <= x < 0x1_0000_0000_0000_0000

  /**
   * A parsed URL, reduced to the two views the cache uses: its
   * serialisation (`Url::as_str`) and its path component (`Url::path`).
   * Parsing itself belongs to the URL library and is not part of this model.
   */
  datatype Url = Url(text: string, path: string)

  /**
   * A decoded image as the UI toolkit hands it out: an identifier (a hash
   * of the image data, computed by the toolkit) and the data itself.
   */
  datatype Handle = Handle(id: u64, bytes: seq<bv8>)

  /** The application messages the caching components emit. */
  datatype Msg =
    | NoneMsg                           // `Message::None`: carries nothing, but makes the application update and redraw
    | LoadImage(url: Url)               // the file of `url` is on disk and should be decoded
    | UrlCacheDownload(url: Url)        // `url` is not known to the download cache yet
    | UrlCacheDownloadReady(url: Url)   // the download of `url` finished successfully

  /**
   * The sending half of an unbounded channel. What is sent is recorded in
   * a ghost log; delivery and the receiving side are outside the model.
   */
  class Channel {
    ghost var sent: seq<Msg>

    constructor ()
      ensures sent == []
    {
      sent := [];
    }

    method Send(m: Msg)
      modifies this
      ensures sent == old(sent) + [m]
    {
      sent := sent + [m];
    }
  }
}
