/**
 * The "Download OCR Result" link: an anchor whose target is a `data:` URI
 * holding the base 64 of the UTF-8 encoded result, offered as `ocr_result.txt`.
 */
module Download {
  import opened Wrappers
  import Utf8
  import DataUri

  const Mime := "file/txt"
  const Open := "<a href=\""
  const Close := "\" download=\"ocr_result.txt\">Download OCR Result</a>"

  /** The anchor written into the page; reading it back gives the result. */
  function Link(result: string): (link: string)
    ensures ReadBack(link) == Some(result)
  {
    AnchorReadBack(result);
    Open + DataUri.Build(Mime, Utf8.Encode(result)) + Close
  }

  /**
   * The text a link carries: its target read by the strict `DataUri.Parse`,
   * with the download media type, and its octets read as UTF-8.
   */
  function ReadBack(link: string): Option<string>
  {
    if |link| < |Open| + |Close| || !(Open <= link) || link[|link| - |Close|..] != Close then None
    else
      match DataUri.Parse(link[|Open|..|link| - |Close|])
      case None => None
      case Some(content) => if content.mime != Mime then None else Utf8.Decode(content.data)
  }

  /** The anchor around a result's data URI carries exactly that result. */
  lemma AnchorReadBack(result: string)
    ensures ReadBack(Open + DataUri.Build(Mime, Utf8.Encode(result)) + Close) == Some(result)
  {
    var uri := DataUri.Build(Mime, Utf8.Encode(result));
    var link := Open + uri + Close;
    assert link == Open + uri + Close;
    assert link[|link| - |Close|..] == Close;
    assert link[|Open|..|link| - |Close|] == uri;
    Utf8.DecodeEncode(result);
  }
}
