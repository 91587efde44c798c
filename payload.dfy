/**
 * The first half of the "Process" handler: the input guard and the four-way
 * dispatch on file type and source type that builds the document descriptor
 * sent to the OCR service and the preview source kept for display.
 */
module Payload {
  import opened Wrappers
  import Base64
  import DataUri

  datatype FileType = Pdf | Image
  datatype SourceType = Url | LocalUpload

  /** An uploaded file: its octets (`read()`) and its media type (`type`). */
  datatype Upload = Upload(content: seq<byte>, mimeType: string)

  /** The `document` dictionary: exactly one source representation, named by its `type` key. */
  datatype Document =
    | DocumentUrl(documentUrl: string)
    | DocumentBase64(documentBase64: string)
    | ImageUrl(imageUrl: string)
  {
    /** The value of the dictionary's `"type"` key. */
    function Type(): string
    {
      match this
      case DocumentUrl(_) => "document_url"
      case DocumentBase64(_) => "document_base64"
      case ImageUrl(_) => "image_url"
    }
  }

  /**
   * What the dispatch produces: the descriptor, the preview source, and the
   * raw octets that the Image + Local Upload branch also stores for display.
   */
  datatype Request = Request(document: Document, previewSrc: string, imageBytes: Option<seq<byte>>)

  const UrlMissing := "Please enter a valid URL."
  const UploadMissing := "Please upload a file."
  const PdfMime := "application/pdf"

  /**
   * The input guard: the error message shown, or `None` when processing may
   * go on. A URL source needs a non-empty URL, an upload source needs a file.
   */
  function CheckInput(source: SourceType, inputUrl: string, upload: Option<Upload>): (r: Option<string>)
    ensures r.None? <==> (source == Url && inputUrl != "") || (source == LocalUpload && upload.Some?)
    ensures r == Some(UrlMissing) <==> source == Url && inputUrl == ""
    ensures r == Some(UploadMissing) <==> source == LocalUpload && upload.None?
  {
    match source
    case Url => if inputUrl == "" then Some(UrlMissing) else None
    case LocalUpload => if upload.None? then Some(UploadMissing) else None
  }

  /** The dispatch, reached only once the guard has passed. */
  function Build(fileType: FileType, source: SourceType, inputUrl: string, upload: Option<Upload>): (r: Request)
    requires CheckInput(source, inputUrl, upload) == None
    ensures source == Url ==> r.previewSrc == inputUrl
    ensures source == Url && fileType == Pdf ==> r.document == DocumentUrl(inputUrl)
    ensures source == Url && fileType == Image ==> r.document == ImageUrl(inputUrl)
    ensures source == LocalUpload && fileType == Pdf ==>
      r.document.DocumentBase64? &&
      Base64.Decode(r.document.documentBase64) == Some(upload.value.content) &&
      r.previewSrc == DataUri.Scheme + PdfMime + DataUri.Marker + r.document.documentBase64 &&
      DataUri.Parse(r.previewSrc) == Some(DataUri.Content(PdfMime, upload.value.content))
    ensures source == LocalUpload && fileType == Image ==>
      r.document == ImageUrl(r.previewSrc) &&
      DataUri.Parse(r.previewSrc) == Some(DataUri.Content(upload.value.mimeType, upload.value.content))
    ensures r.imageBytes == if source == LocalUpload && fileType == Image then Some(upload.value.content) else None
  {
    match (fileType, source)
    case (Pdf, Url) => Request(DocumentUrl(inputUrl), inputUrl, None)
    case (Pdf, LocalUpload) =>
      var encoded := Base64.Encode(upload.value.content);
      Base64.DecodeEncode(upload.value.content);
      DataUri.ParseBuild(PdfMime, upload.value.content);
      Request(DocumentBase64(encoded), DataUri.Scheme + PdfMime + DataUri.Marker + encoded, None)
    case (Image, Url) => Request(ImageUrl(inputUrl), inputUrl, None)
    case (Image, LocalUpload) =>
      var u := upload.value;
      var uri := DataUri.Build(u.mimeType, u.content);
      Request(ImageUrl(uri), uri, Some(u.content))
  }

  /**
   * The descriptor's `type` is fixed by the two choices: `document_url`
   * exactly for PDF by URL, `document_base64` exactly for an uploaded PDF,
   * `image_url` exactly for images; and the preview source is never empty.
   */
  lemma TypeMatchesChoice(fileType: FileType, source: SourceType, inputUrl: string, upload: Option<Upload>)
    requires CheckInput(source, inputUrl, upload) == None
    ensures var r := Build(fileType, source, inputUrl, upload);
      (r.document.Type() == "document_url" <==> fileType == Pdf && source == Url) &&
      (r.document.Type() == "document_base64" <==> fileType == Pdf && source == LocalUpload) &&
      (r.document.Type() == "image_url" <==> fileType == Image)
    ensures Build(fileType, source, inputUrl, upload).previewSrc != ""
  {
    var r := Build(fileType, source, inputUrl, upload);
    if source == LocalUpload {
      assert r.previewSrc[..|DataUri.Scheme|] == DataUri.Scheme;
    }
  }
}
