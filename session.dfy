/**
 * The per-session record that survives re-runs of the script, and the
 * "Process" handler that updates it. The OCR service is a parameter: a
 * function from the descriptor sent to what the service answers.
 */
module Session {
  import opened Wrappers
  import opened Payload
  import Aggregator

  /** What the OCR call gives back: a response, or an exception the handler does not catch. */
  datatype OcrReply = Replied(response: Aggregator.Response) | Raised(error: string)

  /** How one press of "Process" ends. */
  datatype Outcome =
    | Rejected(message: string)                // the input guard stopped it; nothing was sent
    | CallFailed(sent: Document, error: string) // the OCR call raised; it propagates
    | Completed(sent: Document, result: string) // the result and preview were stored

  class SessionState {
    var ocrResult: Option<string>
    var previewSrc: Option<string>
    var imageBytes: Option<seq<byte>>

    /**
     * The result and the preview are written together, and a stored
     * result is never empty, so it is always displayed.
     */
    ghost predicate Valid()
      reads this
    {
      (ocrResult.Some? <==> previewSrc.Some?) &&
      (ocrResult.Some? ==> ocrResult.value != "")
    }

    /** The first run of the script creates the three keys, all empty. */
    constructor ()
      ensures Valid()
      ensures ocrResult == None && previewSrc == None && imageBytes == None
    {
      ocrResult := None;
      previewSrc := None;
      imageBytes := None;
    }

    method Process(fileType: FileType, source: SourceType, inputUrl: string, upload: Option<Upload>,
                   ocr: Document -> OcrReply)
      returns (outcome: Outcome)
      requires Valid()
      modifies this
      ensures Valid()
      // a rejected input sends nothing and changes nothing
      ensures CheckInput(source, inputUrl, upload).Some? ==>
        outcome == Rejected(CheckInput(source, inputUrl, upload).value) &&
        ocrResult == old(ocrResult) && previewSrc == old(previewSrc) && imageBytes == old(imageBytes)
      ensures CheckInput(source, inputUrl, upload).None? ==>
        var request := Build(fileType, source, inputUrl, upload);
        // the image octets are stored before the call, on the Image + Local Upload path only
        imageBytes == (if request.imageBytes.Some? then request.imageBytes else old(imageBytes)) &&
        match ocr(request.document)
        case Raised(e) =>
          outcome == CallFailed(request.document, e) &&
          ocrResult == old(ocrResult) && previewSrc == old(previewSrc)
        case Replied(response) =>
          outcome == Completed(request.document, Aggregator.Aggregate(response)) &&
          ocrResult == Some(Aggregator.Aggregate(response)) && previewSrc == Some(request.previewSrc)
    {
      var problem := CheckInput(source, inputUrl, upload);
      if problem.Some? {
        return Rejected(problem.value);
      }
      var request := Build(fileType, source, inputUrl, upload);
      if request.imageBytes.Some? {
        imageBytes := request.imageBytes;
      }
      var reply := ocr(request.document);
      match reply
      case Raised(e) =>
        outcome := CallFailed(request.document, e);
      case Replied(response) =>
        var text := Aggregator.Aggregate(response);
        ocrResult := Some(text);
        previewSrc := Some(request.previewSrc);
        outcome := Completed(request.document, text);
    }
  }
}
