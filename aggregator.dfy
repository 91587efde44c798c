/**
 * The second half of the "Process" handler: flattening the OCR response
 * into the one text that is stored and shown. Python's duck typing on the
 * response becomes a datatype, and the exception raised by a page without
 * markdown becomes a `None` page, so the `except` branch is an ordinary case.
 */
module Aggregator {
  import opened Wrappers

  /** One page of the response: its `markdown`, or `None` when it has none. */
  type Page = Option<string>

  /** The shapes the handler distinguishes, in the order it tests them. */
  datatype Response =
    | WithPages(pages: seq<Page>)   // an object with a `pages` attribute
    | PageList(items: seq<Page>)    // a list of pages
    | OtherShape                    // anything else

  const Separator := "\n\n"
  const NoResult := "No result found."
  const ErrorPrefix := "Error extracting result: "
  /** Stands for the text of the exception raised by the missing attribute. */
  const MissingMarkdown := "page has no attribute 'markdown'"

  /** The page sequence the handler iterates; any other shape has none. */
  function PagesOf(response: Response): (pages: seq<Page>)
    ensures response.OtherShape? ==> pages == []
  {
    match response
    case WithPages(pages) => pages
    case PageList(items) => items
    case OtherShape => []
  }

  /** Python's `sep.join(parts)`. */
  function Join(parts: seq<string>, sep: string): (r: string)
    ensures |parts| == 1 ==> r == parts[0]
    ensures |parts| > 1 ==> parts[0] + sep <= r
  {
    if |parts| == 0 then ""
    else if |parts| == 1 then parts[0]
    else parts[0] + sep + Join(parts[1..], sep)
  }

  /** The markdown of every page, in page order, or `None` when some page has none. */
  function Markdowns(pages: seq<Page>): (r: Option<seq<string>>)
    ensures r.Some? <==> forall i :: 0 <= i < |pages| ==> pages[i].Some?
    ensures r.Some? ==> |r.value| == |pages| && forall i :: 0 <= i < |pages| ==> pages[i] == Some(r.value[i])
  {
    if pages == [] then Some([])
    else
      match pages[0]
      case None => None
      case Some(m) =>
        match Markdowns(pages[1..])
        case None => None
        case Some(rest) => Some([m] + rest)
  }

  /**
   * The text stored as the OCR result: never empty, and an error text as
   * soon as one page lacks its markdown.
   */
  function Aggregate(response: Response): (text: string)
    ensures text != ""
    ensures (exists i :: 0 <= i < |PagesOf(response)| && PagesOf(response)[i].None?) ==> ErrorPrefix <= text
  {
    match Markdowns(PagesOf(response))
    case None => ErrorPrefix + MissingMarkdown
    case Some(markdowns) =>
      var joined := Join(markdowns, Separator);
      if joined == "" then NoResult else joined
  }

  /**
   * A join is empty exactly when there is nothing to join or one empty part:
   * two or more parts always leave a separator behind.
   */
  lemma {:induction false} JoinEmptyIff(parts: seq<string>, sep: string)
    requires sep != ""
    ensures Join(parts, sep) == "" <==> |parts| == 0 || (|parts| == 1 && parts[0] == "")
  {
    if |parts| > 1 {
      assert |Join(parts, sep)| >= |sep|;
    }
  }

  /** Joining is left to right: one more part goes at the end, after a separator. */
  lemma {:induction false} JoinAppend(parts: seq<string>, last: string, sep: string)
    requires parts != []
    ensures Join(parts + [last], sep) == Join(parts, sep) + sep + last
    decreases |parts|
  {
    if |parts| > 1 {
      assert (parts + [last])[1..] == parts[1..] + [last];
      JoinAppend(parts[1..], last, sep);
    }
  }

  /**
   * When every page has its markdown the result is their join in page
   * order, unless that join is empty, in which case it is the sentinel.
   */
  lemma AggregateJoins(response: Response, markdowns: seq<string>)
    requires |markdowns| == |PagesOf(response)|
    requires forall i :: 0 <= i < |markdowns| ==> PagesOf(response)[i] == Some(markdowns[i])
    ensures Aggregate(response) ==
      if |markdowns| == 0 || (|markdowns| == 1 && markdowns[0] == "") then NoResult
      else Join(markdowns, Separator)
  {
    var r := Markdowns(PagesOf(response));
    assert r.value == markdowns;
    JoinEmptyIff(markdowns, Separator);
  }

  /** No pages, including a response of any other shape, gives the sentinel. */
  lemma NoPagesNoResult(response: Response)
    requires PagesOf(response) == []
    ensures Aggregate(response) == NoResult
  {
  }

  /** Two pages "Hello" and "World" become "Hello\n\nWorld". */
  lemma TwoPages()
    ensures Aggregate(WithPages([Some("Hello"), Some("World")])) == "Hello\n\nWorld"
  {
    var parts := ["Hello", "World"];
    AggregateJoins(WithPages([Some("Hello"), Some("World")]), parts);
    assert parts[1..] == ["World"];
  }
}
