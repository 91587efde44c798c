/**
 * `data:` URIs of the form `data:<mime>;base64,<payload>`, which the app
 * writes with f-strings for its previews and for the download link. `Parse`
 * is a strict reader, the partner of `Build`: it takes the media type to be
 * everything between `data:` and the last `;` (a base 64 payload never
 * contains a `;`), verbatim, and decodes the payload strictly, so any media
 * type string reads back unchanged. It is not the more lenient reader of
 * RFC 2397, which ends the media type at the first `,`.
 */
module DataUri {
  import opened Wrappers
  import Base64

  datatype Content = Content(mime: string, data: seq<byte>)

  const Scheme := "data:"
  const Marker := ";base64,"

  /** `f"data:{mime};base64,{payload}"`: a URI that reads back as what it carries. */
  function Build(mime: string, data: seq<byte>): (uri: string)
    ensures Parse(uri) == Some(Content(mime, data))
  {
    ParseBuild(mime, data);
    Scheme + mime + Marker + Base64.Encode(data)
  }

  /** The index of the last `c` in `s`, if any. */
  function LastIndexOf(s: string, c: char): (r: Option<nat>)
    ensures r.Some? ==> r.value < |s| && s[r.value] == c
    ensures r.Some? ==> forall j :: r.value < j < |s| ==> s[j] != c
    ensures r.None? ==> forall j :: 0 <= j < |s| ==> s[j] != c
  {
    if s == [] then None
    else if s[|s| - 1] == c then Some(|s| - 1)
    else LastIndexOf(s[..|s| - 1], c)
  }

  function Parse(uri: string): Option<Content>
  {
    if !(Scheme <= uri) then None
    else
      match LastIndexOf(uri, ';')
      case None => None
      case Some(k) =>
        if k < |Scheme| || !(Marker <= uri[k..]) then None
        else
          match Base64.Decode(uri[k + |Marker|..])
          case None => None
          case Some(data) => Some(Content(uri[|Scheme|..k], data))
  }

  /** An occurrence with none after it is the last one. */
  lemma LastIndexOfIs(s: string, c: char, k: nat)
    requires k < |s| && s[k] == c
    requires forall j :: k < j < |s| ==> s[j] != c
    ensures LastIndexOf(s, c) == Some(k)
  {
  }

  /** After the marker's `;` a built URI has no other `;`. */
  lemma MarkerSemicolonOnly(head: string, payload: string)
    requires ';' !in payload
    ensures var uri := head + Marker + payload;
      uri[|head|] == ';' && forall j :: |head| < j < |uri| ==> uri[j] != ';'
  {
    var tail := Marker + payload;
    assert forall j :: 0 < j < |Marker| ==> Marker[j] != ';';
    forall j | 0 < j < |tail| ensures tail[j] != ';' {
      if j >= |Marker| {
        assert tail[j] == payload[j - |Marker|] && payload[j - |Marker|] in payload;
      }
    }
    var uri := head + tail;
    assert head + Marker + payload == uri;
    forall j | |head| < j < |uri| ensures uri[j] != ';' {
      assert uri[j] == tail[j - |head|];
    }
  }

  /** Reading a built URI gives back its media type and its octets. */
  lemma ParseBuild(mime: string, data: seq<byte>)
    ensures Parse(Scheme + mime + Marker + Base64.Encode(data)) == Some(Content(mime, data))
  {
    var payload := Base64.Encode(data);
    var uri := Scheme + mime + Marker + payload;
    var k := |Scheme + mime|;
    Base64.EncodeAlphabet(data);
    assert ';' !in payload by {
      assert !Base64.InAlphabet(';');
    }
    MarkerSemicolonOnly(Scheme + mime, payload);
    LastIndexOfIs(uri, ';', k);
    assert uri[k..] == Marker + payload;
    assert uri[k + |Marker|..] == payload;
    assert uri[|Scheme|..k] == mime;
    Base64.DecodeEncode(data);
  }
}
