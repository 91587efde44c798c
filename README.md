# Mistral OCR App: the Process handler, modelled in Dafny

The app is one Streamlit script (`main.py`). A user picks a file type (PDF
or Image) and a source (URL or Local Upload), presses "Process", and the
script sends a document descriptor to Mistral's OCR service, joins the
markdown of the returned pages, and keeps the result and a preview source in
the session state so that later re-runs of the script can show them, with a
link to download the result as `ocr_result.txt`.

This project models the logic inside that handler and around it:

- `Payload` — the input guard (an empty URL or a missing upload stops the
  run with an error message) and the four-way dispatch that builds the
  `document` dictionary (`document_url`, `document_base64` or `image_url`)
  and the preview source (the URL itself, or a `data:<mime>;base64,<payload>`
  URI).
- `Base64` — base 64 as in section 4 of RFC 4648 (what `base64.b64encode`
  produces), with a strict decoder; each is proved to undo the other.
- `Utf8` — UTF-8 as in RFC 3629 (what `str.encode()` produces), with a strict
  decoder and the round trip.
- `DataUri` — building `data:` URIs, and a strict reader that takes the
  media type up to the last `;` verbatim and reads them back.
- `Aggregator` — the response shapes (an object with `pages`, a list, or
  anything else), the `"\n\n"` join in page order, the `"No result found."`
  sentinel and the `"Error extracting result: "` text for a page without
  markdown.
- `Session` — the session record as a class with its three fields, and
  `Process`, the handler, whose postcondition says which fields each path
  writes. The OCR service is a parameter: a function from the descriptor to
  a reply, which is a response or a raised error.
- `Download` — the download anchor, and the proof that reading it back
  (strict data-URI reader, then strict UTF-8) gives exactly the result.

Two consequences of the code that the model makes explicit:

- `"\n\n".join` of two or more empty pages is made of separators and is not
  empty, so the sentinel appears only for no pages at all or a single empty
  page (`Aggregator.JoinEmptyIff`, `Aggregator.AggregateJoins`).
- `image_bytes` is written at main.py:88, before the OCR call at
  main.py:91. A call that raises on the Image + Local Upload path therefore
  leaves the new octets next to the old `ocr_result` and `preview_src`
  (`Session.SessionState.Process`).

## Model

| member | source | states |
|---|---|---|
| `Payload.CheckInput` | main.py:50-53 | the run goes on exactly when a URL source has a non-empty URL or an upload source has a file; otherwise the message is "Please enter a valid URL." or "Please upload a file." accordingly |
| `Payload.Build` | main.py:57-88 | PDF by URL sends `document_url` with the URL and previews the URL; an uploaded PDF sends `document_base64` whose payload decodes to the file's octets and previews `data:application/pdf;base64,` followed by that same payload; an image by URL sends `image_url` with the URL and previews it; an uploaded image sends `image_url` with the same string it previews, a data URI that reads back as the upload's media type and octets; raw image octets are kept only on the Image + Local Upload path |
| `Payload.TypeMatchesChoice` | main.py:57-87 | the descriptor's type is `document_url` exactly for PDF by URL, `document_base64` exactly for an uploaded PDF, `image_url` exactly for images, and the preview source is never empty |
| `Base64.Encode` | main.py:66 | `base64.b64encode(...).decode()`: the encoding is whole groups of four characters; `Base64.EncodeLength`, `Base64.EncodeAlphabet`, `Base64.DecodeEncode` and `Base64.EncodeDecode` characterise it further |
| `Base64.EncodeLength` | main.py:66 | an encoding has four characters per started group of three octets |
| `Base64.EncodeAlphabet` | main.py:66 | an encoding uses only the 64 characters of the alphabet and the `=` pad |
| `Base64.DecodeEncode` | main.py:66 | decoding an encoding gives back the octets |
| `Base64.EncodeDecode` | main.py:66 | a string the decoder accepts is the encoding of what it decodes to (only canonical encodings are accepted) |
| `Base64.EncodeInjective` | main.py:82 | distinct octet strings have distinct encodings |
| `Utf8.EncodeChar` | main.py:136 | a character takes one to four octets, and one exactly when it is ASCII |
| `Utf8.Encode` | main.py:136 | an encoded string has between one and four octets per character |
| `Utf8.DecodeEncodeChar` | main.py:136 | the decoder reads back an encoded character and its length, whatever follows it |
| `Utf8.DecodeEncode` | main.py:136 | decoding the UTF-8 encoding of a string gives back the string |
| `DataUri.Build` | main.py:85-87 | the URI `data:<mime>;base64,<payload>` reads back, under the strict reader `DataUri.Parse`, as exactly that media type and those octets (proved by `DataUri.ParseBuild`) |
| `DataUri.ParseBuild` | main.py:85-87 | `data:` + media type + `;base64,` + the base 64 of the octets reads back, under the strict reader that takes the media type up to the last `;`, as that media type and those octets, for any media type string |
| `Aggregator.PagesOf` | main.py:98-103 | a response that neither has `pages` nor is a list has no pages (and `Aggregator.NoPagesNoResult` then gives the sentinel) |
| `Aggregator.Join` | main.py:104 | Python's `sep.join`: one part is returned as it is, and two or more start with the first part followed by the separator; `Aggregator.JoinEmptyIff` and `Aggregator.JoinAppend` characterise it further |
| `Aggregator.Markdowns` | main.py:104 | the markdowns are present exactly when every page has one, and then they are the pages' markdowns in page order |
| `Aggregator.Aggregate` | main.py:97-108 | the stored result is never empty, and it starts with "Error extracting result: " when some page lacks its markdown |
| `Aggregator.JoinEmptyIff` | main.py:104-106 | a join with a non-empty separator is empty exactly when there are no parts or one empty part |
| `Aggregator.JoinAppend` | main.py:104 | joining goes left to right: a further part is appended after a separator |
| `Aggregator.AggregateJoins` | main.py:98-106 | when every page has markdown, the result is the pages' markdowns joined by a blank line in page order, except that the sentinel "No result found." replaces the join exactly when there are no pages or one empty page |
| `Aggregator.NoPagesNoResult` | main.py:98-106 | a response with no pages, including one that neither has `pages` nor is a list, gives "No result found." |
| `Aggregator.TwoPages` | main.py:97-106 | pages "Hello" and "World" give "Hello\n\nWorld" |
| `Session.SessionState.constructor` | main.py:21-26 | a new session holds no result, no preview source and no image octets |
| `Session.SessionState.Process` | main.py:49-110 | a rejected input sends nothing and changes no field; otherwise the built descriptor is sent, the image octets are replaced on the Image + Local Upload path only, a raised call leaves result and preview as they were, and a reply stores its aggregate as the result together with the preview source; result and preview are always set together and a stored result is never empty |
| `Download.Link` | main.py:136-137 | the anchor around a `data:file/txt;base64,` URI of the UTF-8 result; reading it back (strict data-URI reader, strict UTF-8) gives exactly the result |
| `Download.AnchorReadBack` | main.py:136-137 | the anchor built around a result's data URI reads back as exactly that result |

## Left out

- The page layout, the widgets that collect the file type, source, URL and upload, and the two-pane display of the stored result and preview (main.py:6-18, 29-46, 112-134): user interface only. The choice of inputs becomes the parameters of `Process`.
- The API-key gate and `st.stop()` (main.py:14-18): the model starts after a key has been given.
- The Mistral client, the `client.ocr.process` call and its arguments (`model="mistral-ocr-latest"`, `include_image_base64=True`) (main.py:55, 91-95): a network service that is not part of this model; it is the `ocr` function parameter of `Process`, whose reply is either a response or an error.
- `uploaded_file.read()` and `uploaded_file.type` (main.py:65, 80-81): file input; the octets and media type are the fields of `Payload.Upload`.
- The spinner (main.py:90) and the escaping of the preview source into HTML: presentation only.
- Aggregator.Aggregate: the text after "Error extracting result: " is Python's exception message, which names the page object's type; the model puts a fixed description there and its contract states only the prefix.
- Aggregator.Aggregate: a page whose markdown is not a string, or a `pages` attribute that cannot be iterated (both a `TypeError` caught by the same `except`), is not modelled as its own case; the first is a `None` page, the second is not expressible in `Response`.
- Utf8.Encode: a Dafny character is a Unicode scalar value, so a Python string holding a lone surrogate, whose `encode()` raises, cannot be expressed.
- The aggregator is a function, so calling it twice on the same response gives the same text by construction; no lemma states it.
