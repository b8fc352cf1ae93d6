# ContentType and HttpClient, modelled in Dafny

This project models the small HTTP helper in `samples/_http.py`:

- **`ContentType`**, a frozen value object for a Content-Type header value
  in the one-parameter form of RFC 1521, section 4 ("The Content-Type Header
  Field"). It is parsed by one anchored regular expression
  (`from_response`), rendered back to text (`__str__`) and classified
  (`is_json`). Module `ContentTypes` in `content_type.dfy`.
- **`HttpClient`**, the decisions it takes around one exchange. It builds
  the URL from the query, prepares the body `patch` and `post` send, fixes
  the verb of each helper, and decides whether the reply is returned
  JSON-decoded or as raw bytes. Module `HttpClient` in `http_client.dfy`.

`wrappers.dfy` holds the `Option` and `Result` types.

The pattern is modelled as a deterministic left-to-right matcher (`Match`).
Its runs are maximal (`SpanFrom`), and it has the only backtracking of
Python's engine that changes the groups of a successful match: when only
whitespace stands between `;` and `=`, the attribute is the last whitespace
character. The language of the pattern
is defined separately:

- `Spell` writes a content type back out, with any whitespace around `;`.
- `Matches` says that a string is spelled by some content type whose
  groups obey their character classes (`Grammatical`).

`MatchIff` proves that the matcher succeeds on exactly that language. The
`*Spells` lemmas prove that what it captures spells the input. The
`*Complete` lemmas prove that every spelling is recognised and its groups
recovered. Parsing is total: `FromHeader` always returns a content type
that the parser can produce (`Parseable`), and `text/plain` when the
header is missing or malformed.

Two details of Python's `re` are modelled exactly, not approximated:

- `\s` is the full set of characters `str.isspace` accepts (`IsSpace`).
- `$` also matches just before a final newline (`Chomp`).

Two behaviours of the code are kept as written:

- The attribute is not trimmed. `[^=]+` keeps any whitespace before `=`,
  and keeps a single whitespace character in the backtracking case above.
- Parse-then-render does not always reproduce a header without extra
  whitespace. `__str__` always writes `; ` (semicolon, space), so `a/b;c=d`
  comes back as `a/b; c=d`. `ParseThenRender` and `ReproducedOnlyIf`
  state the exact condition under which the text is reproduced.

## Model

| member | source | states |
|---|---|---|
| ContentTypes.SpanFrom | samples/_http.py:20 | a greedy run of one character class: every character from `start` up to the result is in the class, and the character at the result, if any, is not |
| ContentTypes.CutParameter | samples/_http.py:20 | where the optional group `\s*;\s*attribute=value` cuts what follows the subtype: whitespace, then `;`, then whitespace, then non-`=` characters, then `=`, then a value without newline running to the end; the attribute starts with whitespace only when it is that one character |
| ContentTypes.MatchParameter | samples/_http.py:20 | the captured attribute is non-empty and holds no `=`; the value is non-empty and holds no newline; the text around `;` is whitespace; the attribute starts with whitespace only when it is one character long |
| ContentTypes.MatchBody | samples/_http.py:20 | a successful match has a non-empty type with no `/` or whitespace, a non-empty subtype with no `;` or whitespace, and a parameter that is absent or has both an attribute and a value |
| ContentTypes.Chomp | samples/_http.py:20 | `$` matches at the end or before one final newline: the result is the input with its final newline removed if it ends in one, and the input unchanged otherwise |
| ContentTypes.Match | samples/_http.py:39 | `FORMAT.match` captures only content types the parser can produce (`Parseable`), with whitespace around `;` |
| ContentTypes.FromHeader | samples/_http.py:37-42 | parsing is total and its result is always parseable; a missing header gives `text/plain` |
| ContentTypes.Render | samples/_http.py:27-31 | every content type renders as `type/subtype; attribute=value` (the spelling with no whitespace before `;` and one space after it) when it has a parameter whose attribute or value is non-empty, and as `type/subtype` otherwise, so `text/plain; =v` for an empty attribute and `text/plain` for a parameter with both parts empty |
| ContentTypes.Lower | samples/_http.py:34 | lower-casing keeps the length and lowers each character |
| ContentTypes.MatchParameterSpells | samples/_http.py:20 | the groups captured by the optional part, joined with `;` and `=`, give back the text it was matched on |
| ContentTypes.MatchBodySpells | samples/_http.py:20 | the groups captured by a match give back the header text |
| ContentTypes.MatchSpells | samples/_http.py:20 | a match's groups spell the header, up to the one final newline `$` allows |
| ContentTypes.MatchParameterComplete | samples/_http.py:20 | every well-formed `;`-parameter with surrounding whitespace is matched; its leading whitespace and value are recovered, and its attribute and trailing whitespace are recovered exactly when the attribute is as the greedy `\s*` leaves it, and otherwise `trailing + attribute` is kept |
| ContentTypes.MatchBodyComplete | samples/_http.py:20 | every spelling of a parseable content type is matched and its groups recovered exactly |
| ContentTypes.MatchIff | samples/_http.py:39-40 | the match succeeds if and only if the header is in the language of the pattern |
| ContentTypes.FallbackOnMismatch | samples/_http.py:38-41 | a header outside that language, or the empty default for a missing header, gives `text/plain` with no parameter |
| ContentTypes.ParsedGroupsSpellHeader | samples/_http.py:42 | a header in the language parses to the content type its named groups spell |
| ContentTypes.RenderThenParse | samples/_http.py:27-42 | rendering a parseable content type and parsing the text gives it back |
| ContentTypes.NormaliseIdempotent | samples/_http.py:27-42 | parse-then-render is idempotent: re-parsing a rendered parse result changes nothing |
| ContentTypes.ParseThenRender | samples/_http.py:27-42 | a matching header is reproduced by parse-then-render when it has no final newline, no whitespace before `;` and exactly one space after it |
| ContentTypes.ReproducedOnlyIf | samples/_http.py:27-42 | conversely, a header that parse-then-render reproduces matches, has no final newline, and when it has a parameter has no whitespace before `;` and exactly one space after it |
| ContentTypes.LowerJoin | samples/_http.py:34 | lower-casing `type/subtype` lower-cases the type and the subtype separately |
| ContentTypes.IsJson | samples/_http.py:34 | `is_json` holds if and only if the type lowers to `application` and the subtype to `json`; the parameter plays no part |
| ContentTypes.LowerCaseJson | samples/_http.py:34 | `application/json` in lower case is JSON whatever its parameter |
| ContentTypes.TextPlainParseable | samples/_http.py:41 | the fallback `text/plain` is itself a content type the parser can produce |
| ContentTypes.ExampleStrTextPlain | tests/test_http.py:32 | `text/plain` renders as `text/plain` |
| ContentTypes.ExampleStrJson | tests/test_http.py:33 | `application/json` renders as `application/json` |
| ContentTypes.ExampleStrJsonUtf8 | tests/test_http.py:34 | `application/json` with `charset=UTF-8` renders as `application/json; charset=UTF-8` |
| ContentTypes.ExampleFromResponseTextPlain | tests/test_http.py:16 | the header `text/plain` parses to `text/plain` with no parameter |
| ContentTypes.ExampleFromResponseJson | tests/test_http.py:17 | the header `application/json` parses to `application/json` with no parameter |
| ContentTypes.ExampleFromResponseJsonUtf8 | tests/test_http.py:18 | the header `application/json; charset=UTF-8` parses to `application/json` with attribute `charset` and value `UTF-8` |
| ContentTypes.ExampleIsJson | samples/_http.py:34 | `text/plain` is not JSON; `application/json` is JSON with or without a charset |
| HttpClient.FullUrl | samples/_http.py:57-58 | the URL opened starts with the one given; it equals it if and only if the query is empty; otherwise `?` and the encoded query follow |
| HttpClient.EncodeData | samples/_http.py:78 | no data and bytes pass through unchanged; text is sent as its encoding; text with `encoding=None` fails with the missing-encoding error, text its codec cannot encode with the encoding error, and nothing else fails |
| HttpClient.Receive | samples/_http.py:64-69 | the response keeps the reply and the parsed content type; its data is decoded JSON if and only if the content type is JSON, otherwise the body as read; it fails if and only if a JSON body does not decode |
| HttpClient.Exchange | samples/_http.py:56-69 | a successful response wraps exactly what opening the request at the full URL, with the given verb, body and headers, yields; it fails with a transport error if and only if opening fails, and otherwise is what `Receive` makes of the reply, so it fails with no error other than transport or JSON |
| HttpClient.DecodedIffApplicationJson | samples/_http.py:67-69 | a reply is JSON-decoded if and only if its type is `application` and its subtype `json`, ignoring ASCII case |
| HttpClient.NonJsonPassesThrough | samples/_http.py:69 | a reply that is not JSON never fails and is returned with its raw body |
| HttpClient.MissingHeaderIsRaw | samples/_http.py:38 | a reply without a Content-Type header is `text/plain`, returned raw |
| HttpClient.CharsetJsonIsDecoded | samples/_http.py:67-68 | a reply of type `application/json; charset=UTF-8` is returned JSON-decoded |
| HttpClient.Get | samples/_http.py:72-73 | `get` returns what `_request` makes of the `GET` request with no body at the full URL: a transport error if and only if opening that request fails, otherwise `Receive` of the reply it yields; no other error (test_get, tests/test_http.py:65) |
| HttpClient.Upload | samples/_http.py:76-85 | the shared shape of `patch` and `post`: an encoding failure is returned without opening anything; otherwise the result is the exchange of the request with the prepared body and the given verb |
| HttpClient.Patch | samples/_http.py:76-79 | `patch`: an encoding failure is returned without opening anything; otherwise the result is the `PATCH` exchange with the prepared body at the full URL |
| HttpClient.Post | samples/_http.py:82-85 | `post`: an encoding failure is returned without opening anything; otherwise the result is the `POST` exchange with the prepared body at the full URL |
| HttpClient.PatchSendsEncodedText | tests/test_http.py:78 | text given to `patch` with an encoding is sent as the encoded bytes under `PATCH` |
| HttpClient.PostSendsEncodedText | tests/test_http.py:91 | text given to `post` with an encoding is sent as the encoded bytes under `POST` |
| HttpClient.UploadPassesBytesThrough | samples/_http.py:76-85 | bytes, or no data, given to `patch` or `post` are sent unchanged under that helper's verb |
| HttpClient.UploadEncodingFailure | samples/_http.py:78 | text given with `encoding=None` makes `patch` and `post` fail with the missing-encoding error, and text its codec cannot encode with the encoding error; neither error can come from an exchange, so nothing is opened |
| HttpClient.DefaultEncodingIsUtf8 | samples/_http.py:77 | with the default `encoding`, text given to `patch` or `post` is sent as its UTF-8 encoding under that helper's verb |

## Left out

- Network I/O: `urlopen`, `Request`, `getheader`, `read`, the `with` block and the `Content-Length` branch (samples/_http.py:59, 63-66). They are the `urlopen` field of `Env`, which yields the Content-Type header and the body as read. How much of the body is read is not modelled. A `Content-Length` value that `int` cannot convert (a non-numeric header, or the comma-joined value `getheader` returns for a repeated header) makes line 66 raise `ValueError`; the model has no separate error for it and counts it as a failure of the `urlopen` field, that is `TransportFailed`.
- `urlencode`, `str.encode` and `json.loads` are library calls. They are the opaque function fields of `Env`; an exception they raise is a `None` result.
- `**kwargs` of `_request`: only `headers` is passed by the three helpers, so it is a fixed field of `Request`.
- Logging (samples/_http.py:53, 60) is observability only.
- `HttpResponse.raw` is the live response object; the model keeps the `Reply` it yielded.
- Lower: only ASCII letters are lower-cased; `str.lower` covers all of Unicode. The `is_json` verdict is the same either way. Outside ASCII, `str.lower` maps only two characters to text that contains ASCII: U+0130 becomes `i` followed by a combining dot, and U+212A (Kelvin sign) becomes `k`. Neither a combining dot nor `k` occurs in `application/json`.
- `__str__` with exactly one of attribute and value set: `"=".join` raises on `None`. `from_response` never builds such a value, and the `parameter: Option<Parameter>` field makes it unrepresentable. `Render` keeps the source's test that drops a parameter whose attribute and value are both empty.
- The query and the headers are `Mapping[str, str]`. They are modelled as their items in iteration order, so duplicate keys are representable even though a mapping cannot hold them; only the opaque `urlencode` and `urlopen` see them.
- Integer width plays no part: no arithmetic in the core can overflow.
