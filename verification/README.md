# AppVulnMS traffic parsers and AppVulnXML driver, in Dafny

AppVulnMS is a vulnerability management tool. It takes scanner reports in its own
AppVulnXML format, rebuilds the HTTP traffic of every issue, and writes the
parsed request and response back into the report. This project models the core
of that work and proves what it does.

There are two parts:

- **The HTTP parsers** (`HTTPParser.py`):
  - a line cursor over the traffic text (`io.BytesIO.readline`);
  - the request start-line check of `parse_data`: token count, `HTTP/major.minor` as section 3.1 of RFC 2145 describes, HTTP/0.9 Simple-Requests as section 4.1 of RFC 1945 defines them, and error codes 400 and 505;
  - the header-section part of `email.parser`;
  - the header map of `set_http_headers`: `Cookie` split on `;` as section 4.2.1 of RFC 6265 describes, `Set-Cookie` kept whole as in section 4.1 of RFC 6265, other names stored as one value or as a list;
  - the one-line request body;
  - the response status line and body, base64-encoded in binary mode as in section 4 of RFC 4648;
  - `split_http_traffic`, which cuts a merged capture into a request and a response.
- **The AppVulnXML driver** (`AppVulnXMLParser.py`):
  - the hand-written iterator over the issues;
  - `extract_traffic`, which normalises the `RawTraffic` children;
  - `add_request_data`, `add_response_data` and `add_data`, which run the parsers and append `Header` and `Data` children;
  - `convert_base64_to_plain`.

Text is modelled as its UTF-8 bytes (`Bytes.Bytes`, a sequence of characters
below 256). So `str.encode('utf-8')` is the identity, and a strict `.decode('utf-8')`
of bytes that came from a `str` is the identity too. A strict decode of bytes
from outside, such as base64 output, is `Utf8.Decode`, which fails exactly on
ill-formed UTF-8: the texts it accepts are exactly the encodings of sequences
of Unicode scalar values. `errors="ignore"` is `Utf8.DecodeLenient`.

Base64 (section 4 of RFC 4648) and Python's `repr` of `bytes` are implemented,
not assumed, so their round trips are proved.

The parsers are classes over a `Lines.LineCursor`, with the fields the source
sets step by step:

- `HttpParser.RequestParser` is both `HTTPParser` and `HTTPRequestParser`. A `readsBody` flag says whether `parse_headers` also reads the body line.
- `HttpParser.ResponseParser` is `HTTPResponseParser`.

Each method states its whole new state in terms of the functions of `Lines`,
`MailHeaders` and `HttpHeaders`. `HttpParser.ParseRequestText` and
`HttpParser.ParseResponseText` sum up what a parser yields for a text.

The getters are reading functions with no contract of their own, because each
returns one field:

- `GetErrorCode`, `GetMethod`, `GetRequestVersion`, `GetUrl`;
- `GetRequestData`, `GetHeaders`, `GetRequest`;
- `GetStatus`, `GetReason`, `GetResponseVersion` (`''` when unset);
- `GetResponseData`.

`AppVulnXmlParser.Len` is `__len__` and is a reading function in the same way.

An AppVulnXML issue is a value (`Issues.Issue`) holding:

- the `RawTraffic` children, each with its tag, text and `base64` attribute;
- `RawData` with `RawRequest` and `RawResponse`;
- the `Request` and `Response` nodes, each with its attribute map and its `Parsed` children.

`AppVulnXml.AppVulnXmlParser` holds the issues in a `seq` field together with
the iterator index. Its methods rewrite one issue at a time, step by step. Each
is proved to leave exactly the issue that the matching function of `Driver`
describes, and the properties are proved about those functions in
`DriverProperties`.

A Python exception that escapes the driver (TypeError, IndexError,
`binascii.Error` as ValueError, UnicodeDecodeError) is an `Issues.Outcome`. It
stops the pass and keeps the changes made before it, as the source does.

## Model

| member | source | states |
|---|---|---|
| Bytes.WordsWeave | src/core/parser/HTTPParser.py:67 | `str.split()`: the text is its words woven with whitespace pads (one before each word and one after the last), every pad all whitespace and every pad between two words non-empty, so the words are the maximal non-whitespace runs in order |
| Bytes.WordsOfWeave | src/core/parser/HTTPParser.py:67 | conversely, whitespace-free words woven with such pads split back into exactly those words |
| Bytes.WordsOfJoin | src/core/parser/HTTPParser.py:338 | splitting the single-space join of whitespace-free words, with any trailing whitespace, gives back exactly those words |
| Bytes.SplitOn | src/core/parser/HTTPParser.py:74-75 | `str.split(d)` gives at least one piece, and no piece contains `d` |
| Bytes.JoinSplit | src/core/parser/HTTPParser.py:164 | joining the pieces of `split(d)` with `d` rebuilds the text |
| Bytes.RemoveSpacesAppend | src/core/parser/HTTPParser.py:163 | `replace(" ", "")` works piece by piece: removing the spaces of a concatenation concatenates the results |
| Bytes.RemoveSpacesByte | src/core/parser/HTTPParser.py:163 | a single space becomes nothing and any other byte stays, so the result is the input with its spaces dropped and every other byte kept in order |
| Bytes.RStripCrLf | src/core/parser/HTTPParser.py:65 | `rstrip('\r\n')` keeps a prefix that does not end in CR or LF, and everything removed is CR or LF |
| Bytes.ParseDecimal | src/core/parser/HTTPParser.py:84 | `int()` reads the decimal rendering of every natural number back as that number |
| Lines.LineEnd | src/core/parser/HTTPParser.py:52 | `readline()` stops after the first LF or at the end of the buffer; the line is empty only at the end |
| Lines.LineAt | src/core/parser/HTTPParser.py:52 | a line read is the slice of the buffer at the cursor, and is empty exactly at the end |
| Lines.LineCursor.constructor | src/core/parser/HTTPParser.py:51 | a cursor over the text starts at position 0 |
| Lines.LineCursor.ReadLine | src/core/parser/HTTPParser.py:52 | returns the line at the cursor and advances the cursor past it |
| Lines.HeaderBlockSlice | src/core/parser/HTTPParser.py:139-143 | the lines of a header block concatenate to the slice they were read from; the last line is blank and no earlier line is |
| Lines.ReadHeaderBlock | src/core/parser/HTTPParser.py:138-143 | the `while True: readline()` loop returns the header block and leaves the cursor at its end |
| Lines.NonBlankRunEnd | src/core/parser/HTTPParser.py:261-266 | the request-body loop stops at a blank line (or the end) |
| Lines.NonBlankRunSlice | src/core/parser/HTTPParser.py:261-268 | the non-blank run concatenates to the slice it was read from and holds no blank line |
| Lines.ReadNonBlankRun | src/core/parser/HTTPParser.py:261-268 | the loop returns the non-blank run and the blank line that stopped it, and leaves the cursor after that line |
| Lines.BodyLinesOfSplit | src/core/parser/HTTPParser.py:359-366 | the response body is exactly the non-blank lines, in order, of the rest of the text cut into lines (each non-empty, its only LF its last byte, every line but the last ending in LF) |
| Lines.RestLinesSplit | src/core/parser/HTTPParser.py:359-366 | the lines `readline()` returns from a position to the end cut the rest of the text into such lines |
| Lines.LineSplitUnique | src/core/parser/HTTPParser.py:359-366 | that cut is the only one: any cut of the rest into such lines is the lines `readline()` returns |
| Lines.ReadBodyLines | src/core/parser/HTTPParser.py:358-366 | the loop returns the response body lines and leaves the cursor at the end |
| Lines.ReadRest | src/core/parser/HTTPParser.py:271-276 | the last loop collects the rest of the buffer exactly, ending with the empty line |
| Base64.DecodeEncode | src/core/parser/HTTPParser.py:372 | `b64decode(b64encode(b)) == b` for all bytes |
| Base64.EncodeShape | src/core/parser/HTTPParser.py:372 | the encoding has 4 characters per started group of 3 bytes, all ASCII |
| Utf8.EncodeValid | src/core/parser/AppVulnXMLParser.py:240 | the UTF-8 encoding of section 3 of RFC 3629 of any sequence of Unicode scalar values is well formed, and strict decoding returns it unchanged |
| Utf8.RefusesNonScalars | src/core/parser/AppVulnXMLParser.py:240 | strict decoding refuses every text that starts with an overlong form (lead C0 or C1, E0 below A0, F0 below 90), an encoded surrogate (ED then A0 or above) or a form above U+10FFFF (F4 then 90 or above, or a lead from F5), whatever follows |
| Utf8.ValidIsEncoding | src/core/parser/AppVulnXMLParser.py:240 | every text strict decoding accepts is the RFC 3629 encoding of a sequence of Unicode scalar values, so with `EncodeValid` it accepts exactly the encodings |
| Utf8.DecodeLenientValid | src/core/parser/AppVulnXMLParser.py:278 | decoding with `errors="ignore"` always yields well-formed UTF-8 |
| Utf8.DecodeLenientOfValid | src/core/parser/AppVulnXMLParser.py:278 | on well-formed UTF-8, decoding with `errors="ignore"` drops nothing |
| BytesRepr.UnreprRepr | src/core/parser/AppVulnXMLParser.py:331-332 | `str(bytes)` loses nothing: reading the literal back gives the bytes |
| BytesRepr.ReprPrintable | src/core/parser/AppVulnXMLParser.py:332 | `str(bytes)` is printable ASCII |
| MailHeaders.MailLinesShape | src/core/parser/HTTPParser.py:147 | the text is cut into lines that concatenate back to it, each non-empty with its only CR or LF bytes its terminator (CRLF, CR or LF), every line but the last terminated, and no CR ending a line where an LF follows |
| MailHeaders.MailLinesOfSplit | src/core/parser/HTTPParser.py:147 | that cut is the only one: any cut of the text into such lines is the one the parser makes |
| MailHeaders.Keys | src/core/parser/HTTPParser.py:155 | `keys()` lists one name per field, in field order |
| MailHeaders.GetAllOfKey | src/core/parser/HTTPParser.py:159 | `get_all` of a name that `keys()` lists is never empty |
| MailHeaders.ParseRender | src/core/parser/HTTPParser.py:147 | parsing the rendered header section of well-formed fields gives those fields back, in order |
| HttpHeaders.CookieSplit | src/core/parser/HTTPParser.py:163-164 | the pieces of a `Cookie` value contain no space and no `;`, and joined with `;` they rebuild the space-free value |
| HttpHeaders.PutPut | src/core/parser/HTTPParser.py:167 | appending twice under one name equals appending both lists at once |
| HttpHeaders.LookupPut | src/core/parser/HTTPParser.py:167 | appending under a name extends that name's list and leaves every other name's list alone |
| HttpHeaders.NamesPut | src/core/parser/HTTPParser.py:151 | a name enters the map at the end on its first non-empty append, and never again |
| HttpHeaders.ProjectSpec | src/core/parser/HTTPParser.py:149-184 | the map's names are the distinct keys in first-occurrence order; each name stores its per-occurrence entries once per occurrence of the name in `keys()`; a name not in `keys()` stores nothing |
| HttpHeaders.CookieRule | src/core/parser/HTTPParser.py:156-167 | `Cookie` entries are single strings without spaces or `;`, and joined with `;` they equal the space-free `Cookie` values joined with `;` |
| HttpHeaders.SetCookieRule | src/core/parser/HTTPParser.py:169-177 | `Set-Cookie` stores one whole, space-free entry per value, in order |
| HttpHeaders.OtherRule | src/core/parser/HTTPParser.py:179-184 | any other name stores one entry per occurrence: its value when it has one, the list of all its values when it has several |
| HttpHeaders.AppendPieces | src/core/parser/HTTPParser.py:166-167 | the inner loop appends each piece, in order, under the name |
| HttpHeaders.AppendCookies | src/core/parser/HTTPParser.py:157-167 | the `Cookie` loops append every piece of every space-free value, in order |
| HttpHeaders.AppendSetCookies | src/core/parser/HTTPParser.py:170-177 | the `Set-Cookie` loop appends every space-free value, in order |
| HttpHeaders.AppendFor | src/core/parser/HTTPParser.py:156-184 | one pass of the outer loop appends that name's entries under the name |
| HttpHeaders.CollectHeaders | src/core/parser/HTTPParser.py:151-184 | the nested loops build exactly the header map that `ProjectSpec` characterises |
| HttpParserProperties.RejectionCode | src/core/parser/HTTPParser.py:68-104 | a rejected request line reports 505 exactly when it has three words and the third reads `HTTP/a.b` with integers `(a, b)` at least `(2, 0)`, and 400 for every other rejection |
| HttpParser.RequestParser.constructor | src/core/parser/HTTPParser.py:49-53 | the parser reads the first line of the text; no error code is set and no field is parsed yet |
| HttpParser.RequestParser.SendError | src/core/parser/HTTPParser.py:186-188 | records the code and the error, and changes nothing else |
| HttpParser.RequestParser.JudgeRequestLine | src/core/parser/HTTPParser.py:61-106 | `ok` iff the line is accepted; then command, path and version come from the line. On refusal the method is None and the version is the default; a blank line sets no error; a rejected one sets its code |
| HttpParser.RequestParser.ParseHeaders | src/core/parser/HTTPParser.py:296-312 | reads the header block, then parses it less its first line; with `readsBody` it also stores the one line after the block. `HTTPParser.parse_headers` (lines 130-147) is the same without the body line |
| HttpParser.RequestParser.ParseData | src/core/parser/HTTPParser.py:55-128 | `ok` iff the start line is accepted; on refusal no headers are parsed, the method is None and the cursor stays put; on acceptance the headers are those of the header text and the body is the one line after it |
| HttpParser.RequestParser.SetHttpHeaders | src/core/parser/HTTPParser.py:149-184 | the header map is the projection of the parsed headers, or empty when none were parsed; nothing else changes |
| HttpParser.ParseRequestText | src/core/parser/AppVulnXMLParser.py:119-122 | the view's start line is the verdict on the text's first line; the text yields a body exactly when that line is accepted, and no headers when it is not |
| HttpParser.RunRequestParser | src/core/parser/AppVulnXMLParser.py:119-121 | a request parser after `parse_data` and `set_http_headers` holds exactly the view: method, URL and version on acceptance, the error on rejection, neither on a blank line, and the header map and body of `ParseRequestText` |
| HttpParser.ResponseParser.constructor | src/core/parser/HTTPParser.py:323-325 | the parser reads the status line and keeps the binary flag; nothing is parsed yet |
| HttpParser.ResponseParser.SplitStatusLine | src/core/parser/HTTPParser.py:331-338 | with three or more words: version, status, and the rest joined by single spaces; otherwise those fields stay unset |
| HttpParser.ResponseParser.ParseHeaders | src/core/parser/HTTPParser.py:348-379 | parses the whole header block; the body is the non-blank lines after it, stored base64-encoded in binary mode |
| HttpParser.ResponseParser.ParseData | src/core/parser/HTTPParser.py:327-346 | always succeeds and sets no error; status-line fields and headers and body as above |
| HttpParser.ResponseParser.SetHttpHeaders | src/core/parser/HTTPParser.py:149-184 | the header map is the projection of the parsed headers; nothing else changes |
| HttpParser.SplitHttpTraffic | src/core/parser/HTTPParser.py:237-281 | None gives None; otherwise the three line loops yield the request and response that `Split` defines |
| HttpParserProperties.StartLineRules | src/core/parser/HTTPParser.py:62-106 | by word count: none is blank; one or four or more is a syntax error; two is accepted iff the first word is GET, and then the default version is kept; three is accepted iff the version passes. Every rejection is 400, except an invalid version, which is 505 |
| HttpParserProperties.VersionWordVerdict | src/core/parser/HTTPParser.py:74-93 | for natural a and b written in decimal, `HTTP/a.b` is accepted for a major version below 2 and rejected as an invalid version (505) otherwise |
| HttpParserProperties.FullRequestLine | src/core/parser/HTTPParser.py:68-93 | for natural a and b written in decimal, a three-word line `command target HTTP/a.b` is accepted with those three words when a < 2, and rejected with the number after `HTTP/` otherwise |
| HttpParserProperties.NegativeMinorAccepted | src/core/parser/HTTPParser.py:84-93 | because `int()` takes a sign and the versions compare as tuples, `command target HTTP/a.-k` with k > 0 is accepted when a <= 2, so `HTTP/2.-1` passes, and rejected with 505 when a > 2 |
| HttpParserProperties.SimpleRequestLine | src/core/parser/HTTPParser.py:94-100 | a two-word line is accepted with the default version iff its command is GET, and otherwise rejected as a bad HTTP/0.9 request type |
| HttpParserProperties.DefaultVersionAccepted | src/core/parser/HTTPParser.py:62 | the default version `HTTP/0.9` is one word and passes the version checks |
| HttpParserProperties.FormatRequestReparses | src/core/parser/HTTPParser.py:230-231 | `get_request` of an accepted request line is a request line with the same verdict |
| HttpParserProperties.RequestHeaderTextSkipsFirstLine | src/core/parser/HTTPParser.py:300-311 | the header text is the header block less its first line, so the first header line never reaches the header parser |
| HttpParserProperties.FirstHeaderDropped | src/core/parser/HTTPParser.py:310-312 | for a request line followed by a rendered header section, the header map is the projection of every field but the first |
| HttpParserProperties.RenderedHeaderBlock | src/core/parser/HTTPParser.py:300-305 | on a rendered header section the header loop reads one line per field and then the blank line |
| HttpParserProperties.RequestBodyIsOneLine | src/core/parser/HTTPParser.py:308 | the body is the slice right after the header block up to and including its first LF, and is empty exactly at the end of the buffer |
| HttpParserProperties.StatusLineRule | src/core/parser/HTTPParser.py:331-338 | with three or more words: version, status and reason come from the words, and the reason splits back into the remaining words; with fewer, all three are `''` |
| HttpParserProperties.StatusLineOf | src/core/parser/HTTPParser.py:331-338 | a status line built from a version, a status and reason words parses back to exactly those parts |
| HttpParserProperties.BinaryBodyDecodes | src/core/parser/HTTPParser.py:358-375 | the stored body is the body in text mode, and in binary mode decodes back to exactly the body |
| HttpParserProperties.SplitPartition | src/core/parser/HTTPParser.py:243-281 | the text is request, then separator, then response; the request is a prefix of the text; the separator is a blank line or empty |
| HttpParserProperties.SplitRequestLines | src/core/parser/HTTPParser.py:254-268 | the request is the header block followed by the non-blank run, and its only blank line ends the header block |
| HttpParserProperties.BodylessRequestKeepsNextLine | src/core/parser/HTTPParser.py:261-268 | when the line after the header block is not blank, the request part swallows it, even if it is the response's status line |
| Issues.FirstWith | src/core/parser/AppVulnXMLParser.py:196-199 | `xpath(...)[0]`: the first child with the tag, or none when no child has it |
| Issues.RemoveAt | src/core/parser/AppVulnXMLParser.py:225 | `remove` drops exactly that child and keeps the others in order |
| Issues.MoveToEnd | src/core/parser/AppVulnXMLParser.py:252-253 | appending a child that is already attached leaves the child count unchanged and puts that child last |
| Issues.MoveToEndOrder | src/core/parser/AppVulnXMLParser.py:252-253 | the other children keep their order in front of it |
| Driver.MergeStep | src/core/parser/AppVulnXMLParser.py:211-225 | without MergedTraffic nothing changes; when the new nodes were attached, there is one more child |
| Driver.MergeStepResult | src/core/parser/AppVulnXMLParser.py:211-225 | with a MergedTraffic child that has text, the result is the other children in order followed by the request and response halves of its split, flagged attached; without text, just the other children, not attached |
| Driver.ExtractTrafficOf | src/core/parser/AppVulnXMLParser.py:190-253 | only `RawTraffic` children change; the pass succeeds only when `RawTraffic` exists |
| AppVulnXml.AppVulnXmlParser.constructor | src/core/parser/AppVulnXMLParser.py:46-52 | holds the issues, with the index at the first |
| AppVulnXml.AppVulnXmlParser.Next | src/core/parser/AppVulnXMLParser.py:68-76 | `__next__` returns the step and moves the index as `IterationSkipsLast` characterises, leaving the issues alone |
| AppVulnXml.SplitMerged | src/core/parser/AppVulnXMLParser.py:211-225 | the MergedTraffic steps produce the children and the attached flag that `MergeStep` defines |
| AppVulnXml.AppVulnXmlParser.ExtractTraffic | src/core/parser/AppVulnXMLParser.py:190-253 | rewrites issue `k` into what `ExtractTrafficOf` gives, and no other issue |
| AppVulnXml.ExtractIssue | src/core/parser/AppVulnXMLParser.py:190-253 | the statement-by-statement body of `extract_traffic` on one issue gives the outcome and issue of `ExtractTrafficOf` |
| AppVulnXml.CheckRequest | src/core/parser/AppVulnXMLParser.py:229-248 | after the MergedTraffic step, the RequestTraffic checks give `ExtractTrafficOf`'s outcome and issue |
| AppVulnXml.AppendTraffic | src/core/parser/AppVulnXMLParser.py:249-253 | without a RequestTraffic child, appending the two nodes (moving them when already attached) gives `ExtractTrafficOf`'s result |
| AppVulnXml.AppendHeaderNodes | src/core/parser/AppVulnXMLParser.py:139-143 | the nested `Header` loops give the outcome and children that `AppendHeadersRule` characterises |
| AppVulnXml.AppVulnXmlParser.AddRequestData | src/core/parser/AppVulnXMLParser.py:113-148 | rewrites issue `k` into what `AddRequestDataOf` gives, and no other issue |
| AppVulnXml.AppVulnXmlParser.AddResponseData | src/core/parser/AppVulnXMLParser.py:150-188 | rewrites issue `k` into what `AddResponseDataOf` gives, and no other issue |
| AppVulnXml.AppVulnXmlParser.AddDataIssue | src/core/parser/AppVulnXMLParser.py:261-295 | one pass of the `add_data` loop rewrites issue `k` into what `AddDataOf` gives, and no other issue |
| AppVulnXml.AppVulnXmlParser.AddData | src/core/parser/AppVulnXMLParser.py:255-295 | visits the issues in order and stops at the first exception, as `ForEachAllDone` and `ForEachStops` characterise |
| AppVulnXml.AppVulnXmlParser.ConvertIssue | src/core/parser/AppVulnXMLParser.py:315-344 | one pass of the loop rewrites issue `k` into what `ConvertOf` gives, and no other issue |
| AppVulnXml.AppVulnXmlParser.ConvertBase64ToPlain | src/core/parser/AppVulnXMLParser.py:309-344 | visits the issues in order and stops at the first exception |
| DriverProperties.IterationSkipsLast | src/core/parser/AppVulnXMLParser.py:68-76 | calling `__next__` repeatedly yields every issue but the last, in order, then raises StopIteration; with no issues the first call raises IndexError |
| DriverProperties.Normalised | src/core/parser/AppVulnXMLParser.py:202-253 | after normalising, the last two children are a RequestTraffic and a ResponseTraffic, both flagged `base64="false"` |
| DriverProperties.ExtractWithoutRequest | src/core/parser/AppVulnXMLParser.py:250-253 | without a RequestTraffic child the pass succeeds and leaves the normalised children, whether the merged split attached the new nodes or not |
| DriverProperties.NormalisedPrefix | src/core/parser/AppVulnXMLParser.py:211-253 | with at most one MergedTraffic and no RequestTraffic before, no child but the last two is a RequestTraffic or a MergedTraffic |
| DriverProperties.NormalisedKeeps | src/core/parser/AppVulnXMLParser.py:211-253 | every child but the last two was there before |
| DriverProperties.NormalisedTraffic | src/core/parser/AppVulnXMLParser.py:202-253 | with no traffic child before, the first RequestTraffic and the first ResponseTraffic are the two new nodes |
| DriverProperties.NormalisedFirsts | src/core/parser/AppVulnXMLParser.py:211-253 | after normalising there is no MergedTraffic, and the first RequestTraffic is the new one |
| DriverProperties.ExtractIdempotent | src/core/parser/AppVulnXMLParser.py:190-253 | with no RequestTraffic and at most one MergedTraffic before, a second `extract_traffic` succeeds and changes nothing |
| DriverProperties.ExtractDecodesRequest | src/core/parser/AppVulnXMLParser.py:229-248 | a non-empty base64-flagged RequestTraffic holding well-formed UTF-8 is removed, and a node with its decoded text, flagged `false`, is appended |
| DriverProperties.ExtractKeepsUnflagged | src/core/parser/AppVulnXMLParser.py:229-238 | a RequestTraffic child with empty text or without `base64="true"` is left alone: the pass succeeds and only the MergedTraffic step applies |
| DriverProperties.ExtractRequestFailures | src/core/parser/AppVulnXMLParser.py:229-240 | a RequestTraffic child without text raises TypeError, undecodable base64 raises ValueError and ill-formed decoded UTF-8 raises UnicodeDecodeError, each after the MergedTraffic step |
| DriverProperties.ExtractKeepsResponses | src/core/parser/AppVulnXMLParser.py:190-253 | every ResponseTraffic child (and every child of another tag) the issue had stays unchanged and in order, ahead of any the pass adds, whatever the outcome |
| DriverProperties.AppendValuesOutcome | src/core/parser/AppVulnXMLParser.py:140-143 | the value loop completes iff every value is one string; otherwise lxml raises TypeError |
| DriverProperties.AppendValuesResult | src/core/parser/AppVulnXMLParser.py:140-143 | for string values, one `Header(name, value)` per value is appended, in order |
| DriverProperties.AppendHeadersRule | src/core/parser/AppVulnXMLParser.py:139-143 | the loops complete iff every stored value is one string, and otherwise raise TypeError; children are only appended; on completion one `Header` per value, in map order |
| DriverProperties.ListValueRule | src/core/parser/HTTPParser.py:179-184 | the header map holds only strings iff no name other than `Cookie` and `Set-Cookie` occurs twice |
| DriverProperties.RecordRequestAttributes | src/core/parser/AppVulnXMLParser.py:124-128 | a refused or blank start line raises TypeError and changes nothing; otherwise `method` and `version` are set, other attributes are kept, and only `Request` changes |
| DriverProperties.RecordRequestChildren | src/core/parser/AppVulnXMLParser.py:132-148 | success iff the map holds only strings, otherwise TypeError; on success one `Header` per value, then one `Data` child with the body |
| DriverProperties.RecordResponseRule | src/core/parser/AppVulnXMLParser.py:162-188 | sets `version`, `status` and `reason` and keeps other attributes; success iff the map holds only strings; on success one `Header` per value, then `Data` with the body and `base64` set to `str(binary_data)`; only `Response` changes |
| DriverProperties.ResponseDataBody | src/core/parser/HTTPParser.py:368-375 | the response `Data` text is the body, or in binary mode decodes back to it |
| DriverProperties.AddRequestDataOutcome | src/core/parser/AppVulnXMLParser.py:113-148 | `add_request_data` either completes or raises TypeError, and never touches `RawTraffic` |
| DriverProperties.AddResponseDataOutcome | src/core/parser/AppVulnXMLParser.py:150-188 | `add_response_data` either completes or raises TypeError |
| DriverProperties.AddSidesDecode | src/core/parser/AppVulnXMLParser.py:269-295 | a base64-flagged side is parsed as its decoded text with invalid UTF-8 dropped, which leaves well-formed text unchanged; the response side is parsed in binary mode |
| DriverProperties.AddDataAfterExtraction | src/core/parser/AppVulnXMLParser.py:255-295 | for an issue with no traffic children, `add_data`'s pass either completes or raises TypeError, never IndexError, ValueError or UnicodeDecodeError |
| DriverProperties.ForEachAllDone | src/core/parser/AppVulnXMLParser.py:260 | when no issue raises, every issue is rewritten in order |
| DriverProperties.ForEachStops | src/core/parser/AppVulnXMLParser.py:260 | the first issue that raises stops the pass: the issues before it are rewritten, it keeps its partial changes, and the rest are untouched |
| DriverProperties.Shown | src/core/parser/AppVulnXMLParser.py:331-334 | the response text kept is read back to the response bytes: as a bytes literal below 10000 bytes, by base64 decoding from 10000 on |
| DriverProperties.ConvertRule | src/core/parser/AppVulnXMLParser.py:314-344 | with base64 request and response parts and a UTF-8 request, the pass succeeds, `RawTraffic` text becomes request text followed by the shown response, and `RawData` is removed |
| DriverProperties.ConvertNeedsBothParts | src/core/parser/AppVulnXMLParser.py:320-344 | success needs `RawTraffic`, `RawRequest` and `RawResponse`, and then removes `RawData`; without `RawData` the pass raises IndexError and changes nothing |
| DriverProperties.ConvertRefusesIllFormedRequest | src/core/parser/AppVulnXMLParser.py:320-323 | a request that does not decode as UTF-8 raises UnicodeDecodeError and changes nothing |

## Left out

- I/O and lxml. Parsing and serialising XML (`__init__`, `get_xml`, `string`, `__str__`) and the XPath getters (`get_root`, `get_scanner`, `get_summary`, `get_vulnerabilities`, `get_payload`) are outside the model. The issues are given as values, and `AppVulnXmlParser.constructor` takes them directly. The warning `split_http_traffic` logs when given no text (`Log.warn`) is left out too; the None it returns is modelled.
- `__iter__` only returns the object itself, so it has no counterpart.
- XML text rules are not modelled: CDATA wrapping and characters that XML refuses.
- The model holds one `RawTraffic` element per issue. A second one, which the XPath queries would also see, is not modelled.
- The model likewise holds at most one `RawData` element per issue, with at most one `RawRequest` and one `RawResponse`. In `convert_base64_to_plain`, `xpath("RawData/RawRequest")[0]` searches every `RawData` element while `issue.remove(raw_data[0])` removes only the first. An issue with several `RawData` elements, where the parts could come from a later one, is not modelled.
- Connection and Expect handling (`close_connection`, `handle_expect_100`) are not modelled. They depend on inherited `BaseHTTPRequestHandler` settings, and nothing else in the code reads them.
- The `LineTooLong` handlers are not modelled. They name the unbound `http` module, and the in-memory reader never raises that error.
- The IndexError handlers around the `Request` and `Response` XPath lookups are not modelled. They call the undefined `log`/`Log`. The model gives every issue `Request` and `Response` nodes with `Parsed` children.
- The error message text is not modelled. `send_error`'s message is a `%r`/`%s` format. The model records the error kind with the text the message quotes, not the formatted string.
- `get_data`, and `HTTPParser.get_response_data` of the base class, always return None. No code sets the attributes they read.
- `binary_data` has no effect in `extract_traffic` and `add_data`'s own decisions, and is not a parameter there. It is a parameter of `add_response_data` and of the response parser, where it does have an effect.
- Text is modelled as UTF-8 bytes, so these are left out:
  - non-ASCII whitespace, which Python's `str.split()` also splits on; the model splits on ASCII whitespace only;
  - non-ASCII digits, which `int()` accepts;
  - lone surrogates.
- `email.parser` is modelled only as far as its header section goes:
  - header lines, continuation lines, envelope lines and the end of the header section;
  - the compat32 value cleanup.

  The body, MIME structure and defect reporting are not modelled. Neither are RFC 2047 encoded words.
- `MailHeaders.GetAll`: its contract only bounds the number of values. How it matches names without regard to case is in its definition and in `GetAllOfKey`.
- `Driver.ExtractTrafficOf`: its own contract states only what the pass leaves alone; a contract covering every branch would repeat its body. The `DriverProperties` lemmas state the effect case by case: `ExtractWithoutRequest` (no RequestTraffic), `ExtractKeepsUnflagged` (unflagged or empty request), `ExtractDecodesRequest` (flagged request), `ExtractRequestFailures` (the three exceptions) and `ExtractKeepsResponses` (every outcome). `ExtractDecodesRequest` states the success case for request text that is the canonical base64 encoding of its bytes. Non-canonical text that the lenient decoder also accepts follows the same definition, but no lemma names it.
- `DriverProperties.ExtractIdempotent` is proved only for issues with no RequestTraffic child and at most one MergedTraffic child. With two MergedTraffic children, the first call leaves the second one, which a second call would split.
- `DriverProperties.AddDataAfterExtraction` is proved only for issues with no traffic children before the pass. With traffic already present, the pass can also raise IndexError, ValueError or UnicodeDecodeError.
