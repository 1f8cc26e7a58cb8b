/** The HTTP traffic parsers: a request parser that reads the start line the
    way `http.server` does (token count, `HTTP/major.minor` as section 3.1
    of RFC 2145 describes, HTTP/0.9 Simple-Requests as section 4.1 of
    RFC 1945 defines them), a response parser that splits the status line
    and collects the body, and the splitter that cuts a merged capture into
    a request part and a response part.

    Each parser reads its text through a line cursor. The first line is
    read when the parser is made; `ParseData` reads the header block (and,
    for a request, one body line; for a response, every remaining non-blank
    line); `SetHttpHeaders` builds the header map. Rejections are recorded
    as an error code and an error kind, never raised. */
module HttpParser {
  import opened Bytes
  import opened Lines
  import MailHeaders
  import opened HttpHeaders
  import Base64

  /** `BaseHTTPRequestHandler.default_request_version` */
  const DefaultRequestVersion: Bytes := "HTTP/0.9"

  /** Why a start line is rejected, with the text its message quotes. */
  datatype ErrorKind =
    | BadRequestVersion(version: Bytes)
    | InvalidHttpVersion(number: Bytes)
    | BadSimpleRequestType(command: Bytes)
    | BadRequestSyntax(line: Bytes)

  function ErrorCode(e: ErrorKind): (code: nat)
    ensures code == 505 <==> e.InvalidHttpVersion?
    ensures code == 400 <==> !e.InvalidHttpVersion?
  {
    if e.InvalidHttpVersion? then 505 else 400
  }

  /** The verdict on a request line. */
  datatype StartLine =
    | Blank
    | Rejected(error: ErrorKind)
    | Accepted(command: Bytes, path: Bytes, version: Bytes)

  /** `int(a), int(b)` for the text `a.b` with exactly one '.'; None stands
      for the ValueError of any other shape. */
  function ParseVersionNumber(number: Bytes): Option<(int, int)> {
    var parts := SplitOn(number, '.');
    if |parts| != 2 then None
    else
      match ParseInt(parts[0])
      case None => None
      case Some(major) =>
        match ParseInt(parts[1])
        case None => None
        case Some(minor) => Some((major, minor))
  }

  /** Python's tuple comparison `v >= w`. */
  predicate AtLeast(v: (int, int), w: (int, int)) {
    v.0 > w.0 || (v.0 == w.0 && v.1 >= w.1)
  }

  /** The rejection, if any, of the version word of a three-word request
      line: it must read `HTTP/a.b` with `a` and `b` integers, and `(a, b)`
      must be below `(2, 0)`. */
  function VersionRejection(version: Bytes): Option<ErrorKind> {
    if !StartsWith(version, "HTTP/") then Some(BadRequestVersion(version))
    else
      var number := version[5..];
      match ParseVersionNumber(number)
      case None => Some(BadRequestVersion(version))
      case Some(v) => if AtLeast(v, (2, 0)) then Some(InvalidHttpVersion(number)) else None
  }

  /** The decision `parse_data` takes on the words of the request line. */
  function ClassifyWords(line: Bytes, words: seq<Bytes>): StartLine {
    if |words| == 3 then
      match VersionRejection(words[2])
      case Some(e) => Rejected(e)
      case None => Accepted(words[0], words[1], words[2])
    else if |words| == 2 then
      if words[0] != "GET" then Rejected(BadSimpleRequestType(words[0]))
      else Accepted(words[0], words[1], DefaultRequestVersion)
    else if words == [] then Blank
    else Rejected(BadRequestSyntax(line))
  }

  /** The verdict on a raw request line (terminator included). */
  function Classify(raw: Bytes): StartLine {
    var line := RStripCrLf(raw);
    ClassifyWords(line, Words(line))
  }

  /** What the request parsers read as header text: the header block less
      its first line. */
  function RequestHeaderText(buf: Bytes, p: nat): Bytes
    requires p <= |buf|
  {
    var block := HeaderBlock(buf, p);
    HeaderBlockSlice(buf, p);
    Concat(block[1..])
  }

  /** The one line the request parser reads after the header block. */
  function RequestBody(buf: Bytes, p: nat): Bytes
    requires p <= |buf|
  {
    LineAt(buf, HeaderBlockEnd(buf, p))
  }

  /** `%s` of an optional string: Python prints None as "None". */
  function Show(o: Option<Bytes>): Bytes {
    if o.Some? then o.value else "None"
  }

  /** `"%s %s %s" % (method, url, version)` */
  function FormatRequest(command: Option<Bytes>, path: Option<Bytes>, version: Option<Bytes>): Bytes {
    Show(command) + [SP] + Show(path) + [SP] + Show(version)
  }

  /** `HTTPParser` (`readsBody` false) and `HTTPRequestParser` (`readsBody`
      true) over one request text. */
  class RequestParser {
    const rfile: LineCursor
    const readsBody: bool
    const rawRequestLine: Bytes
    var errorCode: Option<nat>
    var errorKind: Option<ErrorKind>
    var requestLine: Option<Bytes>
    var command: Option<Bytes>
    var path: Option<Bytes>
    var requestVersion: Option<Bytes>
    var headers: Option<seq<MailHeaders.Field>>
    var requestData: Option<Bytes>
    var httpHeaders: HeaderMap

    ghost predicate Valid()
      reads this, rfile
    {
      rfile.Valid() && rawRequestLine == LineAt(rfile.buf, 0)
    }

    /** Encodes the text into the cursor and reads the request line. */
    constructor (text: Bytes, readsBody: bool)
      ensures Valid() && fresh(rfile)
      ensures rfile.buf == text && rfile.pos == |rawRequestLine|
      ensures this.readsBody == readsBody
      ensures errorCode == None && errorKind == None && requestLine == None
      ensures command == None && path == None && requestVersion == None
      ensures headers == None && requestData == None && httpHeaders == []
    {
      var fp := new LineCursor(text);
      var line := fp.ReadLine();
      rfile := fp;
      this.readsBody := readsBody;
      rawRequestLine := line;
      errorCode, errorKind := None, None;
      requestLine, command, path, requestVersion := None, None, None, None;
      headers, requestData, httpHeaders := None, None, [];
    }

    /** `send_error`: records the code and the message, raises nothing. */
    method SendError(kind: ErrorKind)
      modifies this
      ensures errorCode == Some(ErrorCode(kind)) && errorKind == Some(kind)
      ensures requestLine == old(requestLine) && command == old(command) && path == old(path)
      ensures requestVersion == old(requestVersion) && headers == old(headers)
      ensures requestData == old(requestData) && httpHeaders == old(httpHeaders)
    {
      errorCode := Some(ErrorCode(kind));
      errorKind := Some(kind);
    }

    /** `parse_headers`: the header block, then (for a request parser) the
        one body line; the header text skips the block's first line. */
    method ParseHeaders() returns (msg: seq<MailHeaders.Field>)
      requires Valid()
      modifies this, rfile
      ensures Valid()
      ensures msg == MailHeaders.Parse(RequestHeaderText(rfile.buf, old(rfile.pos)))
      ensures readsBody ==> requestData == Some(RequestBody(rfile.buf, old(rfile.pos)))
      ensures !readsBody ==> requestData == old(requestData)
      ensures errorCode == old(errorCode) && errorKind == old(errorKind)
      ensures requestLine == old(requestLine) && command == old(command) && path == old(path)
      ensures requestVersion == old(requestVersion) && headers == old(headers)
      ensures httpHeaders == old(httpHeaders)
    {
      var lines := ReadHeaderBlock(rfile);
      HeaderBlockSlice(rfile.buf, old(rfile.pos));
      if readsBody {
        var body := rfile.ReadLine();
        requestData := Some(body);
      }
      msg := MailHeaders.Parse(Concat(lines[1..]));
    }

    /** `parse_data`: judge the request line; on acceptance record command,
        path and version and parse the headers. */
    method ParseData() returns (ok: bool)
      requires Valid()
      modifies this, rfile
      ensures Valid()
      ensures ok <==> Classify(rawRequestLine).Accepted?
      ensures requestLine == Some(RStripCrLf(rawRequestLine))
      ensures httpHeaders == old(httpHeaders)
      ensures !ok ==> command == None && requestVersion == Some(DefaultRequestVersion)
      ensures !ok ==> path == old(path) && headers == old(headers) && requestData == old(requestData)
      ensures !ok ==> rfile.pos == old(rfile.pos)
      ensures Classify(rawRequestLine).Blank? ==> errorCode == old(errorCode) && errorKind == old(errorKind)
      ensures Classify(rawRequestLine).Rejected? ==>
        errorCode == Some(ErrorCode(Classify(rawRequestLine).error)) && errorKind == Some(Classify(rawRequestLine).error)
      ensures ok ==> var s := Classify(rawRequestLine);
        && command == Some(s.command) && path == Some(s.path) && requestVersion == Some(s.version)
        && errorCode == old(errorCode) && errorKind == old(errorKind)
        && headers == Some(MailHeaders.Parse(RequestHeaderText(rfile.buf, old(rfile.pos))))
        && (readsBody ==> requestData == Some(RequestBody(rfile.buf, old(rfile.pos))))
        && (!readsBody ==> requestData == old(requestData))
    {
      ok := JudgeRequestLine();
      if ok {
        var msg := ParseHeaders();
        headers := Some(msg);
      }
    }

    /** The request-line half of `parse_data`: the verdict on the line, the
        error it sends, and on acceptance command, path and version. */
    method JudgeRequestLine() returns (ok: bool)
      requires Valid()
      modifies this
      ensures Valid()
      ensures ok <==> Classify(rawRequestLine).Accepted?
      ensures requestLine == Some(RStripCrLf(rawRequestLine))
      ensures httpHeaders == old(httpHeaders) && headers == old(headers) && requestData == old(requestData)
      ensures !ok ==> command == None && requestVersion == Some(DefaultRequestVersion) && path == old(path)
      ensures Classify(rawRequestLine).Blank? ==> errorCode == old(errorCode) && errorKind == old(errorKind)
      ensures Classify(rawRequestLine).Rejected? ==>
        errorCode == Some(ErrorCode(Classify(rawRequestLine).error)) && errorKind == Some(Classify(rawRequestLine).error)
      ensures ok ==> var s := Classify(rawRequestLine);
        && command == Some(s.command) && path == Some(s.path) && requestVersion == Some(s.version)
        && errorCode == old(errorCode) && errorKind == old(errorKind)
    {
      command := None;
      requestVersion := Some(DefaultRequestVersion);
      var line := RStripCrLf(rawRequestLine);
      requestLine := Some(line);
      var words := Words(line);
      ghost var verdict := ClassifyWords(line, words);
      assert verdict == Classify(rawRequestLine);
      var cmd, target, version;
      if |words| == 3 {
        cmd, target, version := words[0], words[1], words[2];
        var rejection := VersionRejection(version);
        if rejection.Some? {
          SendError(rejection.value);
          return false;
        }
      } else if |words| == 2 {
        cmd, target := words[0], words[1];
        version := DefaultRequestVersion;
        if cmd != "GET" {
          SendError(BadSimpleRequestType(cmd));
          return false;
        }
      } else if words == [] {
        return false;
      } else {
        SendError(BadRequestSyntax(line));
        return false;
      }
      command, path, requestVersion := Some(cmd), Some(target), Some(version);
      return true;
    }

    /** `set_http_headers`: the header map of the parsed headers, or an
        empty map when no headers were parsed. */
    method SetHttpHeaders()
      modifies this
      ensures httpHeaders == if headers.Some? then Project(headers.value) else []
      ensures errorCode == old(errorCode) && errorKind == old(errorKind)
      ensures requestLine == old(requestLine) && command == old(command) && path == old(path)
      ensures requestVersion == old(requestVersion) && headers == old(headers)
      ensures requestData == old(requestData)
    {
      if headers.Some? {
        httpHeaders := CollectHeaders(headers.value);
      } else {
        httpHeaders := [];
      }
    }

    function GetErrorCode(): Option<nat>
      reads this
    {
      errorCode
    }

    function GetMethod(): Option<Bytes>
      reads this
    {
      command
    }

    function GetRequestVersion(): Option<Bytes>
      reads this
    {
      requestVersion
    }

    function GetUrl(): Option<Bytes>
      reads this
    {
      path
    }

    /** `get_request_data`; None is the AttributeError raised when no body
        line was read. */
    function GetRequestData(): Option<Bytes>
      reads this
    {
      requestData
    }

    function GetHeaders(): HeaderMap
      reads this
    {
      httpHeaders
    }

    /** `get_request` (and `__str__`): method, URL and version separated by
        single spaces. */
    function GetRequest(): Bytes
      reads this
    {
      FormatRequest(command, path, requestVersion)
    }
  }

  /** What a request parser yields once `parse_data` and `set_http_headers`
      have run on a request text. */
  datatype RequestView = RequestView(start: StartLine, headerMap: HeaderMap, body: Option<Bytes>)

  function ParseRequestText(text: Bytes): (v: RequestView)
    ensures v.start == Classify(LineAt(text, 0))
    ensures v.start.Accepted? <==> v.body.Some?
    ensures !v.start.Accepted? ==> v.headerMap == []
  {
    var raw := LineAt(text, 0);
    var start := Classify(raw);
    if start.Accepted? then
      RequestView(start, Project(MailHeaders.Parse(RequestHeaderText(text, |raw|))),
                  Some(RequestBody(text, |raw|)))
    else RequestView(start, [], None)
  }

  /** Runs a request parser (one that reads a body line) over `text`:
      `parse_data`, then `set_http_headers`. What it then holds is the view
      of the text: method, URL and version on acceptance, the error kind on
      rejection, neither for a blank line, and the header map and body. */
  method RunRequestParser(text: Bytes) returns (v: RequestView)
    ensures v == ParseRequestText(text)
  {
    var request := new RequestParser(text, true);
    var _ := request.ParseData();
    request.SetHttpHeaders();
    var start;
    if request.command.Some? {
      start := Accepted(request.command.value, request.path.value, request.requestVersion.value);
    } else if request.errorKind.Some? {
      start := Rejected(request.errorKind.value);
    } else {
      start := Blank;
    }
    v := RequestView(start, request.GetHeaders(), request.GetRequestData());
  }

  /** `HTTPResponseParser` over one response text. */
  class ResponseParser {
    const rfile: LineCursor
    const binaryData: bool
    const rawRequestLine: Bytes
    var errorCode: Option<nat>
    var statusLine: Option<Bytes>
    var version: Option<Bytes>
    var statusCode: Option<Bytes>
    var reason: Option<Bytes>
    var headers: Option<seq<MailHeaders.Field>>
    var bodyData: seq<Bytes>
    var responseData: Option<Bytes>
    var httpHeaders: HeaderMap

    ghost predicate Valid()
      reads this, rfile
    {
      rfile.Valid() && rawRequestLine == LineAt(rfile.buf, 0)
    }

    constructor (text: Bytes, binaryData: bool)
      ensures Valid() && fresh(rfile)
      ensures rfile.buf == text && rfile.pos == |rawRequestLine|
      ensures this.binaryData == binaryData
      ensures errorCode == None && statusLine == None
      ensures version == None && statusCode == None && reason == None
      ensures headers == None && bodyData == [] && responseData == None && httpHeaders == []
    {
      var fp := new LineCursor(text);
      var line := fp.ReadLine();
      rfile := fp;
      this.binaryData := binaryData;
      rawRequestLine := line;
      errorCode, statusLine := None, None;
      version, statusCode, reason := None, None, None;
      headers, bodyData, responseData, httpHeaders := None, [], None, [];
    }

    /** `parse_headers`: the header block (all of it), then every non-blank
        line to the end as the body, base64-encoded in binary mode. */
    method ParseHeaders() returns (msg: seq<MailHeaders.Field>)
      requires Valid()
      modifies this, rfile
      ensures Valid()
      ensures msg == MailHeaders.Parse(Concat(HeaderBlock(rfile.buf, old(rfile.pos))))
      ensures bodyData == BodyLines(rfile.buf, HeaderBlockEnd(rfile.buf, old(rfile.pos)))
      ensures responseData == Some(StoredBody(Concat(bodyData), binaryData))
      ensures errorCode == old(errorCode) && statusLine == old(statusLine)
      ensures version == old(version) && statusCode == old(statusCode) && reason == old(reason)
      ensures headers == old(headers) && httpHeaders == old(httpHeaders)
    {
      var lines := ReadHeaderBlock(rfile);
      bodyData := ReadBodyLines(rfile);
      if binaryData {
        responseData := Some(Base64.Encode(Concat(bodyData)));
      } else {
        responseData := Some(Concat(bodyData));
      }
      assert responseData == Some(StoredBody(Concat(bodyData), binaryData));
      msg := MailHeaders.Parse(Concat(lines));
    }

    /** `parse_data`: split a status line of three or more words into
        version, status and reason, then parse headers and body. */
    method ParseData() returns (ok: bool)
      requires Valid()
      modifies this, rfile
      ensures Valid() && ok
      ensures statusLine == Some(rawRequestLine)
      ensures var words := Words(rawRequestLine);
        if |words| >= 3 then
          version == Some(words[0]) && statusCode == Some(words[1]) && reason == Some(JoinWith(words[2..], [SP]))
        else
          version == old(version) && statusCode == old(statusCode) && reason == old(reason)
      ensures headers == Some(MailHeaders.Parse(Concat(HeaderBlock(rfile.buf, old(rfile.pos)))))
      ensures bodyData == BodyLines(rfile.buf, HeaderBlockEnd(rfile.buf, old(rfile.pos)))
      ensures responseData == Some(StoredBody(Concat(bodyData), binaryData))
      ensures errorCode == old(errorCode) && httpHeaders == old(httpHeaders)
    {
      SplitStatusLine();
      var msg := ParseHeaders();
      headers := Some(msg);
      return true;
    }

    /** The status-line half of `parse_data`. */
    method SplitStatusLine()
      modifies this
      ensures statusLine == Some(rawRequestLine)
      ensures var words := Words(rawRequestLine);
        if |words| >= 3 then
          version == Some(words[0]) && statusCode == Some(words[1]) && reason == Some(JoinWith(words[2..], [SP]))
        else
          version == old(version) && statusCode == old(statusCode) && reason == old(reason)
      ensures errorCode == old(errorCode) && headers == old(headers) && httpHeaders == old(httpHeaders)
      ensures bodyData == old(bodyData) && responseData == old(responseData)
    {
      statusLine := Some(rawRequestLine);
      var words := Words(rawRequestLine);
      if |words| >= 3 {
        version := Some(words[0]);
        statusCode := Some(words[1]);
        reason := Some(JoinWith(words[2..], [SP]));
      }
    }

    method SetHttpHeaders()
      modifies this
      ensures httpHeaders == if headers.Some? then Project(headers.value) else []
      ensures errorCode == old(errorCode) && statusLine == old(statusLine)
      ensures version == old(version) && statusCode == old(statusCode) && reason == old(reason)
      ensures headers == old(headers) && bodyData == old(bodyData) && responseData == old(responseData)
    {
      if headers.Some? {
        httpHeaders := CollectHeaders(headers.value);
      } else {
        httpHeaders := [];
      }
    }

    /** `get_status`: the status word, '' when the status line was short. */
    function GetStatus(): Bytes
      reads this
    {
      if statusCode.Some? then statusCode.value else []
    }

    function GetReason(): Bytes
      reads this
    {
      if reason.Some? then reason.value else []
    }

    function GetResponseVersion(): Bytes
      reads this
    {
      if version.Some? then version.value else []
    }

    /** `get_response_data`; None is the AttributeError raised before
        `parse_data`. */
    function GetResponseData(): Option<Bytes>
      reads this
    {
      responseData
    }

    function GetHeaders(): HeaderMap
      reads this
    {
      httpHeaders
    }
  }

  /** The response data as `parse_headers` stores it: base64 text in
      binary mode, the bytes themselves otherwise. */
  function StoredBody(body: Bytes, binary: bool): Bytes {
    if binary then Base64.Encode(body) else body
  }

  /** What a response parser yields once `parse_data` and
      `set_http_headers` have run on a response text. */
  datatype ResponseView = ResponseView(version: Bytes, status: Bytes, reason: Bytes, headerMap: HeaderMap, data: Bytes)

  /** The response body: the in-order concatenation of the non-blank lines
      after the header block. */
  function ResponseBody(text: Bytes): Bytes {
    var p := |LineAt(text, 0)|;
    Concat(BodyLines(text, HeaderBlockEnd(text, p)))
  }

  function ParseResponseText(text: Bytes, binary: bool): ResponseView {
    var raw := LineAt(text, 0);
    var words := Words(raw);
    var body := ResponseBody(text);
    ResponseView(
      if |words| >= 3 then words[0] else [],
      if |words| >= 3 then words[1] else [],
      if |words| >= 3 then JoinWith(words[2..], [SP]) else [],
      Project(MailHeaders.Parse(Concat(HeaderBlock(text, |raw|)))),
      StoredBody(body, binary))
  }

  /** The two halves of a merged capture. */
  datatype Traffic = Traffic(request: Bytes, response: Bytes)

  /** Where the request part of a merged capture ends: after the header
      block and the run of non-blank lines that follows it. */
  function RequestEnd(text: Bytes): nat {
    NonBlankRunEnd(text, HeaderBlockEnd(text, 0))
  }

  /** The blank line (or '') that ends the request part; it belongs to
      neither half. */
  function Separator(text: Bytes): Bytes {
    LineAt(text, RequestEnd(text))
  }

  /** `split_http_traffic` on a present text. */
  function Split(text: Bytes): (t: Traffic) {
    var e := HeaderBlockEnd(text, 0);
    Traffic(Concat(HeaderBlock(text, 0)) + Concat(NonBlankRun(text, e)),
            text[RequestEnd(text) + |Separator(text)|..])
  }

  /** `split_http_traffic`: None in, None out; otherwise three line loops
      over the text: the header block, the non-blank lines after it (the
      blank line that stops them is dropped), and the rest. */
  method SplitHttpTraffic(text: Option<Bytes>) returns (r: Option<Traffic>)
    ensures text.None? ==> r.None?
    ensures text.Some? ==> r == Some(Split(text.value))
  {
    if text.None? {
      return None;
    }
    var fp := new LineCursor(text.value);
    var requestData := ReadHeaderBlock(fp);
    var run, sep := ReadNonBlankRun(fp);
    requestData := requestData + run;
    var responseData := ReadRest(fp);
    ConcatSplit(HeaderBlock(fp.buf, 0), run);
    return Some(Traffic(Concat(requestData), Concat(responseData)));
  }
}
