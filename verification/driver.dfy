/** What the AppVulnXML driver does to one issue, as functions from the issue
    before to the outcome and the issue after: `extract_traffic` (normalise
    the traffic children of `RawTraffic`), `add_request_data` and
    `add_response_data` (run a parser and append `Header` and `Data`
    children), the per-issue body of `add_data`, and the per-issue body of
    `convert_base64_to_plain`. An exception leaves the changes made before
    it in place, so every function returns the issue as it stands when the
    outcome is decided. */
module Driver {
  import opened Bytes
  import Base64
  import Utf8
  import BytesRepr
  import opened HttpHeaders
  import opened HttpParser
  import opened Issues

  /** Below this many decoded bytes a raw response is shown as its bytes
      representation; from it on the base64 text is kept. */
  const ReprLimit: nat := 10000

  const MethodAttr: Bytes := "method"
  const VersionAttr: Bytes := "version"
  const StatusAttr: Bytes := "status"
  const ReasonAttr: Bytes := "reason"
  /** `str(True)` and `str(False)`, the `base64` attribute of a response
      `Data` child. */
  const PyTrue: Bytes := "True"
  const PyFalse: Bytes := "False"

  /** A fresh traffic child as `extract_traffic` makes it: flagged
      `base64="false"`. */
  function NewTraffic(tag: TrafficTag, text: Bytes): TrafficNode {
    TrafficNode(tag, Some(text), Some(FalseFlag))
  }

  /** `HTTPParser.split_http_traffic` on an element text (None when the
      element has none). */
  function SplitOf(text: Option<Bytes>): Option<Traffic> {
    if text.None? then None else Some(Split(text.value))
  }

  /** The issue with new `RawTraffic` children. */
  function WithChildren(issue: Issue, c: seq<TrafficNode>): Issue
    requires issue.rawTraffic.Some?
  {
    issue.(rawTraffic := Some(issue.rawTraffic.value.(children := c)))
  }

  /** The request and response nodes attached for a split. */
  function Added(t: Traffic): seq<TrafficNode> {
    [NewTraffic(RequestTraffic, t.request), NewTraffic(ResponseTraffic, t.response)]
  }

  /** The MergedTraffic step of `extract_traffic`: split the first
      MergedTraffic child; on success append the request and response nodes;
      then remove that MergedTraffic child. Also says whether the new nodes
      were attached. */
  function MergeStep(c: seq<TrafficNode>): (r: (seq<TrafficNode>, bool))
    ensures FirstWith(c, MergedTraffic).None? ==> r == (c, false)
    ensures r.1 ==> |r.0| == |c| + 1 && FirstWith(c, MergedTraffic).Some?
  {
    match FirstWith(c, MergedTraffic)
    case None => (c, false)
    case Some(m) =>
      var split := SplitOf(c[m].text);
      var grown := if split.Some? then c + Added(split.value) else c;
      (RemoveAt(grown, m), split.Some?)
  }

  /** The merge step removes the first MergedTraffic child and keeps the
      others in order; the split halves come last exactly when that child
      has text. */
  lemma MergeStepResult(c: seq<TrafficNode>)
    ensures FirstWith(c, MergedTraffic).Some? ==> var m := FirstWith(c, MergedTraffic).value;
      && (c[m].text.Some? ==> MergeStep(c) == (RemoveAt(c, m) + Added(Split(c[m].text.value)), true))
      && (c[m].text.None? ==> MergeStep(c) == (RemoveAt(c, m), false))
  {
    if FirstWith(c, MergedTraffic).Some? {
      var m := FirstWith(c, MergedTraffic).value;
      if c[m].text.Some? {
        RemoveAtAppend(c, m, Added(Split(c[m].text.value)));
      }
    }
  }

  /** Where child `i` of `c` stands once the first MergedTraffic child is
      removed. */
  function AfterMerge(c: seq<TrafficNode>, i: nat): nat {
    match FirstWith(c, MergedTraffic)
    case None => i
    case Some(m) => if m < i then i - 1 else i
  }

  lemma AfterMergeIndex(c: seq<TrafficNode>, i: nat)
    requires i < |c| && c[i].tag != MergedTraffic
    ensures AfterMerge(c, i) < |MergeStep(c).0|
    ensures MergeStep(c).0[AfterMerge(c, i)] == c[i]
  {
  }

  /** `extract_traffic` on one issue. */
  function ExtractTrafficOf(issue: Issue): (r: (Outcome, Issue))
    ensures r.1.rawTraffic.Some? == issue.rawTraffic.Some?
    ensures r.1.rawData == issue.rawData && r.1.request == issue.request && r.1.response == issue.response
    ensures r.0 == Done ==> issue.rawTraffic.Some?
    ensures issue.rawTraffic.Some? ==> r.1.rawTraffic.value.text == issue.rawTraffic.value.text
  {
    if issue.rawTraffic.None? then (Raised(IndexError), issue)
    else
      var c0 := issue.rawTraffic.value.children;
      var (c1, attached) := MergeStep(c0);
      match FirstWith(c0, RequestTraffic)
      case None =>
        // The new nodes are appended; when the split already attached them
        // they are the last two children, and appending moves each in turn
        // to the end: first the request node, then the response node, which
        // the first move left second to last.
        var c2 :=
          if attached then MoveToEnd(MoveToEnd(c1, |c1| - 2), |c1| - 2)
          else c1 + [NewTraffic(RequestTraffic, []), NewTraffic(ResponseTraffic, [])];
        (Done, WithChildren(issue, c2))
      case Some(i) =>
        var node := c0[i];
        if node.text.None? then (Raised(TypeError), WithChildren(issue, c1))
        else if |node.text.value| > 0 && FlaggedBase64(node) then
          match Base64.Decode(node.text.value)
          case None => (Raised(ValueError), WithChildren(issue, c1))
          case Some(b) =>
            match Utf8.Decode(b)
            case None => (Raised(UnicodeDecodeError), WithChildren(issue, c1))
            case Some(t) =>
              AfterMergeIndex(c0, i);
              (Done, WithChildren(issue, RemoveAt(c1, AfterMerge(c0, i)) + [NewTraffic(RequestTraffic, t)]))
        else (Done, WithChildren(issue, c1))
  }

  /** The children `extract_traffic` leaves when there is no RequestTraffic
      child, as a function of `MergeStep`. */
  function Appended(c1: seq<TrafficNode>, attached: bool): seq<TrafficNode>
    requires attached ==> |c1| >= 2
  {
    if attached then MoveToEnd(MoveToEnd(c1, |c1| - 2), |c1| - 2)
    else c1 + [NewTraffic(RequestTraffic, []), NewTraffic(ResponseTraffic, [])]
  }

  lemma ExtractAppends(issue: Issue)
    requires issue.rawTraffic.Some?
    requires FirstWith(issue.rawTraffic.value.children, RequestTraffic).None?
    ensures var (c1, attached) := MergeStep(issue.rawTraffic.value.children);
      ExtractTrafficOf(issue) == (Done, WithChildren(issue, Appended(c1, attached)))
  {
  }

  /** `add_request_data`: parse the text as a request, then record it. */
  function AddRequestDataOf(issue: Issue, text: Bytes): (Outcome, Issue) {
    RecordRequest(issue, ParseRequestText(text))
  }

  /** What `add_request_data` writes for a parsed request: method and
      version on `Request`, a `Header` child per stored header value and a
      final `Data` child holding the request body. A refused or blank start
      line leaves the method None, which lxml refuses (TypeError). */
  function RecordRequest(issue: Issue, v: RequestView): (Outcome, Issue)
    requires v.start.Accepted? ==> v.body.Some?
  {
    if !v.start.Accepted? then (Raised(TypeError), issue)
    else
      var attrs := issue.request.attrs[MethodAttr := v.start.command][VersionAttr := v.start.version];
      var (o, parsed) := AppendHeaders(issue.request.parsed, v.headerMap);
      var parsed' := if o.Raised? then parsed else parsed + [Data(v.body.value, None)];
      (o, issue.(request := MessageNode(attrs, parsed')))
  }

  /** `add_response_data`: parse the text as a response, then record it. */
  function AddResponseDataOf(issue: Issue, text: Bytes, binary: bool): (Outcome, Issue) {
    RecordResponse(issue, ParseResponseText(text, binary), binary)
  }

  /** What `add_response_data` writes for a parsed response: version,
      status and reason on `Response`, a `Header` child per stored header
      value and a final `Data` child holding the body, flagged with
      `str(binary_data)`. */
  function RecordResponse(issue: Issue, v: ResponseView, binary: bool): (Outcome, Issue) {
    var attrs := issue.response.attrs[VersionAttr := v.version][StatusAttr := v.status][ReasonAttr := v.reason];
    var (o, parsed) := AppendHeaders(issue.response.parsed, v.headerMap);
    var parsed' :=
      if o.Raised? then parsed
      else parsed + [Data(v.data, Some(if binary then PyTrue else PyFalse))];
    (o, issue.(response := MessageNode(attrs, parsed')))
  }

  /** The request half of `add_data`'s loop body: an empty side is skipped,
      a base64-flagged one is decoded with undecodable UTF-8 dropped. */
  function AddRequestSide(issue: Issue, node: TrafficNode): (Outcome, Issue) {
    if node.text.None? || node.text.value == [] then (Done, issue)
    else if FlaggedBase64(node) then
      match Base64.Decode(node.text.value)
      case None => (Raised(ValueError), issue)
      case Some(b) => AddRequestDataOf(issue, Utf8.DecodeLenient(b))
    else AddRequestDataOf(issue, node.text.value)
  }

  /** The response half: as the request half, and a decoded response is
      parsed in binary mode. */
  function AddResponseSide(issue: Issue, node: TrafficNode): (Outcome, Issue) {
    if node.text.None? || node.text.value == [] then (Done, issue)
    else if FlaggedBase64(node) then
      match Base64.Decode(node.text.value)
      case None => (Raised(ValueError), issue)
      case Some(b) => AddResponseDataOf(issue, Utf8.DecodeLenient(b), true)
    else AddResponseDataOf(issue, node.text.value, false)
  }

  /** `add_data`'s loop body for one issue: extract the traffic, take the
      first RequestTraffic and first ResponseTraffic child, add the request
      side, then the response side. */
  function AddDataOf(issue: Issue): (Outcome, Issue) {
    var (o, x) := ExtractTrafficOf(issue);
    if o.Raised? then (o, x)
    else
      var c := x.rawTraffic.value.children;
      match FirstWith(c, RequestTraffic)
      case None => (Raised(IndexError), x)
      case Some(i) =>
        match FirstWith(c, ResponseTraffic)
        case None => (Raised(IndexError), x)
        case Some(j) =>
          var (o1, y) := AddRequestSide(x, c[i]);
          if o1.Raised? then (o1, y) else AddResponseSide(y, c[j])
  }

  /** The text a raw part becomes, or why it cannot be converted. */
  datatype Converted = Converted(text: Bytes) | Refused(failure: Failure)

  /** `RawRequest`: base64-decoded, then strictly UTF-8 decoded. */
  function ConvertRequestText(text: Option<Bytes>): Converted {
    if text.None? then Refused(TypeError)
    else
      match Base64.Decode(text.value)
      case None => Refused(ValueError)
      case Some(b) =>
        match Utf8.Decode(b)
        case None => Refused(UnicodeDecodeError)
        case Some(t) => Converted(t)
  }

  /** `RawResponse`: base64-decoded; short bodies become their bytes
      representation, long ones keep the base64 text. */
  function ConvertResponseText(text: Option<Bytes>): Converted {
    if text.None? then Refused(TypeError)
    else
      match Base64.Decode(text.value)
      case None => Refused(ValueError)
      case Some(b) => Converted(if |b| < ReprLimit then BytesRepr.Repr(b) else text.value)
  }

  /** `str(text)` of an element text. */
  function TextStr(text: Option<Bytes>): Bytes {
    if text.Some? then text.value else "None"
  }

  /** `convert_base64_to_plain`'s loop body for one issue: convert
      `RawRequest`, then `RawResponse`, write their concatenation into
      `RawTraffic`, and remove `RawData`. A missing `RawRequest`,
      `RawResponse` or `RawTraffic` is an IndexError at the merge. */
  function ConvertOf(issue: Issue): (Outcome, Issue) {
    var rd := issue.rawData;
    var (o1, x1) :=
      if rd.Some? && rd.value.rawRequest.Some? then
        match ConvertRequestText(rd.value.rawRequest.value.text)
        case Refused(f) => (Raised(f), issue)
        case Converted(t) => (Done, issue.(rawData := Some(rd.value.(rawRequest := Some(RawPart(Some(t)))))))
      else (Done, issue);
    if o1.Raised? then (o1, x1)
    else
      var rd1 := x1.rawData;
      var (o2, x2) :=
        if rd1.Some? && rd1.value.rawResponse.Some? then
          match ConvertResponseText(rd1.value.rawResponse.value.text)
          case Refused(f) => (Raised(f), x1)
          case Converted(t) => (Done, x1.(rawData := Some(rd1.value.(rawResponse := Some(RawPart(Some(t)))))))
        else (Done, x1);
      if o2.Raised? then (o2, x2)
      else if x2.rawData.None? || x2.rawData.value.rawRequest.None? || x2.rawData.value.rawResponse.None? then
        (Raised(IndexError), x2)
      else
        var requestText := x2.rawData.value.rawRequest.value.text;
        var responseText := x2.rawData.value.rawResponse.value.text;
        if requestText.None? then (Raised(TypeError), x2)
        else if x2.rawTraffic.None? then (Raised(IndexError), x2)
        else
          var merged := requestText.value + TextStr(responseText);
          (Done, x2.(rawTraffic := Some(x2.rawTraffic.value.(text := Some(merged))), rawData := None))
  }

  /** A loop over the issues that applies `f` to each in list order and
      stops at the first exception. */
  function ForEach(f: Issue -> (Outcome, Issue), issues: seq<Issue>): (r: (Outcome, seq<Issue>))
    ensures |r.1| == |issues|
  {
    if issues == [] then (Done, [])
    else
      var (o, first) := f(issues[0]);
      if o.Raised? then (o, [first] + issues[1..])
      else
        var (o', rest) := ForEach(f, issues[1..]);
        (o', [first] + rest)
  }

  /** What `__next__` returns. */
  datatype Step = Yielded(issue: Issue) | StopIteration | IndexOutOfRange

  /** `__next__` at position `index`: the step and the new index. */
  function NextOf(issues: seq<Issue>, index: nat): (Step, nat) {
    if index >= |issues| then (IndexOutOfRange, index)
    else if index + 1 < |issues| then (Yielded(issues[index]), index + 1)
    else (StopIteration, index)
  }
}
