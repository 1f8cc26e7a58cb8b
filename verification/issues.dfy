/** The part of an AppVulnXML issue element the driver reads and writes,
    held as a value: the `RawTraffic` element with its traffic children, the
    `RawData` element with `RawRequest` and `RawResponse`, and the
    `TestProbe/HTTP/Request` and `TestProbe/HTTP/Response` elements with
    their attributes and the children of their `Parsed` elements. An
    element's text is None when the element has no text at all. */
module Issues {
  import opened Bytes
  import opened HttpHeaders

  /** The Python exceptions that escape the driver. */
  datatype Failure =
    | TypeError          // a None text or attribute, or a list handed to lxml
    | IndexError         // a child the driver indexes with `[0]` is missing
    | ValueError         // `base64.b64decode` refuses its input (binascii.Error)
    | UnicodeDecodeError // strict UTF-8 decoding of decoded base64

  datatype Outcome = Done | Raised(failure: Failure)

  datatype TrafficTag = RequestTraffic | ResponseTraffic | MergedTraffic | OtherTraffic

  /** A child of `RawTraffic`: its tag, its text and its `base64` attribute. */
  datatype TrafficNode = TrafficNode(tag: TrafficTag, text: Option<Bytes>, base64: Option<Bytes>)

  datatype RawTraffic = RawTraffic(text: Option<Bytes>, children: seq<TrafficNode>)

  /** `RawRequest` or `RawResponse` inside `RawData`. */
  datatype RawPart = RawPart(text: Option<Bytes>)

  datatype RawData = RawData(rawRequest: Option<RawPart>, rawResponse: Option<RawPart>)

  /** A child the driver appends to a `Parsed` element. */
  datatype ParsedChild =
    | Header(name: Bytes, value: Bytes)
    | Data(text: Bytes, base64: Option<Bytes>)

  /** `Request` or `Response`: its attributes and its `Parsed` children. */
  datatype MessageNode = MessageNode(attrs: map<Bytes, Bytes>, parsed: seq<ParsedChild>)

  datatype Issue = Issue(
    rawTraffic: Option<RawTraffic>,
    rawData: Option<RawData>,
    request: MessageNode,
    response: MessageNode)

  const TrueFlag: Bytes := "true"
  const FalseFlag: Bytes := "false"

  /** `'base64' in node.attrib and node.attrib['base64'] == 'true'` */
  predicate FlaggedBase64(n: TrafficNode) {
    n.base64 == Some(TrueFlag)
  }

  /** The first child with the given tag, as `xpath(...)[0]` picks it. */
  function FirstWith(c: seq<TrafficNode>, tag: TrafficTag): (r: Option<nat>)
    ensures r.Some? ==> r.value < |c| && c[r.value].tag == tag
    ensures r.Some? ==> forall j :: 0 <= j < r.value ==> c[j].tag != tag
    ensures r.None? ==> forall j :: 0 <= j < |c| ==> c[j].tag != tag
  {
    if c == [] then None
    else if c[0].tag == tag then Some(0)
    else
      match FirstWith(c[1..], tag)
      case None => None
      case Some(i) => Some(i + 1)
  }

  /** `parent.remove(child)` */
  function RemoveAt<T>(s: seq<T>, i: nat): (r: seq<T>)
    requires i < |s|
    ensures |r| == |s| - 1
    ensures forall j :: 0 <= j < i ==> r[j] == s[j]
    ensures forall j :: i <= j < |r| ==> r[j] == s[j + 1]
  {
    s[..i] + s[i + 1..]
  }

  /** Removing a child before an appended run leaves the run in place. */
  lemma RemoveAtAppend<T>(s: seq<T>, i: nat, t: seq<T>)
    requires i < |s|
    ensures RemoveAt(s + t, i) == RemoveAt(s, i) + t
  {
    assert (s + t)[..i] == s[..i];
    assert (s + t)[i + 1..] == s[i + 1..] + t;
  }

  /** `parent.append(child)` for a child already in `parent`: lxml moves it
      to the end. */
  function MoveToEnd<T>(s: seq<T>, i: nat): (r: seq<T>)
    requires i < |s|
    ensures |r| == |s| && r[|r| - 1] == s[i]
  {
    RemoveAt(s, i) + [s[i]]
  }

  /** Moving a child to the end keeps the other children in their order. */
  lemma MoveToEndOrder<T>(s: seq<T>, i: nat)
    requires i < |s|
    ensures var r := MoveToEnd(s, i); r[..|r| - 1] == s[..i] + s[i + 1..]
  {
    var r := MoveToEnd(s, i);
    assert r[..|r| - 1] == RemoveAt(s, i);
  }

  /** The `Header` children for the values of one name, appended one by one;
      a list value (several values of a repeated name) makes lxml raise
      TypeError, after the children before it were appended. */
  function AppendValues(parsed: seq<ParsedChild>, name: Bytes, vs: seq<HeaderValue>): (Outcome, seq<ParsedChild>)
    decreases vs
  {
    if vs == [] then (Done, parsed)
    else
      match vs[0]
      case Several(_) => (Raised(TypeError), parsed)
      case Single(t) => AppendValues(parsed + [Header(name, t)], name, vs[1..])
  }

  /** The `Header` children for a whole header map, name by name in map
      order. */
  function AppendHeaders(parsed: seq<ParsedChild>, m: HeaderMap): (Outcome, seq<ParsedChild>)
    decreases m
  {
    if m == [] then (Done, parsed)
    else
      var (o, p) := AppendValues(parsed, m[0].name, m[0].values);
      if o.Raised? then (o, p) else AppendHeaders(p, m[1..])
  }

  /** Every stored value is a single text. */
  predicate AllSingle(m: HeaderMap) {
    forall i, j :: 0 <= i < |m| && 0 <= j < |m[i].values| ==> m[i].values[j].Single?
  }

  /** One `Header(name, value)` per stored value, in map order. */
  function HeaderNodes(m: HeaderMap): seq<ParsedChild>
    requires AllSingle(m)
  {
    if m == [] then []
    else
      assert forall i, j :: 0 <= i < |m[1..]| && 0 <= j < |m[1..][i].values| ==> m[1..][i].values[j] == m[i + 1].values[j];
      ValueNodes(m[0].name, m[0].values) + HeaderNodes(m[1..])
  }

  function ValueNodes(name: Bytes, vs: seq<HeaderValue>): (r: seq<ParsedChild>)
    requires forall j :: 0 <= j < |vs| ==> vs[j].Single?
    ensures |r| == |vs|
    ensures forall j :: 0 <= j < |vs| ==> r[j] == Header(name, vs[j].text)
  {
    if vs == [] then [] else [Header(name, vs[0].text)] + ValueNodes(name, vs[1..])
  }
}
