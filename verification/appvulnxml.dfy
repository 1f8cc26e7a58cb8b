/** `AppVulnXMLParser`: the list of issues of a report, a hand-written
    iterator over it, and the passes that rewrite each issue in place
    (`extract_traffic`, `add_request_data`, `add_response_data`, `add_data`,
    `convert_base64_to_plain`). Each method changes the issue it works on
    step by step and is proved to leave exactly the issue the matching
    function of `Driver` describes. */
module AppVulnXml {
  import opened Bytes
  import Base64
  import Utf8
  import BytesRepr
  import opened HttpHeaders
  import opened HttpParser
  import opened Issues
  import opened Driver

  /** The `Header` loops of `add_request_data` and `add_response_data`:
      for each name in map order, for each stored value, append
      `Header(name, value)`; a list value stops the loops with TypeError. */
  method AppendHeaderNodes(parsed0: seq<ParsedChild>, headers: HeaderMap) returns (o: Outcome, parsed: seq<ParsedChild>)
    ensures (o, parsed) == AppendHeaders(parsed0, headers)
  {
    parsed := parsed0;
    var i := 0;
    while i < |headers|
      invariant 0 <= i <= |headers|
      invariant AppendHeaders(parsed0, headers) == AppendHeaders(parsed, headers[i..])
    {
      var name := headers[i].name;
      var values := headers[i].values;
      ghost var before := parsed;
      assert headers[i..][0] == headers[i] && headers[i..][1..] == headers[i + 1..];
      var j := 0;
      while j < |values|
        invariant 0 <= j <= |values|
        invariant AppendValues(before, name, values) == AppendValues(parsed, name, values[j..])
      {
        assert values[j..][1..] == values[j + 1..];
        match values[j]
        case Several(_) =>
          return Raised(TypeError), parsed;
        case Single(t) =>
          parsed := parsed + [Header(name, t)];
        j := j + 1;
      }
      assert values[j..] == [];
      i := i + 1;
    }
    o := Done;
  }

  /** One turn of `ForEach`'s loop. */
  lemma ForEachStep(f: Issue -> (Outcome, Issue), issues: seq<Issue>)
    requires issues != []
    ensures f(issues[0]).0.Raised? ==> ForEach(f, issues) == (f(issues[0]).0, [f(issues[0]).1] + issues[1..])
    ensures !f(issues[0]).0.Raised? ==> ForEach(f, issues).0 == ForEach(f, issues[1..]).0
    ensures !f(issues[0]).0.Raised? ==> ForEach(f, issues).1 == [f(issues[0]).1] + ForEach(f, issues[1..]).1
  {
  }

  /** The loop invariant of `AddData` and `ConvertBase64ToPlain`, carried
      over the issue at `i`: `before` is the list as the turn finds it,
      `after` as the turn leaves it. */
  lemma ForEachAdvance(f: Issue -> (Outcome, Issue), all: seq<Issue>, before: seq<Issue>, after: seq<Issue>, i: nat)
    requires i < |before| == |after|
    requires ForEach(f, all).0 == ForEach(f, before[i..]).0
    requires ForEach(f, all).1 == before[..i] + ForEach(f, before[i..]).1
    requires after[i] == f(before[i]).1
    requires forall j :: 0 <= j < |after| && j != i ==> after[j] == before[j]
    ensures f(before[i]).0.Raised? ==> ForEach(f, all) == (f(before[i]).0, after)
    ensures !f(before[i]).0.Raised? ==> ForEach(f, all).0 == ForEach(f, after[i + 1..]).0
    ensures !f(before[i]).0.Raised? ==> ForEach(f, all).1 == after[..i + 1] + ForEach(f, after[i + 1..]).1
  {
    var rest := before[i..];
    assert rest[0] == before[i];
    assert rest[1..] == before[i + 1..] == after[i + 1..];
    assert before[..i] == after[..i];
    assert after[..i + 1] == after[..i] + [after[i]];
    ForEachStep(f, rest);
    if f(before[i]).0.Raised? {
      assert after == after[..i] + ([after[i]] + after[i + 1..]);
    } else {
      assert after[..i + 1] + ForEach(f, after[i + 1..]).1 == after[..i] + ([after[i]] + ForEach(f, after[i + 1..]).1);
    }
  }

  /** The loop invariant of `AddData` and `ConvertBase64ToPlain` once every
      issue is processed. */
  lemma ForEachFinish(f: Issue -> (Outcome, Issue), all: seq<Issue>, done: seq<Issue>)
    requires ForEach(f, all).0 == ForEach(f, done[|done|..]).0
    requires ForEach(f, all).1 == done[..|done|] + ForEach(f, done[|done|..]).1
    ensures ForEach(f, all) == (Done, done)
  {
    assert done[|done|..] == [] && done[..|done|] == done;
    assert ForEach(f, []) == (Done, []);
    var r := ForEach(f, all);
    assert r.0 == Done && r.1 == done;
  }

  /** The MergedTraffic part of `extract_traffic`: split the first
      MergedTraffic child, append the request and response nodes when the
      split succeeds, and remove that child. */
  method SplitMerged(c0: seq<TrafficNode>) returns (children: seq<TrafficNode>, attached: bool)
    ensures (children, attached) == MergeStep(c0)
  {
    children := c0;
    attached := false;
    var rawMerged := FirstWith(children, MergedTraffic);
    if rawMerged.Some? {
      var requestNode := NewTraffic(RequestTraffic, []);
      var responseNode := NewTraffic(ResponseTraffic, []);
      var httpData := SplitHttpTraffic(children[rawMerged.value].text);
      assert httpData == SplitOf(c0[rawMerged.value].text);
      if httpData.Some? {
        requestNode := requestNode.(text := Some(httpData.value.request));
        children := children + [requestNode];
        responseNode := responseNode.(text := Some(httpData.value.response));
        children := children + [responseNode];
        attached := true;
        assert children == c0 + [NewTraffic(RequestTraffic, httpData.value.request), NewTraffic(ResponseTraffic, httpData.value.response)];
      }
      children := RemoveAt(children, rawMerged.value);
    }
  }

  /** The body of `extract_traffic` on one issue: the MergedTraffic step,
      then either the RequestTraffic check or the appended nodes. The issue
      returned is the issue as it stands when the outcome is decided. */
  method ExtractIssue(issue: Issue) returns (o: Outcome, after: Issue)
    ensures (o, after) == ExtractTrafficOf(issue)
  {
    if issue.rawTraffic.None? {
      return Raised(IndexError), issue;
    }
    var c0 := issue.rawTraffic.value.children;
    var rawRequest := FirstWith(c0, RequestTraffic);
    var children, attached := SplitMerged(c0);
    if rawRequest.Some? {
      o, after := CheckRequest(issue, children, rawRequest.value);
    } else {
      o, after := AppendTraffic(issue, children, attached);
    }
  }

  /** Without a RequestTraffic child `extract_traffic` appends the request
      and response nodes; when the MergedTraffic step already attached
      them, appending moves each in turn to the end. */
  method AppendTraffic(issue: Issue, children: seq<TrafficNode>, attached: bool) returns (o: Outcome, after: Issue)
    requires issue.rawTraffic.Some?
    requires (children, attached) == MergeStep(issue.rawTraffic.value.children)
    requires FirstWith(issue.rawTraffic.value.children, RequestTraffic).None?
    ensures (o, after) == ExtractTrafficOf(issue)
  {
    ExtractAppends(issue);
    var c := children;
    if attached {
      assert |c| >= 2 by {
        var m := FirstWith(issue.rawTraffic.value.children, MergedTraffic).value;
        assert m < |issue.rawTraffic.value.children|;
      }
      c := MoveToEnd(c, |c| - 2);
      c := MoveToEnd(c, |c| - 2);
    } else {
      c := c + [NewTraffic(RequestTraffic, []), NewTraffic(ResponseTraffic, [])];
    }
    assert c == Appended(children, attached);
    o, after := Done, WithChildren(issue, c);
  }

  /** The RequestTraffic part of `extract_traffic`, once the MergedTraffic
      step has left `children`: a flagged, non-empty request node is
      decoded and replaced by a plain one at the end. */
  method CheckRequest(issue: Issue, children: seq<TrafficNode>, i: nat) returns (o: Outcome, after: Issue)
    requires issue.rawTraffic.Some?
    requires children == MergeStep(issue.rawTraffic.value.children).0
    requires FirstWith(issue.rawTraffic.value.children, RequestTraffic) == Some(i)
    ensures (o, after) == ExtractTrafficOf(issue)
  {
    var c0 := issue.rawTraffic.value.children;
    var node := c0[i];
    // the node's place once the MergedTraffic child is gone
    var at := i;
    var rawMerged := FirstWith(c0, MergedTraffic);
    if rawMerged.Some? && rawMerged.value < at {
      at := at - 1;
    }
    assert at == AfterMerge(c0, i);
    AfterMergeIndex(c0, i);
    after := WithChildren(issue, children);
    if node.text.None? {
      return Raised(TypeError), after;
    }
    if |node.text.value| > 0 && FlaggedBase64(node) {
      var decoded := Base64.Decode(node.text.value);
      if decoded.None? {
        return Raised(ValueError), after;
      }
      var text := Utf8.Decode(decoded.value);
      if text.None? {
        return Raised(UnicodeDecodeError), after;
      }
      after := WithChildren(issue, RemoveAt(children, at) + [NewTraffic(RequestTraffic, text.value)]);
    }
    o := Done;
  }

  class AppVulnXmlParser {
    var issues: seq<Issue>
    var issueIndex: nat

    /** The issues of a report, with the iterator at the first. */
    constructor (issues: seq<Issue>)
      ensures this.issues == issues && issueIndex == 0
    {
      this.issues := issues;
      issueIndex := 0;
    }

    /** `__len__` */
    function Len(): nat
      reads this
    {
      |issues|
    }

    /** `__next__`: reads the issue at the index, then either advances and
        returns it or, at the last issue, raises StopIteration without
        returning it. */
    method Next() returns (s: Step)
      modifies this
      ensures issues == old(issues)
      ensures (s, issueIndex) == NextOf(issues, old(issueIndex))
    {
      if issueIndex >= |issues| {
        return IndexOutOfRange;
      }
      var issue := issues[issueIndex];
      if issueIndex + 1 < |issues| {
        issueIndex := issueIndex + 1;
      } else {
        return StopIteration;
      }
      return Yielded(issue);
    }

    /** `extract_traffic` on issue `k`. */
    method ExtractTraffic(k: nat) returns (o: Outcome)
      requires k < |issues|
      modifies this
      ensures |issues| == |old(issues)| && issueIndex == old(issueIndex)
      ensures (o, issues[k]) == ExtractTrafficOf(old(issues)[k])
      ensures forall j :: 0 <= j < |issues| && j != k ==> issues[j] == old(issues)[j]
    {
      var issue;
      o, issue := ExtractIssue(issues[k]);
      issues := issues[k := issue];
    }

    /** `add_request_data` on issue `k` with the given request text. */
    method AddRequestData(k: nat, text: Bytes) returns (o: Outcome)
      requires k < |issues|
      modifies this
      ensures |issues| == |old(issues)| && issueIndex == old(issueIndex)
      ensures (o, issues[k]) == AddRequestDataOf(old(issues)[k], text)
      ensures forall j :: 0 <= j < |issues| && j != k ==> issues[j] == old(issues)[j]
    {
      var request := new RequestParser(text, true);
      var _ := request.ParseData();
      request.SetHttpHeaders();
      var headers := request.GetHeaders();
      var issue := issues[k];
      var command := request.GetMethod();
      if command.None? {
        return Raised(TypeError);
      }
      var attrs := issue.request.attrs[MethodAttr := command.value];
      attrs := attrs[VersionAttr := request.GetRequestVersion().value];
      var parsed;
      o, parsed := AppendHeaderNodes(issue.request.parsed, headers);
      if o == Done {
        parsed := parsed + [Data(request.GetRequestData().value, None)];
      }
      issues := issues[k := issue.(request := MessageNode(attrs, parsed))];
    }

    /** `add_response_data` on issue `k` with the given response text. */
    method AddResponseData(k: nat, text: Bytes, binary: bool) returns (o: Outcome)
      requires k < |issues|
      modifies this
      ensures |issues| == |old(issues)| && issueIndex == old(issueIndex)
      ensures (o, issues[k]) == AddResponseDataOf(old(issues)[k], text, binary)
      ensures forall j :: 0 <= j < |issues| && j != k ==> issues[j] == old(issues)[j]
    {
      var response := new ResponseParser(text, binary);
      var _ := response.ParseData();
      response.SetHttpHeaders();
      var headers := response.GetHeaders();
      var issue := issues[k];
      var attrs := issue.response.attrs[VersionAttr := response.GetResponseVersion()];
      attrs := attrs[StatusAttr := response.GetStatus()];
      attrs := attrs[ReasonAttr := response.GetReason()];
      var parsed;
      o, parsed := AppendHeaderNodes(issue.response.parsed, headers);
      if o == Done {
        var flag := if binary then PyTrue else PyFalse;
        parsed := parsed + [Data(response.GetResponseData().value, Some(flag))];
      }
      issues := issues[k := issue.(response := MessageNode(attrs, parsed))];
    }

    /** One pass of `add_data`'s loop, on issue `k`. */
    method AddDataIssue(k: nat) returns (o: Outcome)
      requires k < |issues|
      modifies this
      ensures |issues| == |old(issues)| && issueIndex == old(issueIndex)
      ensures (o, issues[k]) == AddDataOf(old(issues)[k])
      ensures forall j :: 0 <= j < |issues| && j != k ==> issues[j] == old(issues)[j]
    {
      o := ExtractTraffic(k);
      if o.Raised? {
        return;
      }
      var children := issues[k].rawTraffic.value.children;
      var rawRequest := FirstWith(children, RequestTraffic);
      if rawRequest.None? {
        return Raised(IndexError);
      }
      var rawResponse := FirstWith(children, ResponseTraffic);
      if rawResponse.None? {
        return Raised(IndexError);
      }
      var requestNode := children[rawRequest.value];
      var responseNode := children[rawResponse.value];
      if requestNode.text.Some? && requestNode.text.value != [] {
        if FlaggedBase64(requestNode) {
          var decoded := Base64.Decode(requestNode.text.value);
          if decoded.None? {
            return Raised(ValueError);
          }
          o := AddRequestData(k, Utf8.DecodeLenient(decoded.value));
        } else {
          o := AddRequestData(k, requestNode.text.value);
        }
        if o.Raised? {
          return;
        }
      }
      if responseNode.text.Some? && responseNode.text.value != [] {
        if FlaggedBase64(responseNode) {
          var decoded := Base64.Decode(responseNode.text.value);
          if decoded.None? {
            return Raised(ValueError);
          }
          o := AddResponseData(k, Utf8.DecodeLenient(decoded.value), true);
        } else {
          o := AddResponseData(k, responseNode.text.value, false);
        }
      }
    }

    /** `add_data`: every issue in list order, stopping at the first
        exception. */
    method AddData() returns (o: Outcome)
      modifies this
      ensures issueIndex == old(issueIndex)
      ensures (o, issues) == ForEach(AddDataOf, old(issues))
    {
      var i := 0;
      assert issues[..0] == [] && issues[0..] == issues;
      while i < |issues|
        invariant 0 <= i <= |issues| == |old(issues)|
        invariant issueIndex == old(issueIndex)
        invariant issues[i..] == old(issues)[i..]
        invariant ForEach(AddDataOf, old(issues)).0 == ForEach(AddDataOf, issues[i..]).0
        invariant ForEach(AddDataOf, old(issues)).1 == issues[..i] + ForEach(AddDataOf, issues[i..]).1
      {
        ghost var before := issues;
        o := AddDataIssue(i);
        ForEachAdvance(AddDataOf, old(issues), before, issues, i);
        if o.Raised? {
          return;
        }
        i := i + 1;
      }
      ForEachFinish(AddDataOf, old(issues), issues);
      return Done;
    }

    /** One pass of `convert_base64_to_plain`'s loop, on issue `k`. */
    method ConvertIssue(k: nat) returns (o: Outcome)
      requires k < |issues|
      modifies this
      ensures |issues| == |old(issues)| && issueIndex == old(issueIndex)
      ensures (o, issues[k]) == ConvertOf(old(issues)[k])
      ensures forall j :: 0 <= j < |issues| && j != k ==> issues[j] == old(issues)[j]
    {
      var issue := issues[k];
      var rd := issue.rawData;
      if rd.Some? && rd.value.rawRequest.Some? {
        var base64Traffic := rd.value.rawRequest.value.text;
        if base64Traffic.None? {
          return Raised(TypeError);
        }
        var traffic := Base64.Decode(base64Traffic.value);
        if traffic.None? {
          return Raised(ValueError);
        }
        var text := Utf8.Decode(traffic.value);
        if text.None? {
          return Raised(UnicodeDecodeError);
        }
        rd := Some(rd.value.(rawRequest := Some(RawPart(text))));
        issue := issue.(rawData := rd);
        issues := issues[k := issue];
      }
      if rd.Some? && rd.value.rawResponse.Some? {
        var base64Traffic := rd.value.rawResponse.value.text;
        if base64Traffic.None? {
          return Raised(TypeError);
        }
        var traffic := Base64.Decode(base64Traffic.value);
        if traffic.None? {
          return Raised(ValueError);
        }
        var response := if |traffic.value| < ReprLimit then BytesRepr.Repr(traffic.value) else base64Traffic.value;
        rd := Some(rd.value.(rawResponse := Some(RawPart(Some(response)))));
        issue := issue.(rawData := rd);
        issues := issues[k := issue];
      }
      if rd.None? || rd.value.rawRequest.None? || rd.value.rawResponse.None? {
        return Raised(IndexError);
      }
      var requestText := rd.value.rawRequest.value.text;
      if requestText.None? {
        return Raised(TypeError);
      }
      var merged := requestText.value + TextStr(rd.value.rawResponse.value.text);
      if issue.rawTraffic.None? {
        return Raised(IndexError);
      }
      issue := issue.(rawTraffic := Some(issue.rawTraffic.value.(text := Some(merged))));
      issue := issue.(rawData := None);
      issues := issues[k := issue];
      return Done;
    }

    /** `convert_base64_to_plain`: every issue in list order, stopping at
        the first exception. */
    method ConvertBase64ToPlain() returns (o: Outcome)
      modifies this
      ensures issueIndex == old(issueIndex)
      ensures (o, issues) == ForEach(ConvertOf, old(issues))
    {
      var i := 0;
      assert issues[..0] == [] && issues[0..] == issues;
      while i < |issues|
        invariant 0 <= i <= |issues| == |old(issues)|
        invariant issueIndex == old(issueIndex)
        invariant issues[i..] == old(issues)[i..]
        invariant ForEach(ConvertOf, old(issues)).0 == ForEach(ConvertOf, issues[i..]).0
        invariant ForEach(ConvertOf, old(issues)).1 == issues[..i] + ForEach(ConvertOf, issues[i..]).1
      {
        ghost var before := issues;
        o := ConvertIssue(i);
        ForEachAdvance(ConvertOf, old(issues), before, issues, i);
        if o.Raised? {
          return;
        }
        i := i + 1;
      }
      ForEachFinish(ConvertOf, old(issues), issues);
      return Done;
    }
  }
}
