/** What the AppVulnXML driver promises, stated over the functions of
    `Driver`: the iterator skips the last issue, `extract_traffic` normalises
    the traffic children (and is idempotent on what it produced), the header
    loops append one `Header` per stored value or stop with TypeError,
    `add_data` decodes base64 traffic before parsing it, and
    `convert_base64_to_plain` leaves a merged text from which the response
    bytes can be read back. */
module DriverProperties {
  import opened Bytes
  import Base64
  import Utf8
  import BytesRepr
  import opened MailHeaders
  import opened HttpHeaders
  import opened HttpParser
  import opened Issues
  import opened Driver

  // ---- Iteration ----

  /** What `__next__` called again and again from `index` returns before
      the first call that returns no issue, and that call's step. */
  function Drain(issues: seq<Issue>, index: nat): (seq<Issue>, Step)
    decreases |issues| - index
  {
    var (s, j) := NextOf(issues, index);
    if s.Yielded? then
      var (rest, last) := Drain(issues, j);
      ([s.issue] + rest, last)
    else ([], s)
  }

  lemma {:induction false} DrainFrom(issues: seq<Issue>, index: nat)
    requires index < |issues|
    ensures Drain(issues, index) == (issues[index..|issues| - 1], StopIteration)
    decreases |issues| - index
  {
    if index + 1 < |issues| {
      DrainFrom(issues, index + 1);
      assert [issues[index]] + issues[index + 1..|issues| - 1] == issues[index..|issues| - 1];
    } else {
      assert issues[index..|issues| - 1] == [];
    }
  }

  /** Iterating a report yields every issue but the last, in order, and
      then stops; a report without issues raises IndexError on the first
      call. */
  lemma IterationSkipsLast(issues: seq<Issue>)
    ensures issues != [] ==> Drain(issues, 0) == (issues[..|issues| - 1], StopIteration)
    ensures issues == [] ==> Drain(issues, 0) == ([], IndexOutOfRange)
  {
    if issues != [] {
      DrainFrom(issues, 0);
    }
  }

  // ---- extract_traffic ----

  /** Appending the last two children again, first the one before last,
      then the one the first move left before last, gives back the same
      order. */
  lemma MoveLastTwo<T>(s: seq<T>)
    requires |s| >= 2
    ensures MoveToEnd(MoveToEnd(s, |s| - 2), |s| - 2) == s
  {
    var n := |s|;
    var t := MoveToEnd(s, n - 2);
    assert t == s[..n - 2] + [s[n - 1], s[n - 2]];
    assert MoveToEnd(t, n - 2) == s[..n - 2] + [s[n - 2], s[n - 1]];
    assert s == s[..n - 2] + [s[n - 2], s[n - 1]];
  }

  /** The children of `RawTraffic` once the traffic is extracted from an
      issue that has no RequestTraffic child: the first MergedTraffic child
      (if any) is removed and a request and a response node come last,
      holding the halves of the merged text, or nothing when there is no
      merged text to split. */
  function Normalised(c: seq<TrafficNode>): (r: seq<TrafficNode>)
    ensures |r| >= 2
    ensures r[|r| - 2].tag == RequestTraffic && !FlaggedBase64(r[|r| - 2])
    ensures r[|r| - 1].tag == ResponseTraffic && !FlaggedBase64(r[|r| - 1])
  {
    match FirstWith(c, MergedTraffic)
    case None => c + [NewTraffic(RequestTraffic, []), NewTraffic(ResponseTraffic, [])]
    case Some(m) =>
      var t := if c[m].text.Some? then Split(c[m].text.value) else Traffic([], []);
      RemoveAt(c, m) + [NewTraffic(RequestTraffic, t.request), NewTraffic(ResponseTraffic, t.response)]
  }

  lemma NormalisedAppended(c0: seq<TrafficNode>)
    ensures var (c1, attached) := MergeStep(c0);
      Appended(c1, attached) == Normalised(c0)
  {
    var (c1, attached) := MergeStep(c0);
    match FirstWith(c0, MergedTraffic)
    case None =>
    case Some(m) =>
      if c0[m].text.Some? {
        var split := Split(c0[m].text.value);
        assert c1 == RemoveAt(c0 + Added(split), m) && attached;
        AppendedAdded(c0, m, Added(split));
      } else {
        assert c1 == RemoveAt(c0, m) && !attached;
      }
  }

  lemma AppendedAdded(c0: seq<TrafficNode>, m: nat, added: seq<TrafficNode>)
    requires m < |c0| && |added| == 2
    ensures Appended(RemoveAt(c0 + added, m), true) == RemoveAt(c0, m) + added
  {
    RemoveAtAppend(c0, m, added);
    MoveLastTwo(RemoveAt(c0 + added, m));
  }

  /** Without a RequestTraffic child, extraction always succeeds and leaves
      the normalised children. */
  lemma ExtractWithoutRequest(issue: Issue)
    requires issue.rawTraffic.Some?
    requires FirstWith(issue.rawTraffic.value.children, RequestTraffic).None?
    ensures ExtractTrafficOf(issue) == (Done, WithChildren(issue, Normalised(issue.rawTraffic.value.children)))
  {
    ExtractAppends(issue);
    NormalisedAppended(issue.rawTraffic.value.children);
  }

  /** Every child before the last two of the normalised children comes from
      the original children, minus the MergedTraffic one. */
  lemma NormalisedPrefix(c0: seq<TrafficNode>)
    requires forall j :: 0 <= j < |c0| ==> c0[j].tag != RequestTraffic
    requires forall i, j :: 0 <= i < j < |c0| && c0[i].tag == MergedTraffic ==> c0[j].tag != MergedTraffic
    ensures var c := Normalised(c0);
      forall k :: 0 <= k < |c| - 2 ==> c[k].tag != RequestTraffic && c[k].tag != MergedTraffic
  {
    var c := Normalised(c0);
    match FirstWith(c0, MergedTraffic)
    case None =>
      assert forall k :: 0 <= k < |c| - 2 ==> c[k] == c0[k];
    case Some(m) =>
      forall k | 0 <= k < |c| - 2
        ensures c[k].tag != RequestTraffic && c[k].tag != MergedTraffic
      {
        if k < m {
          assert c[k] == c0[k];
        } else {
          assert c[k] == c0[k + 1];
        }
      }
  }

  /** The normalised children before the last two are original children. */
  lemma NormalisedKeeps(c0: seq<TrafficNode>)
    ensures var c := Normalised(c0);
      forall k :: 0 <= k < |c| - 2 ==> c[k] in c0
  {
    var c := Normalised(c0);
    match FirstWith(c0, MergedTraffic)
    case None =>
      assert forall k :: 0 <= k < |c| - 2 ==> c[k] == c0[k];
    case Some(m) =>
      forall k | 0 <= k < |c| - 2 ensures c[k] in c0 {
        if k < m {
          assert c[k] == c0[k];
        } else {
          assert c[k] == c0[k + 1];
        }
      }
  }

  /** Without request or response children to start with, the nodes
      appended last are the first of their kind. */
  lemma NormalisedTraffic(c0: seq<TrafficNode>)
    requires forall j :: 0 <= j < |c0| ==> c0[j].tag != RequestTraffic && c0[j].tag != ResponseTraffic
    ensures var c := Normalised(c0);
      FirstWith(c, RequestTraffic) == Some(|c| - 2) && FirstWith(c, ResponseTraffic) == Some(|c| - 1)
  {
    var c := Normalised(c0);
    NormalisedKeeps(c0);
    assert forall k :: 0 <= k < |c| - 2 ==> c[k].tag != RequestTraffic && c[k].tag != ResponseTraffic;
  }

  /** In the normalised children the appended request node is the first
      RequestTraffic child and no MergedTraffic child is left. */
  lemma NormalisedFirsts(c0: seq<TrafficNode>)
    requires forall j :: 0 <= j < |c0| ==> c0[j].tag != RequestTraffic
    requires forall i, j :: 0 <= i < j < |c0| && c0[i].tag == MergedTraffic ==> c0[j].tag != MergedTraffic
    ensures var c := Normalised(c0);
      FirstWith(c, MergedTraffic).None? && FirstWith(c, RequestTraffic) == Some(|c| - 2)
  {
    NormalisedPrefix(c0);
  }

  /** Extraction is idempotent on an issue it normalised: the second run
      finds the unflagged request node it appended and changes nothing
      (provided there was at most one MergedTraffic child to remove). */
  lemma ExtractIdempotent(issue: Issue)
    requires issue.rawTraffic.Some?
    requires var c0 := issue.rawTraffic.value.children;
      forall j :: 0 <= j < |c0| ==> c0[j].tag != RequestTraffic
    requires var c0 := issue.rawTraffic.value.children;
      forall i, j :: 0 <= i < j < |c0| && c0[i].tag == MergedTraffic ==> c0[j].tag != MergedTraffic
    ensures var x := ExtractTrafficOf(issue).1;
      ExtractTrafficOf(x) == (Done, x)
  {
    var c0 := issue.rawTraffic.value.children;
    assert FirstWith(c0, RequestTraffic).None?;
    ExtractWithoutRequest(issue);
    var c := Normalised(c0);
    var x := WithChildren(issue, c);
    NormalisedFirsts(c0);
    assert MergeStep(c) == (c, false);
    assert WithChildren(x, c) == x;
  }

  /** A RequestTraffic child flagged base64 whose text encodes well-formed
      UTF-8 is replaced by an unflagged node holding the decoded text,
      placed last; the merged step is applied as usual. */
  lemma ExtractDecodesRequest(issue: Issue, i: nat, t: Bytes)
    requires issue.rawTraffic.Some?
    requires FirstWith(issue.rawTraffic.value.children, RequestTraffic) == Some(i)
    requires var node := issue.rawTraffic.value.children[i];
      node.text == Some(Base64.Encode(t)) && FlaggedBase64(node)
    requires t != [] && Utf8.Valid(t)
    ensures var c0 := issue.rawTraffic.value.children;
      var c1 := MergeStep(c0).0;
      && AfterMerge(c0, i) < |c1| && c1[AfterMerge(c0, i)] == c0[i]
      && ExtractTrafficOf(issue) == (Done, WithChildren(issue, RemoveAt(c1, AfterMerge(c0, i)) + [NewTraffic(RequestTraffic, t)]))
  {
    var c0 := issue.rawTraffic.value.children;
    AfterMergeIndex(c0, i);
    Base64.DecodeEncode(t);
    Base64.EncodeShape(t);
  }

  /** A RequestTraffic child that is not flagged base64, or has empty
      text, is left alone: only the merged step applies. */
  lemma ExtractKeepsUnflagged(issue: Issue, i: nat)
    requires issue.rawTraffic.Some?
    requires FirstWith(issue.rawTraffic.value.children, RequestTraffic) == Some(i)
    requires var node := issue.rawTraffic.value.children[i];
      node.text.Some? && !(|node.text.value| > 0 && FlaggedBase64(node))
    ensures ExtractTrafficOf(issue) == (Done, WithChildren(issue, MergeStep(issue.rawTraffic.value.children).0))
  {
  }

  /** The failures of the request branch: a RequestTraffic child without
      text is a TypeError, a flagged one that is not base64 a ValueError,
      and one whose decoded bytes are not UTF-8 a UnicodeDecodeError; the
      merged step has already been applied. */
  lemma ExtractRequestFailures(issue: Issue, i: nat)
    requires issue.rawTraffic.Some?
    requires FirstWith(issue.rawTraffic.value.children, RequestTraffic) == Some(i)
    ensures var c0 := issue.rawTraffic.value.children;
      var node := c0[i];
      var after := WithChildren(issue, MergeStep(c0).0);
      && (node.text.None? ==> ExtractTrafficOf(issue) == (Raised(TypeError), after))
      && (node.text.Some? && |node.text.value| > 0 && FlaggedBase64(node) ==>
            match Base64.Decode(node.text.value)
            case None => ExtractTrafficOf(issue) == (Raised(ValueError), after)
            case Some(b) => !Utf8.Valid(b) ==> ExtractTrafficOf(issue) == (Raised(UnicodeDecodeError), after))
  {
  }

  /** The children of `c` with the given tag, in order. */
  function OfTag(c: seq<TrafficNode>, tag: TrafficTag): (r: seq<TrafficNode>)
    ensures forall k :: 0 <= k < |r| ==> r[k].tag == tag && r[k] in c
  {
    if c == [] then []
    else (if c[0].tag == tag then [c[0]] else []) + OfTag(c[1..], tag)
  }

  lemma {:induction false} OfTagAppend(a: seq<TrafficNode>, b: seq<TrafficNode>, tag: TrafficTag)
    ensures OfTag(a + b, tag) == OfTag(a, tag) + OfTag(b, tag)
  {
    if a == [] {
      assert a + b == b;
    } else {
      assert (a + b)[0] == a[0];
      assert (a + b)[1..] == a[1..] + b;
      OfTagAppend(a[1..], b, tag);
    }
  }

  /** Removing a child of another tag keeps the children of this tag. */
  lemma OfTagRemoveAt(c: seq<TrafficNode>, i: nat, tag: TrafficTag)
    requires i < |c| && c[i].tag != tag
    ensures OfTag(RemoveAt(c, i), tag) == OfTag(c, tag)
  {
    var front, back := c[..i], c[i + 1..];
    assert c == front + ([c[i]] + back);
    OfTagAppend(front, [c[i]] + back, tag);
    assert OfTag([c[i]] + back, tag) == OfTag(back, tag) by {
      assert ([c[i]] + back)[1..] == back;
    }
    OfTagAppend(front, back, tag);
  }

  /** The merged step keeps every ResponseTraffic or other child, in order,
      and at most adds a response node after them. */
  lemma MergeKeepsTag(c0: seq<TrafficNode>, tag: TrafficTag)
    requires tag != RequestTraffic && tag != MergedTraffic
    ensures OfTag(c0, tag) <= OfTag(MergeStep(c0).0, tag)
  {
    MergeStepResult(c0);
    match FirstWith(c0, MergedTraffic)
    case None =>
    case Some(m) =>
      OfTagRemoveAt(c0, m, tag);
      if c0[m].text.Some? {
        OfTagAppend(RemoveAt(c0, m), Added(Split(c0[m].text.value)), tag);
      }
  }

  /** `extract_traffic` never changes, drops or reorders a ResponseTraffic
      child (or a child of another tag): the ones the issue had stay, in
      order, ahead of any it adds, whatever the outcome. */
  lemma ExtractKeepsResponses(issue: Issue, tag: TrafficTag)
    requires issue.rawTraffic.Some?
    requires tag != RequestTraffic && tag != MergedTraffic
    ensures var x := ExtractTrafficOf(issue).1;
      x.rawTraffic.Some? && OfTag(issue.rawTraffic.value.children, tag) <= OfTag(x.rawTraffic.value.children, tag)
  {
    var c0 := issue.rawTraffic.value.children;
    var c1 := MergeStep(c0).0;
    MergeKeepsTag(c0, tag);
    match FirstWith(c0, RequestTraffic)
    case None =>
      ExtractWithoutRequest(issue);
      var t := if FirstWith(c0, MergedTraffic).Some? && c0[FirstWith(c0, MergedTraffic).value].text.Some?
        then Split(c0[FirstWith(c0, MergedTraffic).value].text.value) else Traffic([], []);
      var rest := if FirstWith(c0, MergedTraffic).Some? then RemoveAt(c0, FirstWith(c0, MergedTraffic).value) else c0;
      assert Normalised(c0) == rest + Added(t);
      if FirstWith(c0, MergedTraffic).Some? {
        OfTagRemoveAt(c0, FirstWith(c0, MergedTraffic).value, tag);
      }
      OfTagAppend(rest, Added(t), tag);
    case Some(i) =>
      AfterMergeIndex(c0, i);
      var j := AfterMerge(c0, i);
      OfTagRemoveAt(c1, j, tag);
      var node := c0[i];
      if node.text.Some? && |node.text.value| > 0 && FlaggedBase64(node) {
        match Base64.Decode(node.text.value)
        case None =>
        case Some(b) =>
          match Utf8.Decode(b)
          case None =>
          case Some(t) =>
            OfTagAppend(RemoveAt(c1, j), [NewTraffic(RequestTraffic, t)], tag);
            assert OfTag([NewTraffic(RequestTraffic, t)], tag) == [] by {
              assert [NewTraffic(RequestTraffic, t)][1..] == [];
            }
      }
  }

  // ---- The header loops ----

  /** The values of one name: all appended when every one is a single text,
      otherwise TypeError at the first list, after the ones before it. */
  lemma {:induction false} AppendValuesOutcome(p: seq<ParsedChild>, name: Bytes, vs: seq<HeaderValue>)
    ensures AppendValues(p, name, vs).0 == Done <==> forall j :: 0 <= j < |vs| ==> vs[j].Single?
    ensures AppendValues(p, name, vs).0 != Done ==> AppendValues(p, name, vs).0 == Raised(TypeError)
    decreases vs
  {
    if vs != [] && vs[0].Single? {
      var p' := p + [Header(name, vs[0].text)];
      AppendValuesOutcome(p', name, vs[1..]);
      assert AppendValues(p, name, vs) == AppendValues(p', name, vs[1..]);
      assert forall j :: 1 <= j < |vs| ==> vs[j] == vs[1..][j - 1];
    }
  }

  lemma {:induction false} AppendValuesKeeps(p: seq<ParsedChild>, name: Bytes, vs: seq<HeaderValue>)
    ensures p <= AppendValues(p, name, vs).1
    decreases vs
  {
    if vs != [] && vs[0].Single? {
      var p' := p + [Header(name, vs[0].text)];
      AppendValuesKeeps(p', name, vs[1..]);
      assert p <= p';
    }
  }

  lemma AppendAssoc<T>(p: seq<T>, x: T, r: seq<T>)
    ensures (p + [x]) + r == p + ([x] + r)
  {
  }

  lemma {:induction false} AppendValuesResult(p: seq<ParsedChild>, name: Bytes, vs: seq<HeaderValue>)
    requires forall j :: 0 <= j < |vs| ==> vs[j].Single?
    ensures AppendValues(p, name, vs).1 == p + ValueNodes(name, vs)
    decreases vs
  {
    if vs != [] {
      var h := Header(name, vs[0].text);
      var tail := vs[1..];
      assert forall j :: 0 <= j < |tail| ==> tail[j] == vs[j + 1];
      AppendValuesResult(p + [h], name, tail);
      assert AppendValues(p, name, vs) == AppendValues(p + [h], name, tail);
      assert ValueNodes(name, vs) == [h] + ValueNodes(name, tail);
      AppendAssoc(p, h, ValueNodes(name, tail));
    }
  }

  lemma AllSingleSplit(m: HeaderMap)
    requires m != []
    ensures AllSingle(m) <==> (forall j :: 0 <= j < |m[0].values| ==> m[0].values[j].Single?) && AllSingle(m[1..])
  {
    if (forall j :: 0 <= j < |m[0].values| ==> m[0].values[j].Single?) && AllSingle(m[1..]) {
      forall i, j | 0 <= i < |m| && 0 <= j < |m[i].values| ensures m[i].values[j].Single? {
        if i > 0 {
          assert m[i] == m[1..][i - 1];
        }
      }
    }
    if AllSingle(m) {
      forall i, j | 0 <= i < |m[1..]| && 0 <= j < |m[1..][i].values| ensures m[1..][i].values[j].Single? {
        assert m[1..][i] == m[i + 1];
      }
    }
  }

  /** The whole map: one `Header` per stored value in map order when every
      stored value is a single text (a name that is stored with a list makes
      lxml raise TypeError); the children already there are kept first. */
  lemma {:induction false} AppendHeadersRule(p: seq<ParsedChild>, m: HeaderMap)
    ensures AppendHeaders(p, m).0 == Done <==> AllSingle(m)
    ensures AppendHeaders(p, m).0 != Done ==> AppendHeaders(p, m).0 == Raised(TypeError)
    ensures p <= AppendHeaders(p, m).1
    ensures AllSingle(m) ==> AppendHeaders(p, m).1 == p + HeaderNodes(m)
    decreases m
  {
    if m != [] {
      AllSingleSplit(m);
      AppendValuesOutcome(p, m[0].name, m[0].values);
      AppendValuesKeeps(p, m[0].name, m[0].values);
      var (o, q) := AppendValues(p, m[0].name, m[0].values);
      if o == Done {
        AppendValuesResult(p, m[0].name, m[0].values);
        AppendHeadersRule(q, m[1..]);
        var (o2, q2) := AppendHeaders(q, m[1..]);
        if o2 == Done {
          assert HeaderNodes(m) == ValueNodes(m[0].name, m[0].values) + HeaderNodes(m[1..]);
          assert q2 == p + HeaderNodes(m);
        }
      }
    }
  }

  lemma AllSingleConcat(a: seq<HeaderValue>, b: seq<HeaderValue>)
    ensures (forall j :: 0 <= j < |a + b| ==> (a + b)[j].Single?) <==>
      (forall j :: 0 <= j < |a| ==> a[j].Single?) && (forall j :: 0 <= j < |b| ==> b[j].Single?)
  {
    assert forall j :: 0 <= j < |a| ==> a[j] == (a + b)[j];
    assert forall j :: 0 <= j < |b| ==> b[j] == (a + b)[|a| + j];
  }

  /** `Put` keeps every stored value a single text exactly when the map did
      and the appended values are. */
  lemma {:induction false} AllSinglePut(m: HeaderMap, k: Bytes, vs: seq<HeaderValue>)
    ensures AllSingle(Put(m, k, vs)) <==> AllSingle(m) && forall j :: 0 <= j < |vs| ==> vs[j].Single?
  {
    if vs != [] {
      var r := Put(m, k, vs);
      AllSingleSplit(r);
      if m == [] {
        assert r == [Entry(k, vs)] && r[1..] == [];
        assert AllSingle(m) && AllSingle(r[1..]);
      } else {
        AllSingleSplit(m);
        if m[0].name == k {
          assert r[0].values == m[0].values + vs && r[1..] == m[1..];
          AllSingleConcat(m[0].values, vs);
        } else {
          assert r[0] == m[0] && r[1..] == Put(m[1..], k, vs);
          AllSinglePut(m[1..], k, vs);
        }
      }
    }
  }

  /** A name whose visits store single texts: Cookie and Set-Cookie always
      do, any other name when it occurs once (names compared ignoring
      case). */
  predicate StoredSingly(msg: seq<Field>, k: Bytes) {
    k == CookieName || k == SetCookieName || |GetAll(msg, k)| == 1
  }

  lemma ContributionSingle(msg: seq<Field>, k: Bytes)
    requires k in Keys(msg)
    ensures (forall j :: 0 <= j < |Contribution(msg, k)| ==> Contribution(msg, k)[j].Single?) <==> StoredSingly(msg, k)
  {
    var c := Contribution(msg, k);
    if k == CookieName {
      assert c == Singles(CookiePieces(GetAll(msg, k)));
    } else if k == SetCookieName {
      assert c == Singles(StripAll(GetAll(msg, k)));
    } else {
      GetAllOfKey(msg, k);
      OtherRule(msg, k);
    }
  }

  /** The names of the first `n` fields all store single texts. */
  predicate SinglyUpTo(msg: seq<Field>, n: nat)
    requires n <= |msg|
  {
    n == 0 || (SinglyUpTo(msg, n - 1) && StoredSingly(msg, msg[n - 1].name))
  }

  lemma {:induction false} SinglyUpToAll(msg: seq<Field>, n: nat)
    requires n <= |msg|
    ensures SinglyUpTo(msg, n) <==> forall j :: 0 <= j < n ==> StoredSingly(msg, msg[j].name)
  {
    if n > 0 {
      SinglyUpToAll(msg, n - 1);
    }
  }

  lemma ProjectStep(msg: seq<Field>, n: nat)
    requires 0 < n <= |msg|
    ensures AllSingle(ProjectUpTo(msg, n)) == (AllSingle(ProjectUpTo(msg, n - 1)) && StoredSingly(msg, msg[n - 1].name))
  {
    var k := msg[n - 1].name;
    assert Keys(msg)[n - 1] == k;
    var prev := ProjectUpTo(msg, n - 1);
    var c := Contribution(msg, k);
    assert ProjectUpTo(msg, n) == Put(prev, k, c);
    AllSinglePut(prev, k, c);
    ContributionSingle(msg, k);
  }

  /** The first `n` fields project to single texts exactly when their
      names all store single texts. */
  lemma {:induction false} ProjectUpToSingle(msg: seq<Field>, n: nat)
    requires n <= |msg|
    ensures AllSingle(ProjectUpTo(msg, n)) == SinglyUpTo(msg, n)
  {
    var i := 0;
    assert ProjectUpTo(msg, 0) == [];
    while i < n
      invariant i <= n
      invariant AllSingle(ProjectUpTo(msg, i)) == SinglyUpTo(msg, i)
    {
      i := i + 1;
      ProjectSingleStep(msg, i);
    }
  }

  lemma ProjectSingleStep(msg: seq<Field>, n: nat)
    requires 0 < n <= |msg|
    requires AllSingle(ProjectUpTo(msg, n - 1)) == SinglyUpTo(msg, n - 1)
    ensures AllSingle(ProjectUpTo(msg, n)) == SinglyUpTo(msg, n)
  {
    ProjectStep(msg, n);
    var a, b := AllSingle(ProjectUpTo(msg, n - 1)), SinglyUpTo(msg, n - 1);
    var a', b' := AllSingle(ProjectUpTo(msg, n)), SinglyUpTo(msg, n);
    IffStep(a, b, StoredSingly(msg, msg[n - 1].name), a', b');
  }

  /** Two conditions that agree stay in agreement when each is extended by
      the same third one. */
  lemma IffStep(a: bool, b: bool, x: bool, a': bool, b': bool)
    requires a == b
    requires a' == (a && x)
    requires b' == (b && x)
    ensures a' == b'
  {
  }

  /** Every name other than Cookie and Set-Cookie occurs once, ignoring
      case. */
  predicate NoRepeatedPlainName(msg: seq<Field>) {
    forall k :: k in Keys(msg) && k != CookieName && k != SetCookieName ==> |GetAll(msg, k)| == 1
  }

  lemma SinglyIffNoRepeat(msg: seq<Field>)
    ensures SinglyUpTo(msg, |msg|) <==> NoRepeatedPlainName(msg)
  {
    SinglyUpToAll(msg, |msg|);
    if SinglyUpTo(msg, |msg|) {
      SinglyNoRepeat(msg);
    }
    if NoRepeatedPlainName(msg) {
      NoRepeatSingly(msg);
    }
  }

  lemma SinglyNoRepeat(msg: seq<Field>)
    requires forall j :: 0 <= j < |msg| ==> StoredSingly(msg, msg[j].name)
    ensures NoRepeatedPlainName(msg)
  {
    forall k | k in Keys(msg) && k != CookieName && k != SetCookieName
      ensures |GetAll(msg, k)| == 1
    {
      var j :| 0 <= j < |msg| && Keys(msg)[j] == k;
      assert StoredSingly(msg, msg[j].name);
    }
  }

  lemma NoRepeatSingly(msg: seq<Field>)
    requires NoRepeatedPlainName(msg)
    ensures forall j :: 0 <= j < |msg| ==> StoredSingly(msg, msg[j].name)
  {
    forall j | 0 <= j < |msg| ensures StoredSingly(msg, msg[j].name) {
      assert Keys(msg)[j] == msg[j].name;
    }
  }

  /** `set_http_headers` stores a list (which the header loops refuse) for
      exactly the names other than Cookie and Set-Cookie that occur more
      than once, ignoring case. */
  lemma ListValueRule(msg: seq<Field>)
    ensures AllSingle(Project(msg)) <==> NoRepeatedPlainName(msg)
  {
    assert Project(msg) == ProjectUpTo(msg, |msg|);
    ProjectUpToSingle(msg, |msg|);
    SinglyIffNoRepeat(msg);
  }

  // ---- add_request_data and add_response_data ----

  /** A request whose start line is refused or blank changes nothing and
      raises TypeError. An accepted one records method and version on
      `Request` and keeps every other attribute; nothing outside `Request`
      changes. */
  lemma RecordRequestAttributes(issue: Issue, v: RequestView)
    requires v.start.Accepted? ==> v.body.Some?
    ensures !v.start.Accepted? ==> RecordRequest(issue, v) == (Raised(TypeError), issue)
    ensures var x := RecordRequest(issue, v).1;
      var before := issue.request.attrs;
      v.start.Accepted? ==>
        && x.rawTraffic == issue.rawTraffic && x.rawData == issue.rawData && x.response == issue.response
        && x.request.attrs.Keys == before.Keys + {MethodAttr, VersionAttr}
        && x.request.attrs[MethodAttr] == v.start.command
        && x.request.attrs[VersionAttr] == v.start.version
        && (forall a :: a in before && a != MethodAttr && a != VersionAttr ==> x.request.attrs[a] == before[a])
  {
    if v.start.Accepted? {
      var attrs := issue.request.attrs[MethodAttr := v.start.command][VersionAttr := v.start.version];
      var x := RecordRequest(issue, v).1;
      assert x.request.attrs == attrs;
      assert x.rawTraffic == issue.rawTraffic && x.rawData == issue.rawData && x.response == issue.response;
    }
  }

  /** For an accepted request, a `Header` child per stored value and then
      the body as a final `Data` child are appended, unless a list value
      stops the loops with TypeError after the children before it. */
  lemma RecordRequestChildren(issue: Issue, v: RequestView)
    requires v.start.Accepted? && v.body.Some?
    ensures var (o, x) := RecordRequest(issue, v);
      && (o == Done <==> AllSingle(v.headerMap))
      && (o != Done ==> o == Raised(TypeError))
      && issue.request.parsed <= x.request.parsed
      && (AllSingle(v.headerMap) ==>
            x.request.parsed == issue.request.parsed + HeaderNodes(v.headerMap) + [Data(v.body.value, None)])
  {
    AppendHeadersRule(issue.request.parsed, v.headerMap);
  }

  /** A response records version, status and reason on `Response`, keeps
      every other attribute, and appends a `Header` child per stored value
      and the body as a final `Data` child flagged with `str(binary_data)`,
      unless a list value stops the loops with TypeError. */
  lemma RecordResponseRule(issue: Issue, v: ResponseView, binary: bool)
    ensures var (o, x) := RecordResponse(issue, v, binary);
      var before := issue.response.attrs;
      && (o == Done <==> AllSingle(v.headerMap))
      && (o != Done ==> o == Raised(TypeError))
      && x.rawTraffic == issue.rawTraffic && x.rawData == issue.rawData && x.request == issue.request
      && x.response.attrs.Keys == before.Keys + {VersionAttr, StatusAttr, ReasonAttr}
      && x.response.attrs[VersionAttr] == v.version
      && x.response.attrs[StatusAttr] == v.status
      && x.response.attrs[ReasonAttr] == v.reason
      && (forall a :: a in before && a != VersionAttr && a != StatusAttr && a != ReasonAttr ==> x.response.attrs[a] == before[a])
      && issue.response.parsed <= x.response.parsed
      && (AllSingle(v.headerMap) ==>
            x.response.parsed == issue.response.parsed + HeaderNodes(v.headerMap) + [Data(v.data, Some(if binary then PyTrue else PyFalse))])
  {
    AppendHeadersRule(issue.response.parsed, v.headerMap);
  }

  /** The body as `add_response_data` stores it: in binary mode the stored
      body decodes back to the bytes of the body lines, otherwise it is
      those bytes. */
  lemma ResponseDataBody(text: Bytes, binary: bool)
    ensures binary ==> Base64.Decode(ParseResponseText(text, binary).data) == Some(ResponseBody(text))
    ensures !binary ==> ParseResponseText(text, binary).data == ResponseBody(text)
  {
    Base64.DecodeEncode(ResponseBody(text));
  }

  lemma AddRequestDataOutcome(issue: Issue, text: Bytes)
    ensures AddRequestDataOf(issue, text).0 in {Done, Raised(TypeError)}
    ensures AddRequestDataOf(issue, text).1.rawTraffic == issue.rawTraffic
  {
    var v := ParseRequestText(text);
    RecordRequestAttributes(issue, v);
    if v.start.Accepted? {
      RecordRequestChildren(issue, v);
    }
  }

  lemma AddResponseDataOutcome(issue: Issue, text: Bytes, binary: bool)
    ensures AddResponseDataOf(issue, text, binary).0 in {Done, Raised(TypeError)}
  {
    RecordResponseRule(issue, ParseResponseText(text, binary), binary);
  }

  // ---- add_data ----

  /** A traffic node flagged base64 is decoded before it is parsed, with
      ill-formed UTF-8 dropped: the parsers then see well-formed text, and
      exactly the original bytes when those were well formed. A decoded
      response is parsed in binary mode. */
  lemma AddSidesDecode(issue: Issue, node: TrafficNode, b: Bytes)
    requires node.text == Some(Base64.Encode(b)) && b != [] && FlaggedBase64(node)
    ensures AddRequestSide(issue, node) == AddRequestDataOf(issue, Utf8.DecodeLenient(b))
    ensures AddResponseSide(issue, node) == AddResponseDataOf(issue, Utf8.DecodeLenient(b), true)
    ensures Utf8.Valid(Utf8.DecodeLenient(b))
    ensures Utf8.Valid(b) ==> Utf8.DecodeLenient(b) == b
  {
    Base64.DecodeEncode(b);
    Base64.EncodeShape(b);
    Utf8.DecodeLenientValid(b);
    if Utf8.Valid(b) {
      Utf8.DecodeLenientOfValid(b);
    }
  }

  /** On an issue without request or response traffic children, the nodes
      `add_data` indexes always exist after extraction and are not base64,
      so the only exception left is the TypeError of a refused start line
      or a list header value. */
  lemma AddDataAfterExtraction(issue: Issue)
    requires issue.rawTraffic.Some?
    requires var c0 := issue.rawTraffic.value.children;
      forall j :: 0 <= j < |c0| ==> c0[j].tag != RequestTraffic && c0[j].tag != ResponseTraffic
    ensures AddDataOf(issue).0 in {Done, Raised(TypeError)}
  {
    var c0 := issue.rawTraffic.value.children;
    assert FirstWith(c0, RequestTraffic).None?;
    ExtractWithoutRequest(issue);
    var x := ExtractTrafficOf(issue).1;
    var c := x.rawTraffic.value.children;
    assert c == Normalised(c0);
    NormalisedTraffic(c0);
    var req, resp := c[|c| - 2], c[|c| - 1];
    SidesOutcome(x, req, resp);
  }

  /** Two sides that are not base64 raise TypeError at most. */
  lemma SidesOutcome(x: Issue, req: TrafficNode, resp: TrafficNode)
    requires !FlaggedBase64(req) && !FlaggedBase64(resp)
    ensures var (o1, y) := AddRequestSide(x, req);
      && o1 in {Done, Raised(TypeError)}
      && (o1 == Done ==> AddResponseSide(y, resp).0 in {Done, Raised(TypeError)})
  {
    var (o1, y) := AddRequestSide(x, req);
    if req.text.Some? && req.text.value != [] {
      AddRequestDataOutcome(x, req.text.value);
    }
    if resp.text.Some? && resp.text.value != [] {
      AddResponseDataOutcome(y, resp.text.value, false);
    }
  }

  // ---- The loops over all issues ----

  /** Every issue after `f`. */
  function Applied(f: Issue -> (Outcome, Issue), issues: seq<Issue>): (r: seq<Issue>)
    ensures |r| == |issues|
    ensures forall j :: 0 <= j < |issues| ==> r[j] == f(issues[j]).1
  {
    if issues == [] then [] else [f(issues[0]).1] + Applied(f, issues[1..])
  }

  /** When no issue raises, every issue is processed. */
  lemma {:induction false} ForEachAllDone(f: Issue -> (Outcome, Issue), issues: seq<Issue>)
    requires forall j :: 0 <= j < |issues| ==> f(issues[j]).0 == Done
    ensures ForEach(f, issues) == (Done, Applied(f, issues))
  {
    if issues != [] {
      assert forall j :: 0 <= j < |issues[1..]| ==> issues[1..][j] == issues[j + 1];
      ForEachAllDone(f, issues[1..]);
    }
  }

  /** When issue `k` is the first to raise, the issues before it are
      processed, it keeps the changes made before its exception, and the
      issues after it are untouched. */
  lemma {:induction false} ForEachStops(f: Issue -> (Outcome, Issue), issues: seq<Issue>, k: nat)
    requires k < |issues| && f(issues[k]).0.Raised?
    requires forall j :: 0 <= j < k ==> f(issues[j]).0 == Done
    ensures ForEach(f, issues) == (f(issues[k]).0, Applied(f, issues[..k]) + [f(issues[k]).1] + issues[k + 1..])
  {
    if k > 0 {
      var rest := issues[1..];
      assert forall j :: 0 <= j < |rest| ==> rest[j] == issues[j + 1];
      ForEachStops(f, rest, k - 1);
      assert rest[..k - 1] == issues[1..k] && rest[k..] == issues[k + 1..] && rest[k - 1] == issues[k];
      assert issues[..k][1..] == issues[1..k];
      assert Applied(f, issues[..k]) == [f(issues[0]).1] + Applied(f, issues[1..k]);
      var tail := ForEach(f, rest);
      assert ForEach(f, issues) == (tail.0, [f(issues[0]).1] + tail.1);
      assert tail.1 == Applied(f, issues[1..k]) + [f(issues[k]).1] + issues[k + 1..];
      assert [f(issues[0]).1] + tail.1 == Applied(f, issues[..k]) + [f(issues[k]).1] + issues[k + 1..];
    } else {
      assert Applied(f, issues[..k]) == [];
      assert ForEach(f, issues) == (f(issues[0]).0, [f(issues[0]).1] + issues[1..]);
      assert Applied(f, issues[..k]) + [f(issues[k]).1] + issues[k + 1..] == [f(issues[0]).1] + issues[1..];
    }
  }

  // ---- convert_base64_to_plain ----

  /** How a raw response is written into the merged text: its bytes
      representation below the limit, its base64 text from it on. Either
      way the bytes can be read back. */
  function Shown(response: Bytes): (r: Bytes)
    ensures |response| < ReprLimit ==> BytesRepr.Unrepr(r) == Some(response)
    ensures |response| >= ReprLimit ==> Base64.Decode(r) == Some(response)
  {
    BytesRepr.UnreprRepr(response);
    Base64.DecodeEncode(response);
    if |response| < ReprLimit then BytesRepr.Repr(response) else Base64.Encode(response)
  }

  /** An issue whose raw parts are the base64 encodings of a well-formed
      UTF-8 request and of any response is converted: `RawTraffic` holds
      the request text followed by the shown response, `RawData` is gone,
      and nothing else changes. */
  lemma ConvertRule(issue: Issue, request: Bytes, response: Bytes)
    requires issue.rawTraffic.Some?
    requires issue.rawData == Some(RawData(Some(RawPart(Some(Base64.Encode(request)))), Some(RawPart(Some(Base64.Encode(response))))))
    requires Utf8.Valid(request)
    ensures var (o, x) := ConvertOf(issue);
      && o == Done
      && x.rawData.None?
      && x.request == issue.request && x.response == issue.response
      && x.rawTraffic == Some(issue.rawTraffic.value.(text := Some(request + Shown(response))))
  {
    Base64.DecodeEncode(request);
    Base64.DecodeEncode(response);
  }

  /** Conversion only succeeds on an issue with `RawTraffic` and both raw
      parts, and then removes `RawData`; without `RawData` it raises
      IndexError and changes nothing. */
  lemma ConvertNeedsBothParts(issue: Issue)
    ensures ConvertOf(issue).0 == Done ==>
      && issue.rawTraffic.Some? && issue.rawData.Some?
      && issue.rawData.value.rawRequest.Some? && issue.rawData.value.rawResponse.Some?
      && ConvertOf(issue).1.rawData.None?
    ensures issue.rawData.None? ==> ConvertOf(issue) == (Raised(IndexError), issue)
  {
  }

  /** A raw request that is not well-formed UTF-8 once decoded stops the
      conversion of its issue with UnicodeDecodeError before anything
      changes. */
  lemma ConvertRefusesIllFormedRequest(issue: Issue, request: Bytes)
    requires issue.rawData.Some?
    requires issue.rawData.value.rawRequest == Some(RawPart(Some(Base64.Encode(request))))
    requires !Utf8.Valid(request)
    ensures ConvertOf(issue) == (Raised(UnicodeDecodeError), issue)
  {
    Base64.DecodeEncode(request);
  }
}
