/** The header map `set_http_headers` builds from a parsed header section:
    a dictionary, in first-insertion order, from each name `keys()` reports
    (case kept) to the list of what was appended under it.
    - `Cookie`: every value, spaces removed, split on ';' (section 4.2.1 of
      RFC 6265); each piece is one entry;
    - `Set-Cookie`: every value, spaces removed, kept whole (section 4.1 of
      RFC 6265);
    - any other name: the single value, or the list of all values when the
      name occurs more than once.
    The name test is case-sensitive while `get_all` is not, and the entries
    are appended once per occurrence of the name in `keys()`. */
module HttpHeaders {
  import opened Bytes
  import opened MailHeaders

  /** A stored entry: a string, or a list of strings when a name has
      several values. */
  datatype HeaderValue = Single(text: Bytes) | Several(texts: seq<Bytes>)

  datatype Entry = Entry(name: Bytes, values: seq<HeaderValue>)

  /** The insertion-ordered `defaultdict(list)`. */
  type HeaderMap = seq<Entry>

  const CookieName: Bytes := "Cookie"
  const SetCookieName: Bytes := "Set-Cookie"

  function Names(m: HeaderMap): (ns: seq<Bytes>)
    ensures |ns| == |m|
    ensures forall i :: 0 <= i < |m| ==> ns[i] == m[i].name
  {
    if m == [] then [] else [m[0].name] + Names(m[1..])
  }

  /** `m[k]` on the defaultdict: the entries stored under `k`, or none. */
  function Lookup(m: HeaderMap, k: Bytes): seq<HeaderValue> {
    if m == [] then []
    else if m[0].name == k then m[0].values
    else Lookup(m[1..], k)
  }

  /** `for x in vs: m[k].append(x)` */
  function Put(m: HeaderMap, k: Bytes, vs: seq<HeaderValue>): HeaderMap {
    if vs == [] then m
    else if m == [] then [Entry(k, vs)]
    else if m[0].name == k then [Entry(k, m[0].values + vs)] + m[1..]
    else [m[0]] + Put(m[1..], k, vs)
  }

  function Singles(ts: seq<Bytes>): (vs: seq<HeaderValue>)
    ensures |vs| == |ts|
    ensures forall i :: 0 <= i < |ts| ==> vs[i] == Single(ts[i])
  {
    if ts == [] then [] else [Single(ts[0])] + Singles(ts[1..])
  }

  /** The pieces of one Cookie value: spaces removed, split on ';'. Joining
      them with ';' gives back the space-free value. */
  function CookieSplit(v: Bytes): (ps: seq<Bytes>)
    ensures |ps| >= 1
    ensures JoinWith(ps, [';']) == RemoveSpaces(v)
    ensures forall i :: 0 <= i < |ps| ==> SP !in ps[i] && ';' !in ps[i]
  {
    var t := RemoveSpaces(v);
    JoinSplit(t, ';');
    var ps := SplitOn(t, ';');
    assert forall i :: 0 <= i < |ps| ==> SP !in ps[i] by {
      forall i | 0 <= i < |ps| ensures SP !in ps[i] {
        SplitPieceIn(t, ';', i, SP);
      }
    }
    ps
  }

  /** The Cookie entries for the values `vs`, in order. */
  function CookiePieces(vs: seq<Bytes>): seq<Bytes> {
    if vs == [] then [] else CookiePieces(vs[..|vs| - 1]) + CookieSplit(vs[|vs| - 1])
  }

  /** The Set-Cookie entries for the values `vs`, in order. */
  function StripAll(vs: seq<Bytes>): (ts: seq<Bytes>)
    ensures |ts| == |vs|
    ensures forall i :: 0 <= i < |vs| ==> ts[i] == RemoveSpaces(vs[i])
  {
    if vs == [] then [] else StripAll(vs[..|vs| - 1]) + [RemoveSpaces(vs[|vs| - 1])]
  }

  /** What one visit of the name `k` from `keys()` appends under `k`. */
  function Contribution(msg: seq<Field>, k: Bytes): seq<HeaderValue>
    requires k in Keys(msg)
  {
    var vals := GetAll(msg, k);
    GetAllOfKey(msg, k);
    if k == CookieName then Singles(CookiePieces(vals))
    else if k == SetCookieName then Singles(StripAll(vals))
    else if |vals| > 1 then [Several(vals)]
    else [Single(vals[0])]
  }

  /** The map after visiting the first `n` names of `keys()`. */
  function ProjectUpTo(msg: seq<Field>, n: nat): HeaderMap
    requires n <= |msg|
  {
    if n == 0 then []
    else
      var k := msg[n - 1].name;
      assert Keys(msg)[n - 1] == k;
      Put(ProjectUpTo(msg, n - 1), k, Contribution(msg, k))
  }

  /** `set_http_headers` on a parsed header section. */
  function Project(msg: seq<Field>): HeaderMap {
    ProjectUpTo(msg, |msg|)
  }

  // ---- Facts about the dictionary operations ----

  /** A piece of a split holds only bytes of the text that was split. */
  lemma {:induction false} SplitPieceIn(s: Bytes, d: Byte, i: nat, b: Byte)
    requires b !in s && i < |SplitOn(s, d)|
    ensures b !in SplitOn(s, d)[i]
    decreases |s|
  {
    if s != [] {
      var rest := SplitOn(s[1..], d);
      if s[0] == d {
        if i > 0 {
          SplitPieceIn(s[1..], d, i - 1, b);
        }
      } else if i == 0 {
        SplitPieceIn(s[1..], d, 0, b);
        assert b != s[0] by { assert s[0] in s; }
      } else {
        SplitPieceIn(s[1..], d, i, b);
      }
    }
  }

  /** Appending under `k` extends `k`'s entries and leaves every other name's
      entries alone. */
  lemma {:induction false} LookupPut(m: HeaderMap, k: Bytes, vs: seq<HeaderValue>, j: Bytes)
    ensures Lookup(Put(m, k, vs), j) == if j == k then Lookup(m, k) + vs else Lookup(m, j)
  {
    if vs == [] {
      assert Lookup(m, k) + vs == Lookup(m, k);
    } else if m != [] && m[0].name != k {
      LookupPut(m[1..], k, vs, j);
    }
  }

  lemma LookupPutOther(m: HeaderMap, k: Bytes, vs: seq<HeaderValue>, j: Bytes)
    requires j != k
    ensures Lookup(Put(m, k, vs), j) == Lookup(m, j)
  {
    LookupPut(m, k, vs, j);
  }

  /** Appending under `k` adds `k` at the end of the names, unless it is
      already there or nothing is appended. */
  lemma {:induction false} NamesPut(m: HeaderMap, k: Bytes, vs: seq<HeaderValue>)
    ensures Names(Put(m, k, vs)) == if vs == [] || k in Names(m) then Names(m) else Names(m) + [k]
  {
    if vs != [] && m != [] && m[0].name != k {
      NamesPut(m[1..], k, vs);
      assert k in Names(m) <==> k in Names(m[1..]) by {
        assert Names(m) == [m[0].name] + Names(m[1..]);
      }
    }
  }

  /** Two appends under one name are one append of both lists. */
  lemma {:induction false} PutPut(m: HeaderMap, k: Bytes, xs: seq<HeaderValue>, ys: seq<HeaderValue>)
    ensures Put(Put(m, k, xs), k, ys) == Put(m, k, xs + ys)
  {
    if xs == [] {
      assert xs + ys == ys;
    } else if ys == [] {
      assert xs + ys == xs;
    } else if m == [] {
    } else if m[0].name == k {
      assert m[0].values + xs + ys == m[0].values + (xs + ys);
    } else {
      PutPut(m[1..], k, xs, ys);
    }
  }

  // ---- An independent description of the projection ----

  /** How often `k` occurs in `ks`. */
  function Count(ks: seq<Bytes>, k: Bytes): nat {
    if ks == [] then 0
    else Count(ks[..|ks| - 1], k) + (if ks[|ks| - 1] == k then 1 else 0)
  }

  /** `n` copies of `xs`, one after the other. */
  function Repeat(xs: seq<HeaderValue>, n: nat): seq<HeaderValue> {
    if n == 0 then [] else Repeat(xs, n - 1) + xs
  }

  /** The distinct names of `ks`, in order of first occurrence. */
  function Dedup(ks: seq<Bytes>): seq<Bytes> {
    if ks == [] then []
    else
      var d := Dedup(ks[..|ks| - 1]);
      if ks[|ks| - 1] in d then d else d + [ks[|ks| - 1]]
  }

  lemma {:induction false} DedupMembers(ks: seq<Bytes>, k: Bytes)
    ensures k in Dedup(ks) <==> k in ks
  {
    if ks != [] {
      var init := ks[..|ks| - 1];
      DedupMembers(init, k);
      assert ks == init + [ks[|ks| - 1]];
    }
  }

  /** Every visit appends at least one entry. */
  lemma ContributionNonEmpty(msg: seq<Field>, k: Bytes)
    requires k in Keys(msg)
    ensures |Contribution(msg, k)| > 0
  {
    GetAllOfKey(msg, k);
    if k == CookieName {
      CookiePiecesNonEmpty(GetAll(msg, k));
    }
  }

  lemma {:induction false} CookiePiecesNonEmpty(vs: seq<Bytes>)
    requires |vs| > 0
    ensures |CookiePieces(vs)| > 0
  {
  }

  /** The distinct names of a prefix grow by the prefix's last name when
      it is new. */
  lemma DedupPrefix(ks: seq<Bytes>, n: nat)
    requires 0 < n <= |ks|
    ensures Dedup(ks[..n]) == if ks[n - 1] in Dedup(ks[..n - 1]) then Dedup(ks[..n - 1]) else Dedup(ks[..n - 1]) + [ks[n - 1]]
  {
    assert ks[..n][..n - 1] == ks[..n - 1] && ks[..n][n - 1] == ks[n - 1];
  }

  /** The count in a prefix grows by one when its last name is `k`. */
  lemma CountPrefix(ks: seq<Bytes>, n: nat, k: Bytes)
    requires 0 < n <= |ks|
    ensures Count(ks[..n], k) == Count(ks[..n - 1], k) + if ks[n - 1] == k then 1 else 0
  {
    assert ks[..n][..n - 1] == ks[..n - 1] && ks[..n][n - 1] == ks[n - 1];
  }

  lemma {:induction false} ProjectUpToNames(msg: seq<Field>, n: nat)
    requires n <= |msg|
    ensures Names(ProjectUpTo(msg, n)) == Dedup(Keys(msg)[..n])
  {
    if n > 0 {
      var init := Keys(msg)[..n - 1];
      var last := msg[n - 1].name;
      assert Keys(msg)[n - 1] == last;
      DedupPrefix(Keys(msg), n);
      ProjectUpToNames(msg, n - 1);
      ContributionNonEmpty(msg, last);
      NamesPut(ProjectUpTo(msg, n - 1), last, Contribution(msg, last));
      DedupMembers(init, last);
    }
  }

  lemma {:induction false} ProjectUpToLookup(msg: seq<Field>, n: nat, k: Bytes)
    requires n <= |msg|
    requires k in Keys(msg)
    ensures Lookup(ProjectUpTo(msg, n), k) == Repeat(Contribution(msg, k), Count(Keys(msg)[..n], k))
  {
    if n > 0 {
      var last := msg[n - 1].name;
      assert Keys(msg)[n - 1] == last;
      CountPrefix(Keys(msg), n, k);
      ProjectUpToLookup(msg, n - 1, k);
      LookupPut(ProjectUpTo(msg, n - 1), last, Contribution(msg, last), k);
    }
  }

  lemma {:induction false} ProjectUpToAbsent(msg: seq<Field>, n: nat, k: Bytes)
    requires n <= |msg|
    requires k !in Keys(msg)
    ensures Lookup(ProjectUpTo(msg, n), k) == []
  {
    if n > 0 {
      var last := msg[n - 1].name;
      assert Keys(msg)[n - 1] == last;
      ProjectUpToAbsent(msg, n - 1, k);
      LookupPutOther(ProjectUpTo(msg, n - 1), last, Contribution(msg, last), k);
    }
  }

  /** The map holds one entry per distinct name, in order of first
      occurrence; under each name, what that name's rule gives, appended
      once for every occurrence of the name; nothing for other names. */
  lemma ProjectSpec(msg: seq<Field>, k: Bytes)
    ensures Names(Project(msg)) == Dedup(Keys(msg))
    ensures k in Keys(msg) ==> Lookup(Project(msg), k) == Repeat(Contribution(msg, k), Count(Keys(msg), k))
    ensures k !in Keys(msg) ==> Lookup(Project(msg), k) == []
  {
    assert Keys(msg)[..|msg|] == Keys(msg);
    ProjectUpToNames(msg, |msg|);
    if k in Keys(msg) {
      ProjectUpToLookup(msg, |msg|, k);
    } else {
      ProjectUpToAbsent(msg, |msg|, k);
    }
  }

  // ---- The per-name rules ----

  function Texts(vs: seq<HeaderValue>): (ts: seq<Bytes>)
    requires forall i :: 0 <= i < |vs| ==> vs[i].Single?
    ensures |ts| == |vs|
    ensures forall i :: 0 <= i < |vs| ==> ts[i] == vs[i].text
  {
    if vs == [] then [] else [vs[0].text] + Texts(vs[1..])
  }

  lemma TextsOfSingles(ts: seq<Bytes>)
    ensures Texts(Singles(ts)) == ts
  {
  }

  lemma {:induction false} JoinWithAppend(a: seq<Bytes>, b: seq<Bytes>, sep: Bytes)
    requires a != [] && b != []
    ensures JoinWith(a + b, sep) == JoinWith(a, sep) + sep + JoinWith(b, sep)
  {
    if |a| == 1 {
      assert (a + b)[1..] == b;
    } else {
      assert (a + b)[1..] == a[1..] + b;
      JoinWithAppend(a[1..], b, sep);
    }
  }

  lemma {:induction false} CookiePiecesJoin(vs: seq<Bytes>)
    requires |vs| > 0
    ensures JoinWith(CookiePieces(vs), [';']) == JoinWith(StripAll(vs), [';'])
    ensures forall i :: 0 <= i < |CookiePieces(vs)| ==> SP !in CookiePieces(vs)[i] && ';' !in CookiePieces(vs)[i]
  {
    var init := vs[..|vs| - 1];
    var last := vs[|vs| - 1];
    if init == [] {
      assert CookiePieces(vs) == CookiePieces([]) + CookieSplit(last);
      assert CookiePieces(vs) == CookieSplit(last);
      assert StripAll(vs) == StripAll([]) + [RemoveSpaces(last)];
      assert StripAll(vs) == [RemoveSpaces(last)];
    } else {
      CookiePiecesJoin(init);
      CookiePiecesNonEmpty(init);
      JoinWithAppend(CookiePieces(init), CookieSplit(last), [';']);
      JoinWithAppend(StripAll(init), [RemoveSpaces(last)], [';']);
      var ps := CookiePieces(vs);
      forall i | 0 <= i < |ps| ensures SP !in ps[i] && ';' !in ps[i] {
        if i >= |CookiePieces(init)| {
          assert ps[i] == CookieSplit(last)[i - |CookiePieces(init)|];
        } else {
          assert ps[i] == CookiePieces(init)[i];
        }
      }
    }
  }

  /** Cookie: each visit stores single, space-free, ';'-free pieces; joined
      with ';' they rebuild the space-free values joined with ';'. */
  lemma CookieRule(msg: seq<Field>)
    requires CookieName in Keys(msg)
    ensures var c := Contribution(msg, CookieName);
      && (forall i :: 0 <= i < |c| ==> c[i].Single? && SP !in c[i].text && ';' !in c[i].text)
      && JoinWith(Texts(c), [';']) == JoinWith(StripAll(GetAll(msg, CookieName)), [';'])
  {
    var vals := GetAll(msg, CookieName);
    GetAllOfKey(msg, CookieName);
    CookiePiecesJoin(vals);
    TextsOfSingles(CookiePieces(vals));
  }

  /** Set-Cookie: each visit stores every value, spaces removed, whole and
      in order. */
  lemma SetCookieRule(msg: seq<Field>)
    requires SetCookieName in Keys(msg)
    ensures var c := Contribution(msg, SetCookieName);
      var vals := GetAll(msg, SetCookieName);
      && |c| == |vals|
      && forall i :: 0 <= i < |c| ==> c[i] == Single(RemoveSpaces(vals[i]))
  {
  }

  /** Any other name: each visit stores one entry, the value itself when
      there is one, the whole ordered list when there are several. */
  lemma OtherRule(msg: seq<Field>, k: Bytes)
    requires k in Keys(msg) && k != CookieName && k != SetCookieName
    ensures var c := Contribution(msg, k);
      var vals := GetAll(msg, k);
      && |c| == 1
      && (|vals| == 1 ==> c[0] == Single(vals[0]))
      && (|vals| > 1 ==> c[0] == Several(vals))
  {
    GetAllOfKey(msg, k);
  }

  // ---- The loops ----

  /** Appending one more single entry extends the appended list. */
  lemma PutSingleStep(m0: HeaderMap, k: Bytes, ts: seq<Bytes>, t: Bytes)
    ensures Put(Put(m0, k, Singles(ts)), k, [Single(t)]) == Put(m0, k, Singles(ts + [t]))
  {
    PutPut(m0, k, Singles(ts), [Single(t)]);
    assert Singles(ts + [t]) == Singles(ts) + [Single(t)];
  }

  /** The pieces of the first `j + 1` values are those of the first `j`,
      then those of value `j`. */
  lemma CookiePiecesStep(values: seq<Bytes>, j: nat)
    requires j < |values|
    ensures CookiePieces(values[..j + 1]) == CookiePieces(values[..j]) + CookieSplit(values[j])
  {
    assert values[..j + 1][..j] == values[..j];
  }

  /** Appending two lists of single texts one after the other. */
  lemma PutSinglesJoin(m0: HeaderMap, k: Bytes, a: seq<Bytes>, b: seq<Bytes>)
    ensures Put(Put(m0, k, Singles(a)), k, Singles(b)) == Put(m0, k, Singles(a + b))
  {
    PutPut(m0, k, Singles(a), Singles(b));
    SinglesAppend(a, b);
  }

  lemma SinglesAppend(a: seq<Bytes>, b: seq<Bytes>)
    ensures Singles(a + b) == Singles(a) + Singles(b)
  {
    var l, r := Singles(a + b), Singles(a) + Singles(b);
    forall i | 0 <= i < |l| ensures l[i] == r[i] {
      if i < |a| {
        assert (a + b)[i] == a[i];
      } else {
        assert (a + b)[i] == b[i - |a|];
      }
    }
  }

  /** The innermost loop for a Cookie name: append each piece of one
      value. */
  method AppendPieces(m0: HeaderMap, k: Bytes, pieces: seq<Bytes>) returns (m: HeaderMap)
    ensures m == Put(m0, k, Singles(pieces))
  {
    m := m0;
    var n := 0;
    while n < |pieces|
      invariant 0 <= n <= |pieces|
      invariant m == Put(m0, k, Singles(pieces[..n]))
    {
      PutSingleStep(m0, k, pieces[..n], pieces[n]);
      assert pieces[..n + 1] == pieces[..n] + [pieces[n]];
      m := Put(m, k, [Single(pieces[n])]);
      n := n + 1;
    }
    assert pieces[..n] == pieces;
  }

  /** The inner loops for a Cookie name: for each value, for each piece,
      append. */
  method AppendCookies(m0: HeaderMap, k: Bytes, values: seq<Bytes>) returns (m: HeaderMap)
    ensures m == Put(m0, k, Singles(CookiePieces(values)))
  {
    m := m0;
    var j := 0;
    while j < |values|
      invariant 0 <= j <= |values|
      invariant m == Put(m0, k, Singles(CookiePieces(values[..j])))
    {
      var pieces := CookieSplit(values[j]);
      m := AppendPieces(m, k, pieces);
      PutSinglesJoin(m0, k, CookiePieces(values[..j]), pieces);
      CookiePiecesStep(values, j);
      j := j + 1;
    }
    assert values[..j] == values;
  }

  /** The inner loop for a Set-Cookie name: for each value, append it with
      spaces removed. */
  method AppendSetCookies(m0: HeaderMap, k: Bytes, values: seq<Bytes>) returns (m: HeaderMap)
    ensures m == Put(m0, k, Singles(StripAll(values)))
  {
    m := m0;
    var j := 0;
    while j < |values|
      invariant 0 <= j <= |values|
      invariant m == Put(m0, k, Singles(StripAll(values[..j])))
    {
      var trimmed := RemoveSpaces(values[j]);
      PutSingleStep(m0, k, StripAll(values[..j]), trimmed);
      assert values[..j + 1][..j] == values[..j];
      assert StripAll(values[..j + 1]) == StripAll(values[..j]) + [trimmed];
      m := Put(m, k, [Single(trimmed)]);
      j := j + 1;
    }
    assert values[..j] == values;
  }

  /** One iteration of the outer loop: the rule for the name `k`. */
  method AppendFor(m0: HeaderMap, msg: seq<Field>, k: Bytes) returns (m: HeaderMap)
    requires k in Keys(msg)
    ensures m == Put(m0, k, Contribution(msg, k))
  {
    var values := GetAll(msg, k);
    GetAllOfKey(msg, k);
    if k == CookieName {
      m := AppendCookies(m0, k, values);
    } else if k == SetCookieName {
      m := AppendSetCookies(m0, k, values);
    } else if |values| > 1 {
      m := Put(m0, k, [Several(values)]);
    } else {
      m := Put(m0, k, [Single(values[0])]);
    }
  }

  /** Visiting the next name of `keys()` applies its rule. */
  lemma ProjectUpToNext(msg: seq<Field>, i: nat, k: Bytes)
    requires i < |msg| && k == Keys(msg)[i]
    ensures k in Keys(msg)
    ensures ProjectUpTo(msg, i + 1) == Put(ProjectUpTo(msg, i), k, Contribution(msg, k))
  {
  }

  /** The outer loop of `set_http_headers`: for each name of `keys()`, apply
      its rule. */
  method CollectHeaders(msg: seq<Field>) returns (m: HeaderMap)
    ensures m == Project(msg)
  {
    var keys := Keys(msg);
    m := [];
    var i := 0;
    while i < |keys|
      invariant 0 <= i <= |keys|
      invariant m == ProjectUpTo(msg, i)
    {
      var k := keys[i];
      ProjectUpToNext(msg, i, k);
      m := AppendFor(m, msg, k);
      i := i + 1;
    }
  }
}
