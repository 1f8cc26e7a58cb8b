/** Byte strings as the HTTP parsers read them, and the handful of Python
    string operations they apply: whitespace splitting, joining, splitting on
    one separator, space removal, right-stripping of line terminators and
    decimal integer parsing. A byte is held as a character below 256, so that
    protocol literals such as "GET" read as text. */
module Bytes {

  type Byte = c: char | c as int < 256 witness 'a'
  type Bytes = seq<Byte>

  datatype Option<+T> = None | Some(value: T)

  const LF: Byte := '\n'
  const CR: Byte := '\r'
  const SP: Byte := ' '

  /** Python's `str.isspace` restricted to single bytes: tab, LF, VT, FF, CR,
      the four information separators 0x1C..0x1F, and space. */
  predicate IsSpace(b: Byte) {
    b == SP || (9 <= b as int <= 13) || (28 <= b as int <= 31)
  }

  /** A whitespace-free, non-empty token, as `str.split()` produces. */
  predicate IsToken(t: Bytes) {
    |t| > 0 && forall i :: 0 <= i < |t| ==> !IsSpace(t[i])
  }

  predicate AllSpace(s: Bytes) {
    forall i :: 0 <= i < |s| ==> IsSpace(s[i])
  }

  /** `b''.join(lines)` */
  function Concat(ls: seq<Bytes>): Bytes {
    if ls == [] then [] else ls[0] + Concat(ls[1..])
  }

  lemma SeqAssoc<T>(a: seq<T>, b: seq<T>, c: seq<T>)
    ensures (a + b) + c == a + (b + c)
  {
  }

  lemma SliceThree<T>(s: seq<T>, a: nat, b: nat)
    requires a <= b <= |s|
    ensures s == s[..a] + s[a..b] + s[b..]
  {
  }

  lemma ConcatCons(l: Bytes, tail: seq<Bytes>)
    ensures Concat([l] + tail) == l + Concat(tail)
  {
    assert ([l] + tail)[1..] == tail;
  }

  lemma {:induction false} ConcatAppend(ls: seq<Bytes>, l: Bytes)
    ensures Concat(ls + [l]) == Concat(ls) + l
  {
    if ls == [] {
      assert [] + [l] == [l];
    } else {
      assert (ls + [l])[1..] == ls[1..] + [l];
      ConcatAppend(ls[1..], l);
    }
  }

  lemma {:induction false} ConcatSplit(a: seq<Bytes>, b: seq<Bytes>)
    ensures Concat(a + b) == Concat(a) + Concat(b)
  {
    if a == [] {
      assert [] + b == b;
    } else {
      assert (a + b)[1..] == a[1..] + b;
      ConcatSplit(a[1..], b);
    }
  }

  /** Length of the leading run of non-space bytes. */
  function TokenLen(s: Bytes): (n: nat)
    ensures n <= |s|
    ensures forall i :: 0 <= i < n ==> !IsSpace(s[i])
    ensures n < |s| ==> IsSpace(s[n])
  {
    if s == [] || IsSpace(s[0]) then 0 else 1 + TokenLen(s[1..])
  }

  /** Python's `str.split()` with no argument: the maximal runs of non-space
      bytes, in order; leading and trailing whitespace yields nothing. */
  function Words(s: Bytes): (ws: seq<Bytes>)
    ensures forall i :: 0 <= i < |ws| ==> IsToken(ws[i])
    ensures AllSpace(s) ==> ws == []
    decreases |s|
  {
    if s == [] then []
    else if IsSpace(s[0]) then Words(s[1..])
    else
      var n := TokenLen(s);
      [s[..n]] + Words(s[n..])
  }

  /** `sep.join(ws)` */
  function JoinWith(ws: seq<Bytes>, sep: Bytes): Bytes {
    if ws == [] then []
    else if |ws| == 1 then ws[0]
    else ws[0] + sep + JoinWith(ws[1..], sep)
  }

  lemma {:induction false} WordsSkipsSpace(pad: Bytes, s: Bytes)
    requires AllSpace(pad)
    ensures Words(pad + s) == Words(s)
  {
    if pad != [] {
      assert (pad + s)[0] == pad[0] && IsSpace(pad[0]);
      assert AllSpace(pad[1..]) by {
        forall i | 0 <= i < |pad| - 1 ensures IsSpace(pad[1..][i]) { assert pad[1..][i] == pad[i + 1]; }
      }
      assert (pad + s)[1..] == pad[1..] + s;
      assert Words(pad + s) == Words(pad[1..] + s);
      WordsSkipsSpace(pad[1..], s);
    } else {
      assert pad + s == s;
    }
  }

  lemma {:induction false} TokenLenOfToken(t: Bytes, rest: Bytes)
    requires IsToken(t)
    requires rest == [] || IsSpace(rest[0])
    ensures TokenLen(t + rest) == |t|
    decreases |t|
  {
    if |t| > 1 {
      assert (t + rest)[1..] == t[1..] + rest;
      TokenLenOfToken(t[1..], rest);
    } else {
      assert (t + rest)[1..] == rest;
    }
  }

  /** A token followed by whitespace (or nothing) is the first word. */
  lemma WordsCons(t: Bytes, rest: Bytes)
    requires IsToken(t)
    requires rest == [] || IsSpace(rest[0])
    ensures Words(t + rest) == [t] + Words(rest)
  {
    TokenLenOfToken(t, rest);
    var s := t + rest;
    assert s[..|t|] == t;
    assert s[|t|..] == rest;
  }

  /** Splitting a space-joined list of tokens, padded by whitespace on the
      right, gives the tokens back: the inverse of `' '.join`. */
  lemma {:induction false} WordsOfJoin(ws: seq<Bytes>, pad: Bytes)
    requires forall i :: 0 <= i < |ws| ==> IsToken(ws[i])
    requires AllSpace(pad)
    ensures Words(JoinWith(ws, [SP]) + pad) == ws
  {
    if ws == [] {
      assert JoinWith(ws, [SP]) + pad == pad;
      WordsSkipsSpace(pad, []);
    } else {
      var w, rest := ws[0], ws[1..];
      assert ws == [w] + rest;
      if rest == [] {
        WordsCons(w, pad);
        WordsSkipsSpace(pad, []);
        assert pad + [] == pad;
      } else {
        WordsOfJoin(rest, pad);
        WordsJoinCons(w, rest, pad);
      }
    }
  }

  lemma WordsJoinCons(w: Bytes, rest: seq<Bytes>, pad: Bytes)
    requires IsToken(w) && rest != []
    requires Words(JoinWith(rest, [SP]) + pad) == rest
    ensures Words(JoinWith([w] + rest, [SP]) + pad) == [w] + rest
  {
    var tail := JoinWith(rest, [SP]) + pad;
    assert ([w] + rest)[1..] == rest;
    assert JoinWith([w] + rest, [SP]) == w + [SP] + JoinWith(rest, [SP]);
    assert JoinWith([w] + rest, [SP]) + pad == w + ([SP] + tail);
    WordsCons(w, [SP] + tail);
    WordsSkipsSpace([SP], tail);
  }

  /** The whitespace around and between the words of `s`: one pad before
      each word and one after the last. */
  function Gaps(s: Bytes): (g: seq<Bytes>)
    ensures |g| == |Words(s)| + 1
    decreases |s|
  {
    if s == [] then [[]]
    else if IsSpace(s[0]) then
      var g := Gaps(s[1..]);
      [[s[0]] + g[0]] + g[1..]
    else [[]] + Gaps(s[TokenLen(s)..])
  }

  /** `pads[0] + ws[0] + pads[1] + ... + ws[n-1] + pads[n]` */
  function Weave(pads: seq<Bytes>, ws: seq<Bytes>): Bytes
    requires |pads| == |ws| + 1
  {
    if ws == [] then pads[0] else pads[0] + ws[0] + Weave(pads[1..], ws[1..])
  }

  /** Pads whose words are separated: all whitespace, the inner ones
      non-empty. */
  predicate Separates(pads: seq<Bytes>) {
    && (forall i :: 0 <= i < |pads| ==> AllSpace(pads[i]))
    && (forall i :: 0 < i < |pads| - 1 ==> pads[i] != [])
  }

  lemma WeaveHead(p: Bytes, g: seq<Bytes>, ws: seq<Bytes>)
    requires |g| == |ws| + 1
    ensures Weave([p + g[0]] + g[1..], ws) == p + Weave(g, ws)
  {
    var h := [p + g[0]] + g[1..];
    if ws != [] {
      assert h[1..] == g[1..];
      SeqAssoc(p, g[0], ws[0] + Weave(g[1..], ws[1..]));
      SeqAssoc(p + g[0], ws[0], Weave(g[1..], ws[1..]));
      SeqAssoc(g[0], ws[0], Weave(g[1..], ws[1..]));
    }
  }

  /** `s` is its words interleaved with whitespace pads, the pads between
      two words non-empty: the words are the maximal non-space runs of `s`,
      in order. */
  lemma {:induction false} WordsWeave(s: Bytes)
    ensures Separates(Gaps(s))
    ensures s != [] && IsSpace(s[0]) ==> Gaps(s)[0] != []
    ensures s == Weave(Gaps(s), Words(s))
    decreases |s|
  {
    if s == [] {
    } else if IsSpace(s[0]) {
      WordsWeave(s[1..]);
      WeaveSpaceStep(s);
    } else {
      WordsWeave(s[TokenLen(s)..]);
      WeaveTokenStep(s);
    }
  }

  lemma WeaveSpaceStep(s: Bytes)
    requires s != [] && IsSpace(s[0])
    requires Separates(Gaps(s[1..]))
    requires s[1..] == Weave(Gaps(s[1..]), Words(s[1..]))
    ensures Separates(Gaps(s)) && Gaps(s)[0] != []
    ensures s == Weave(Gaps(s), Words(s))
  {
    var g := Gaps(s[1..]);
    assert Gaps(s) == [[s[0]] + g[0]] + g[1..];
    assert Words(s) == Words(s[1..]);
    SeparatesHead(s[0], g);
    WeaveHead([s[0]], g, Words(s[1..]));
    assert s == [s[0]] + s[1..];
  }

  lemma SeparatesHead(c: Byte, g: seq<Bytes>)
    requires IsSpace(c) && |g| > 0 && Separates(g)
    ensures Separates([[c] + g[0]] + g[1..])
  {
    var p := [c] + g[0];
    var h := [p] + g[1..];
    assert AllSpace(p) by {
      forall i | 0 <= i < |p| ensures IsSpace(p[i]) {
        if i > 0 { assert p[i] == g[0][i - 1]; }
      }
    }
    assert forall i :: 0 < i < |h| ==> h[i] == g[i];
  }

  lemma WeaveTokenStep(s: Bytes)
    requires s != [] && !IsSpace(s[0])
    requires var rest := s[TokenLen(s)..];
      && Separates(Gaps(rest))
      && (rest != [] && IsSpace(rest[0]) ==> Gaps(rest)[0] != [])
      && rest == Weave(Gaps(rest), Words(rest))
    ensures Separates(Gaps(s))
    ensures s == Weave(Gaps(s), Words(s))
  {
    var n := TokenLen(s);
    var rest := s[n..];
    var g, ws := Gaps(rest), Words(rest);
    assert Gaps(s) == [[]] + g;
    assert Words(s) == [s[..n]] + ws;
    SeparatesCons(g, rest);
    WeaveCons(s[..n], g, ws);
    SliceJoin(s, n);
  }

  lemma SliceJoin<T>(s: seq<T>, n: nat)
    requires n <= |s|
    ensures s == s[..n] + s[n..]
  {
  }

  lemma SeparatesCons(g: seq<Bytes>, rest: Bytes)
    requires |g| == |Words(rest)| + 1 && Separates(g)
    requires rest != [] && IsSpace(rest[0]) ==> g[0] != []
    requires rest == [] || IsSpace(rest[0])
    ensures Separates([[]] + g)
  {
    assert |g| > 1 ==> rest != [];
    var h := [[]] + g;
    assert forall i :: 0 < i < |h| ==> h[i] == g[i - 1];
  }

  lemma WeaveCons(w: Bytes, g: seq<Bytes>, ws: seq<Bytes>)
    requires |g| == |ws| + 1
    ensures Weave([[]] + g, [w] + ws) == w + Weave(g, ws)
  {
    var h, v := [[]] + g, [w] + ws;
    assert h[1..] == g && v[1..] == ws;
  }

  /** The converse: any tokens woven with separating pads split back into
      exactly those tokens. */
  lemma {:induction false} WordsOfWeave(pads: seq<Bytes>, ws: seq<Bytes>)
    requires |pads| == |ws| + 1 && Separates(pads)
    requires forall i :: 0 <= i < |ws| ==> IsToken(ws[i])
    ensures Words(Weave(pads, ws)) == ws
  {
    if ws == [] {
      assert pads[0] == pads[0] + [];
      WordsSkipsSpace(pads[0], []);
    } else {
      var p1, w1 := pads[1..], ws[1..];
      assert Separates(p1) by {
        assert forall i :: 0 <= i < |p1| ==> p1[i] == pads[i + 1];
      }
      var r := Weave(p1, w1);
      WordsOfWeave(p1, w1);
      assert r == [] || IsSpace(r[0]) by {
        if w1 != [] {
          assert pads[1] != [] && AllSpace(pads[1]);
          assert r == pads[1] + (w1[0] + Weave(p1[1..], w1[1..]));
        } else {
          assert r == pads[1];
        }
      }
      WordsCons(ws[0], r);
      SeqAssoc(pads[0], ws[0], r);
      WordsSkipsSpace(pads[0], ws[0] + r);
      assert ws == [ws[0]] + w1;
    }
  }

  /** Python's `s.split(d)` for a one-byte separator: always at least one
      piece, none containing `d`. */
  function SplitOn(s: Bytes, d: Byte): (ps: seq<Bytes>)
    ensures |ps| >= 1
    ensures forall i :: 0 <= i < |ps| ==> d !in ps[i]
  {
    if s == [] then [[]]
    else
      var rest := SplitOn(s[1..], d);
      if s[0] == d then [[]] + rest
      else [[s[0]] + rest[0]] + rest[1..]
  }

  /** Joining the pieces of a split with the separator rebuilds the input. */
  lemma {:induction false} JoinSplit(s: Bytes, d: Byte)
    ensures JoinWith(SplitOn(s, d), [d]) == s
  {
    if s != [] {
      var rest := SplitOn(s[1..], d);
      JoinSplit(s[1..], d);
      if s[0] == d {
        assert JoinWith([[]] + rest, [d]) == [] + [d] + JoinWith(rest, [d]);
        assert s == [d] + s[1..];
      } else {
        var ps := [[s[0]] + rest[0]] + rest[1..];
        if |rest| == 1 {
          assert JoinWith(ps, [d]) == [s[0]] + rest[0];
          assert JoinWith(rest, [d]) == rest[0];
        } else {
          assert ps[1..] == rest[1..];
          assert JoinWith(rest, [d]) == rest[0] + [d] + JoinWith(rest[1..], [d]);
        }
        assert s == [s[0]] + s[1..];
      }
    }
  }

  /** `s.replace(" ", "")` */
  function RemoveSpaces(s: Bytes): (r: Bytes)
    ensures SP !in r
    ensures |r| <= |s|
    ensures SP !in s ==> r == s
  {
    if s == [] then []
    else if s[0] == SP then RemoveSpaces(s[1..])
    else [s[0]] + RemoveSpaces(s[1..])
  }

  /** Removing spaces works piece by piece ... */
  lemma {:induction false} RemoveSpacesAppend(a: Bytes, b: Bytes)
    ensures RemoveSpaces(a + b) == RemoveSpaces(a) + RemoveSpaces(b)
  {
    if a != [] {
      assert (a + b)[0] == a[0] && (a + b)[1..] == a[1..] + b;
      RemoveSpacesAppend(a[1..], b);
      if a[0] != SP {
        SeqAssoc([a[0]], RemoveSpaces(a[1..]), RemoveSpaces(b));
      }
    } else {
      assert a + b == b;
    }
  }

  /** ... and keeps every byte other than a space: together, the result is
      the input with its spaces dropped and its other bytes in order. */
  lemma RemoveSpacesByte(c: Byte)
    ensures RemoveSpaces([c]) == if c == SP then [] else [c]
  {
    assert [c][1..] == [];
  }

  /** `s.rstrip('\r\n')`: drop every trailing CR or LF. */
  function RStripCrLf(s: Bytes): (r: Bytes)
    ensures |r| <= |s| && r == s[..|r|]
    ensures r == [] || (r[|r| - 1] != CR && r[|r| - 1] != LF)
    ensures forall i :: |r| <= i < |s| ==> s[i] == CR || s[i] == LF
  {
    if s == [] then []
    else if s[|s| - 1] == CR || s[|s| - 1] == LF then RStripCrLf(s[..|s| - 1])
    else s
  }

  function LowerByte(b: Byte): Byte {
    if 'A' <= b <= 'Z' then (b as int + 32) as char else b
  }

  /** `str.lower()` on ASCII text. */
  function Lower(s: Bytes): (r: Bytes)
    ensures |r| == |s|
  {
    if s == [] then [] else [LowerByte(s[0])] + Lower(s[1..])
  }

  function StartsWith(s: Bytes, prefix: Bytes): bool {
    |prefix| <= |s| && s[..|prefix|] == prefix
  }

  predicate IsDigit(b: Byte) { '0' <= b <= '9' }

  /** The digit strings that Python's `int()` accepts after the sign: digits,
      with single underscores allowed between two digits. */
  predicate WellFormedDigits(s: Bytes) {
    && |s| > 0
    && IsDigit(s[0]) && IsDigit(s[|s| - 1])
    && (forall i :: 0 <= i < |s| ==> IsDigit(s[i]) || s[i] == '_')
    && (forall i :: 0 <= i < |s| - 1 ==> s[i] == '_' ==> s[i + 1] != '_')
  }

  /** The value of a digit string, underscores ignored. */
  function DigitsValue(s: Bytes): nat
    requires forall i :: 0 <= i < |s| ==> IsDigit(s[i]) || s[i] == '_'
  {
    if s == [] then 0
    else if s[|s| - 1] == '_' then DigitsValue(s[..|s| - 1])
    else
      assert IsDigit(s[|s| - 1]);
      DigitsValue(s[..|s| - 1]) * 10 + (s[|s| - 1] as int - '0' as int)
  }

  /** Python's `int(s)` in base 10 on text without surrounding whitespace:
      an optional sign, then well-formed digits; anything else is a
      ValueError (None). Leading zeros are ignored. */
  function ParseInt(s: Bytes): Option<int> {
    if |s| > 0 && (s[0] == '+' || s[0] == '-') then
      var d := s[1..];
      if WellFormedDigits(d) then
        var v: int := if s[0] == '-' then 0 - DigitsValue(d) as int else DigitsValue(d);
        Some(v)
      else None
    else if WellFormedDigits(s) then Some(DigitsValue(s))
    else None
  }

  function DigitByte(d: nat): Byte
    requires d < 10
  {
    ('0' as int + d) as char
  }

  /** The decimal rendering of a natural number, as `str(n)` gives it. */
  function Decimal(n: nat): (r: Bytes)
    ensures |r| > 0
    ensures forall i :: 0 <= i < |r| ==> IsDigit(r[i])
  {
    if n < 10 then [DigitByte(n)] else Decimal(n / 10) + [DigitByte(n % 10)]
  }

  lemma {:induction false} DecimalValue(n: nat)
    ensures DigitsValue(Decimal(n)) == n
  {
    if n >= 10 {
      var r := Decimal(n);
      assert r[..|r| - 1] == Decimal(n / 10);
      DecimalValue(n / 10);
    }
  }

  /** `int(str(n)) == n`: decimal rendering and integer parsing are inverse. */
  lemma ParseDecimal(n: nat)
    ensures ParseInt(Decimal(n)) == Some(n)
  {
    DecimalValue(n);
  }
}
