/** UTF-8 as section 4 of RFC 3629 defines its well-formed byte sequences.
    Text is held as its UTF-8 bytes throughout the model, so decoding bytes
    that are well formed is the identity: `bytes.decode("utf-8")` either
    returns its input or raises UnicodeDecodeError (None), and
    `bytes.decode("utf-8", errors="ignore")` drops each maximal ill-formed
    subpart (the longest prefix of a well-formed sequence, or one byte when
    no sequence starts there) and keeps the rest. */
module Utf8 {
  import opened Bytes

  /** The length of the sequence that lead byte `b` announces; 0 for a byte
      that cannot start one (0x80..0xC1 and 0xF5..0xFF). */
  function SeqLen(b: Byte): (n: nat)
    ensures n <= 4
  {
    var v := b as int;
    if v < 0x80 then 1
    else if 0xC2 <= v <= 0xDF then 2
    else if 0xE0 <= v <= 0xEF then 3
    else if 0xF0 <= v <= 0xF4 then 4
    else 0
  }

  /** Whether `c` is allowed at position `k` (1..3) of the sequence that
      starts with `lead`: the second byte is narrowed after E0, ED, F0 and
      F4 (no overlong forms, no surrogates, nothing above U+10FFFF). */
  predicate ContinuesAt(lead: Byte, k: nat, c: Byte) {
    var l := lead as int;
    var v := c as int;
    if k == 1 && l == 0xE0 then 0xA0 <= v <= 0xBF
    else if k == 1 && l == 0xED then 0x80 <= v <= 0x9F
    else if k == 1 && l == 0xF0 then 0x90 <= v <= 0xBF
    else if k == 1 && l == 0xF4 then 0x80 <= v <= 0x8F
    else 0x80 <= v <= 0xBF
  }

  /** How far, from position `k`, the bytes of `s` continue the sequence of
      length `n` that `s[0]` starts: the first position (at most `n`) whose
      byte is missing or does not fit. */
  function MatchFrom(s: Bytes, n: nat, k: nat): (m: nat)
    requires 1 <= k <= n && k <= |s|
    ensures k <= m <= n && m <= |s|
    ensures forall j :: k <= j < m ==> ContinuesAt(s[0], j, s[j])
    ensures m < n && m < |s| ==> !ContinuesAt(s[0], m, s[m])
    decreases n - k
  {
    if k < n && k < |s| && ContinuesAt(s[0], k, s[k]) then MatchFrom(s, n, k + 1) else k
  }

  /** `s` starts with a complete well-formed sequence (of length
      `SeqLen(s[0])`). */
  predicate StartsWithSequence(s: Bytes) {
    |s| > 0 && SeqLen(s[0]) > 0 && MatchFrom(s, SeqLen(s[0]), 1) == SeqLen(s[0])
  }

  /** Well-formed UTF-8: a concatenation of complete sequences. */
  predicate Valid(s: Bytes)
    decreases |s|
  {
    s == [] || (StartsWithSequence(s) && Valid(s[SeqLen(s[0])..]))
  }

  /** `bytes.decode("utf-8", errors="ignore")` */
  function DecodeLenient(s: Bytes): (r: Bytes)
    ensures |r| <= |s|
    decreases |s|
  {
    if s == [] then []
    else if SeqLen(s[0]) == 0 then DecodeLenient(s[1..])
    else
      var n := SeqLen(s[0]);
      var m := MatchFrom(s, n, 1);
      if m == n then s[..n] + DecodeLenient(s[n..])
      else DecodeLenient(s[m..])
  }

  /** `bytes.decode("utf-8")`: None is UnicodeDecodeError. */
  function Decode(s: Bytes): (r: Option<Bytes>)
    ensures r.Some? <==> Valid(s)
    ensures r.Some? ==> r.value == s
  {
    if Valid(s) then Some(s) else None
  }

  /** MatchFrom reads only the first `n` bytes. */
  lemma {:induction false} MatchFromPrefix(s: Bytes, u: Bytes, n: nat, k: nat)
    requires 1 <= k <= n && n <= |s| && n <= |u| && s[..n] == u[..n]
    ensures MatchFrom(s, n, k) == MatchFrom(u, n, k)
    decreases n - k
  {
    assert s[0] == u[0];
    if k < n {
      assert s[k] == s[..n][k] && u[k] == u[..n][k];
      MatchFromPrefix(s, u, n, k + 1);
    }
  }

  /** A complete sequence in front of well-formed text is well-formed text. */
  lemma {:induction false} ValidPrepend(s: Bytes, t: Bytes)
    requires StartsWithSequence(s) && Valid(t)
    ensures Valid(s[..SeqLen(s[0])] + t)
  {
    var n := SeqLen(s[0]);
    var u := s[..n] + t;
    assert u[..n] == s[..n];
    assert s[..n][..n] == s[..n];
    MatchFromPrefix(s, u, n, 1);
    assert u[n..] == t;
  }

  /** Decoding with errors ignored always yields well-formed text. */
  lemma {:induction false} DecodeLenientValid(s: Bytes)
    ensures Valid(DecodeLenient(s))
    decreases |s|
  {
    if s != [] {
      var n := SeqLen(s[0]);
      if n == 0 {
        DecodeLenientValid(s[1..]);
      } else {
        var m := MatchFrom(s, n, 1);
        if m == n {
          DecodeLenientValid(s[n..]);
          ValidPrepend(s, DecodeLenient(s[n..]));
        } else {
          DecodeLenientValid(s[m..]);
        }
      }
    }
  }

  /** Decoding well-formed text with errors ignored drops nothing. */
  lemma {:induction false} DecodeLenientOfValid(s: Bytes)
    requires Valid(s)
    ensures DecodeLenient(s) == s
    decreases |s|
  {
    if s != [] {
      var n := SeqLen(s[0]);
      DecodeLenientOfValid(s[n..]);
      assert s == s[..n] + s[n..];
    }
  }

  /** Text made only of ASCII bytes is well formed. */
  lemma {:induction false} AsciiValid(s: Bytes)
    requires forall i :: 0 <= i < |s| ==> s[i] as int < 128
    ensures Valid(s)
    decreases |s|
  {
    if s != [] {
      AsciiValid(s[1..]);
    }
  }

  // ---- The encoder of section 3 of RFC 3629 ----

  /** A Unicode scalar value: a code point that is not a surrogate. */
  predicate IsScalar(cp: nat) {
    cp <= 0x10FFFF && !(0xD800 <= cp <= 0xDFFF)
  }

  function ByteOf(v: nat): Byte
    requires v < 256
  {
    v as char
  }

  /** The one to four bytes that encode a scalar value. */
  function EncodeScalar(cp: nat): (e: Bytes)
    requires IsScalar(cp)
    ensures 1 <= |e| <= 4
  {
    if cp < 0x80 then [ByteOf(cp)]
    else if cp < 0x800 then [ByteOf(0xC0 + cp / 0x40), ByteOf(0x80 + cp % 0x40)]
    else if cp < 0x10000 then
      [ByteOf(0xE0 + cp / 0x1000), ByteOf(0x80 + cp / 0x40 % 0x40), ByteOf(0x80 + cp % 0x40)]
    else
      [ByteOf(0xF0 + cp / 0x40000), ByteOf(0x80 + cp / 0x1000 % 0x40),
       ByteOf(0x80 + cp / 0x40 % 0x40), ByteOf(0x80 + cp % 0x40)]
  }

  /** The encoding of a sequence of scalar values. */
  function Encode(cps: seq<nat>): Bytes
    requires forall i :: 0 <= i < |cps| ==> IsScalar(cps[i])
  {
    if cps == [] then [] else EncodeScalar(cps[0]) + Encode(cps[1..])
  }

  /** The encoding of one scalar value is one complete sequence. */
  lemma EncodeScalarSequence(cp: nat)
    requires IsScalar(cp)
    ensures var e := EncodeScalar(cp); StartsWithSequence(e) && SeqLen(e[0]) == |e|
  {
    var e := EncodeScalar(cp);
    if cp < 0x80 {
    } else if cp < 0x800 {
      assert 2 <= cp / 0x40 < 0x20;
      assert MatchFrom(e, 2, 2) == 2;
    } else if cp < 0x10000 {
      EncodeThree(cp);
    } else {
      EncodeFour(cp);
    }
  }

  lemma EncodeThree(cp: nat)
    requires IsScalar(cp) && 0x800 <= cp < 0x10000
    ensures var e := EncodeScalar(cp); StartsWithSequence(e) && SeqLen(e[0]) == |e|
  {
    var e := EncodeScalar(cp);
    var hi, mid := cp / 0x1000, cp / 0x40 % 0x40;
    assert hi < 0x10;
    assert hi == 0 ==> 0x20 <= mid;
    assert hi == 0xD ==> mid < 0x20;
    assert ContinuesAt(e[0], 1, e[1]);
    assert MatchFrom(e, 3, 3) == 3;
    assert MatchFrom(e, 3, 2) == 3;
  }

  lemma EncodeFour(cp: nat)
    requires IsScalar(cp) && 0x10000 <= cp
    ensures var e := EncodeScalar(cp); StartsWithSequence(e) && SeqLen(e[0]) == |e|
  {
    var e := EncodeScalar(cp);
    var hi, mid := cp / 0x40000, cp / 0x1000 % 0x40;
    assert 1 <= cp / 0x1000 < 0x110;
    assert hi <= 4;
    assert hi == 0 ==> 0x10 <= mid;
    assert hi == 4 ==> mid < 0x10;
    assert ContinuesAt(e[0], 1, e[1]);
    assert MatchFrom(e, 4, 4) == 4;
    assert MatchFrom(e, 4, 3) == 4;
    assert MatchFrom(e, 4, 2) == 4;
  }

  /** Whatever scalar values are encoded, strict decoding accepts the
      bytes. */
  lemma {:induction false} EncodeValid(cps: seq<nat>)
    requires forall i :: 0 <= i < |cps| ==> IsScalar(cps[i])
    ensures Valid(Encode(cps))
    ensures Decode(Encode(cps)) == Some(Encode(cps))
  {
    if cps != [] {
      var e := EncodeScalar(cps[0]);
      EncodeValid(cps[1..]);
      EncodeScalarSequence(cps[0]);
      assert e[..SeqLen(e[0])] == e;
      ValidPrepend(e, Encode(cps[1..]));
    }
  }

  // ---- The converse: well-formed text is an encoding ----

  /** The scalar value a complete sequence at the front of `s` encodes. */
  function SequenceValue(s: Bytes): nat
    requires StartsWithSequence(s)
  {
    var n := SeqLen(s[0]);
    if n == 1 then s[0] as int
    else if n == 2 then (s[0] as int - 0xC0) * 0x40 + (s[1] as int - 0x80)
    else if n == 3 then
      (s[0] as int - 0xE0) * 0x1000 + (s[1] as int - 0x80) * 0x40 + (s[2] as int - 0x80)
    else
      (s[0] as int - 0xF0) * 0x40000 + (s[1] as int - 0x80) * 0x1000
      + (s[2] as int - 0x80) * 0x40 + (s[3] as int - 0x80)
  }

  /** A complete sequence encodes a scalar value, and encoding that value
      gives the sequence back. */
  lemma SequenceScalar(s: Bytes)
    requires StartsWithSequence(s)
    ensures IsScalar(SequenceValue(s)) && EncodeScalar(SequenceValue(s)) == s[..SeqLen(s[0])]
  {
    var n := SeqLen(s[0]);
    assert forall j :: 1 <= j < n ==> ContinuesAt(s[0], j, s[j]);
    if n == 2 {
      SequenceTwo(s);
    } else if n == 3 {
      SequenceThree(s);
    } else if n == 4 {
      SequenceFour(s);
    }
  }

  lemma SequenceTwo(s: Bytes)
    requires StartsWithSequence(s) && SeqLen(s[0]) == 2
    requires ContinuesAt(s[0], 1, s[1])
    ensures IsScalar(SequenceValue(s)) && EncodeScalar(SequenceValue(s)) == s[..2]
  {
    var b0, b1 := s[0] as int - 0xC0, s[1] as int - 0x80;
    var cp := SequenceValue(s);
    assert cp == b0 * 0x40 + b1 && 2 <= b0 < 0x20 && 0 <= b1 < 0x40;
    assert cp / 0x40 == b0 && cp % 0x40 == b1;
  }

  lemma SequenceThree(s: Bytes)
    requires StartsWithSequence(s) && SeqLen(s[0]) == 3
    requires ContinuesAt(s[0], 1, s[1]) && ContinuesAt(s[0], 2, s[2])
    ensures IsScalar(SequenceValue(s)) && EncodeScalar(SequenceValue(s)) == s[..3]
  {
    var b0, b1, b2 := s[0] as int - 0xE0, s[1] as int - 0x80, s[2] as int - 0x80;
    var cp := SequenceValue(s);
    assert cp == b0 * 0x1000 + b1 * 0x40 + b2;
    assert 0 <= b0 < 0x10 && 0 <= b1 < 0x40 && 0 <= b2 < 0x40;
    assert b0 == 0 ==> 0x20 <= b1;
    assert b0 == 0xD ==> b1 < 0x20;
    assert cp / 0x40 == b0 * 0x40 + b1 && cp % 0x40 == b2;
    assert cp / 0x1000 == b0 && cp / 0x40 % 0x40 == b1;
  }

  lemma SequenceFour(s: Bytes)
    requires StartsWithSequence(s) && SeqLen(s[0]) == 4
    requires ContinuesAt(s[0], 1, s[1]) && ContinuesAt(s[0], 2, s[2]) && ContinuesAt(s[0], 3, s[3])
    ensures IsScalar(SequenceValue(s)) && EncodeScalar(SequenceValue(s)) == s[..4]
  {
    var b0, b1 := s[0] as int - 0xF0, s[1] as int - 0x80;
    var b2, b3 := s[2] as int - 0x80, s[3] as int - 0x80;
    var cp := SequenceValue(s);
    assert cp == b0 * 0x40000 + b1 * 0x1000 + b2 * 0x40 + b3;
    assert 0 <= b0 <= 4 && 0 <= b1 < 0x40 && 0 <= b2 < 0x40 && 0 <= b3 < 0x40;
    assert b0 == 0 ==> 0x10 <= b1;
    assert b0 == 4 ==> b1 < 0x10;
    assert cp / 0x40 == b0 * 0x1000 + b1 * 0x40 + b2 && cp % 0x40 == b3;
    assert cp / 0x1000 == b0 * 0x40 + b1 && cp / 0x40 % 0x40 == b2;
    assert cp / 0x40000 == b0 && cp / 0x1000 % 0x40 == b1;
  }

  /** The scalar values well-formed text encodes, sequence by sequence. */
  function ScalarsOf(s: Bytes): (cps: seq<nat>)
    requires Valid(s)
    ensures forall i :: 0 <= i < |cps| ==> IsScalar(cps[i])
    decreases |s|
  {
    if s == [] then []
    else
      SequenceScalar(s);
      [SequenceValue(s)] + ScalarsOf(s[SeqLen(s[0])..])
  }

  lemma ScalarsOfCons(s: Bytes)
    requires Valid(s) && s != []
    ensures Valid(s[SeqLen(s[0])..])
    ensures Encode(ScalarsOf(s)) == s[..SeqLen(s[0])] + Encode(ScalarsOf(s[SeqLen(s[0])..]))
  {
    var cps, rest := ScalarsOf(s), ScalarsOf(s[SeqLen(s[0])..]);
    SequenceScalar(s);
    assert cps[0] == SequenceValue(s) && cps[1..] == rest;
  }

  /** Every well-formed text is the encoding of a sequence of scalar
      values; with EncodeValid, `Valid` holds exactly of encodings. */
  lemma {:induction false} ValidIsEncoding(s: Bytes)
    requires Valid(s)
    ensures Encode(ScalarsOf(s)) == s
    decreases |s|
  {
    if s != [] {
      var n := SeqLen(s[0]);
      ScalarsOfCons(s);
      ValidIsEncoding(s[n..]);
      assert s == s[..n] + s[n..];
    }
  }

  /** Strict decoding refuses every overlong form (a lead byte C0 or C1, or
      E0 or F0 followed by too small a second byte), every encoded
      surrogate (ED followed by A0..BF) and every form above U+10FFFF (F4
      followed by 90..BF, or a lead byte F5..FF), whatever follows. */
  lemma RefusesNonScalars(s: Bytes)
    requires s != []
    ensures var l := s[0] as int; l == 0xC0 || l == 0xC1 || l >= 0xF5 ==> !Valid(s)
    ensures |s| >= 2 ==> var l, c := s[0] as int, s[1] as int;
      && (l == 0xE0 && c < 0xA0 ==> !Valid(s))
      && (l == 0xED && c >= 0xA0 ==> !Valid(s))
      && (l == 0xF0 && c < 0x90 ==> !Valid(s))
      && (l == 0xF4 && c >= 0x90 ==> !Valid(s))
  {
    if |s| >= 2 && !ContinuesAt(s[0], 1, s[1]) && SeqLen(s[0]) > 1 {
      assert MatchFrom(s, SeqLen(s[0]), 1) == 1;
    }
  }
}
