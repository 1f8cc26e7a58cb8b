/** Base64 as section 4 of RFC 4648 defines it: `base64.b64encode`, and the
    decoder behind `base64.b64decode` in its default, non-validating mode,
    which skips characters outside the alphabet, stops at a complete padding
    sequence and ignores the spare bits of the last quantum. */
module Base64 {
  import opened Bytes

  /** The character for a 6-bit value (table 1 of RFC 4648). */
  function EncodeChar(v: nat): (c: Byte)
    requires v < 64
    ensures c != '='
  {
    if v < 26 then ('A' as int + v) as char
    else if v < 52 then ('a' as int + v - 26) as char
    else if v < 62 then ('0' as int + v - 52) as char
    else if v == 62 then '+'
    else '/'
  }

  /** The 6-bit value of an alphabet character; 64 for any other byte. */
  function CharValue(c: Byte): (v: nat)
    ensures v <= 64
  {
    if 'A' <= c <= 'Z' then c as int - 'A' as int
    else if 'a' <= c <= 'z' then c as int - 'a' as int + 26
    else if '0' <= c <= '9' then c as int - '0' as int + 52
    else if c == '+' then 62
    else if c == '/' then 63
    else 64
  }

  lemma CharValueOfEncodeChar(v: nat)
    requires v < 64
    ensures CharValue(EncodeChar(v)) == v
  {
  }

  /** One encoded quantum: the `n` (1..3) bytes `x`, `y`, `z` (unused ones
      zero) cut into 6-bit groups, with `=` for each missing byte. */
  function Quantum(x: nat, y: nat, z: nat, n: nat): (q: Bytes)
    requires x < 256 && y < 256 && z < 256 && 1 <= n <= 3
    ensures |q| == 4
  {
    [EncodeChar(x / 4), EncodeChar(x % 4 * 16 + y / 16),
     if n >= 2 then EncodeChar(y % 16 * 4 + z / 64) else '=',
     if n == 3 then EncodeChar(z % 64) else '=']
  }

  /** `base64.b64encode`: every 3 bytes become 4 characters; a final group of
      1 or 2 bytes is padded with `=` to 4 characters. */
  function Encode(b: Bytes): Bytes
    decreases |b|
  {
    if |b| == 0 then []
    else if |b| == 1 then Quantum(b[0] as int, 0, 0, 1)
    else if |b| == 2 then Quantum(b[0] as int, b[1] as int, 0, 2)
    else Quantum(b[0] as int, b[1] as int, b[2] as int, 3) + Encode(b[3..])
  }

  /** Every group of up to three bytes becomes exactly four characters, all
      of them ASCII. */
  lemma {:induction false} EncodeShape(b: Bytes)
    ensures |Encode(b)| == (|b| + 2) / 3 * 4
    ensures forall i :: 0 <= i < |Encode(b)| ==> Encode(b)[i] as int < 128
    decreases |b|
  {
    if |b| > 2 {
      EncodeShape(b[3..]);
      var e := Encode(b);
      assert e[4..] == Encode(b[3..]);
      forall i | 4 <= i < |e| ensures e[i] as int < 128 {
        assert e[i] == Encode(b[3..])[i - 4];
      }
    }
  }

  function Prepend(x: Byte, rest: Option<Bytes>): Option<Bytes> {
    match rest
    case None => None
    case Some(r) => Some([x] + r)
  }

  /** The decoding loop from position `quad` (0..3) of a 4-character quantum,
      with the bits `left` still owed to the next byte and `pads` padding
      characters seen since the last data character. None is the
      "Incorrect padding" error. */
  function DecodeFrom(s: Bytes, quad: nat, left: nat, pads: nat): Option<Bytes>
    requires quad < 4
    requires quad == 1 ==> left < 64
    requires quad == 2 ==> left < 16
    requires quad == 3 ==> left < 4
    decreases |s|
  {
    if s == [] then
      if quad == 0 then Some([]) else None
    else if s[0] == '=' then
      if quad >= 2 && quad + pads + 1 >= 4 then Some([])
      else if quad >= 2 then DecodeFrom(s[1..], quad, left, pads + 1)
      else DecodeFrom(s[1..], quad, left, pads)
    else
      var v := CharValue(s[0]);
      if v == 64 then DecodeFrom(s[1..], quad, left, pads)
      else if quad == 0 then DecodeFrom(s[1..], 1, v, 0)
      else if quad == 1 then Prepend((left * 4 + v / 16) as char, DecodeFrom(s[1..], 2, v % 16, 0))
      else if quad == 2 then Prepend((left * 16 + v / 4) as char, DecodeFrom(s[1..], 3, v % 4, 0))
      else Prepend((left * 64 + v) as char, DecodeFrom(s[1..], 0, 0, 0))
  }

  /** `base64.b64decode(s)` for a text `s`: a non-ASCII character is a
      ValueError, otherwise the non-validating decoding loop decides. */
  function Decode(s: Bytes): Option<Bytes> {
    if exists i :: 0 <= i < |s| && s[i] as int >= 128 then None
    else DecodeFrom(s, 0, 0, 0)
  }

  /** One step of the decoding loop on an alphabet character, at each
      position of the quantum. */
  lemma StepFirst(c: Byte, s: Bytes)
    requires CharValue(c) < 64
    ensures DecodeFrom([c] + s, 0, 0, 0) == DecodeFrom(s, 1, CharValue(c), 0)
  {
    assert ([c] + s)[1..] == s;
  }

  lemma StepSecond(c: Byte, s: Bytes, left: nat, x: Byte, r: Bytes)
    requires left < 64 && CharValue(c) < 64
    requires x as int == left * 4 + CharValue(c) / 16
    requires DecodeFrom(s, 2, CharValue(c) % 16, 0) == Some(r)
    ensures DecodeFrom([c] + s, 1, left, 0) == Some([x] + r)
  {
    assert ([c] + s)[1..] == s;
  }

  lemma StepThird(c: Byte, s: Bytes, left: nat, x: Byte, r: Bytes)
    requires left < 16 && CharValue(c) < 64
    requires x as int == left * 16 + CharValue(c) / 4
    requires DecodeFrom(s, 3, CharValue(c) % 4, 0) == Some(r)
    ensures DecodeFrom([c] + s, 2, left, 0) == Some([x] + r)
  {
    assert ([c] + s)[1..] == s;
  }

  lemma StepFourth(c: Byte, s: Bytes, left: nat, x: Byte, r: Bytes)
    requires left < 4 && CharValue(c) < 64
    requires x as int == left * 64 + CharValue(c)
    requires DecodeFrom(s, 0, 0, 0) == Some(r)
    ensures DecodeFrom([c] + s, 3, left, 0) == Some([x] + r)
  {
    assert ([c] + s)[1..] == s;
  }

  /** A complete padding sequence ends the decoding. */
  lemma PadsEnd(left2: nat, left3: nat)
    requires left2 < 16 && left3 < 4
    ensures DecodeFrom(['=', '='], 2, left2, 0) == Some([])
    ensures DecodeFrom(['='], 3, left3, 0) == Some([])
  {
    assert ['=', '='][1..] == ['='];
  }

  /** The three 6-bit groups a byte triple is cut into put the bytes back
      together. */
  lemma GroupArithmetic(b0: nat, b1: nat, b2: nat)
    requires b0 < 256 && b1 < 256 && b2 < 256
    ensures var v1 := b0 % 4 * 16 + b1 / 16;
      var v2 := b1 % 16 * 4 + b2 / 64;
      && b0 / 4 * 4 + v1 / 16 == b0 && v1 % 16 * 16 + v2 / 4 == b1 && v2 % 4 * 64 + b2 % 64 == b2
      && v1 < 64 && v2 < 64
  {
    var v1 := b0 % 4 * 16 + b1 / 16;
    assert v1 / 16 == b0 % 4 && v1 % 16 == b1 / 16;
    var v2 := b1 % 16 * 4 + b2 / 64;
    assert v2 / 4 == b1 % 16 && v2 % 4 == b2 / 64;
  }

  /** Decoding what `b64encode` produced gives back exactly the input bytes. */
  lemma {:induction false} DecodeEncode(b: Bytes)
    ensures Decode(Encode(b)) == Some(b)
  {
    EncodeShape(b);
    DecodeFromEncode(b);
  }

  lemma {:induction false} DecodeFromEncode(b: Bytes)
    ensures DecodeFrom(Encode(b), 0, 0, 0) == Some(b)
    decreases |b|
  {
    if |b| == 1 {
      DecodeQuantumOne(b[0] as int);
      assert b == [b[0]];
    } else if |b| == 2 {
      DecodeQuantumTwo(b[0] as int, b[1] as int);
      assert b == [b[0], b[1]];
    } else if |b| > 2 {
      DecodeFromEncode(b[3..]);
      DecodeQuantumFull(b[0] as int, b[1] as int, b[2] as int, Encode(b[3..]), b[3..]);
      assert b == [b[0], b[1], b[2]] + b[3..];
    }
  }

  lemma DecodeQuantumOne(x: nat)
    requires x < 256
    ensures DecodeFrom(Quantum(x, 0, 0, 1), 0, 0, 0) == Some([x as char])
  {
    var v0, v1 := x / 4, x % 4 * 16;
    var c0, c1 := EncodeChar(v0), EncodeChar(v1);
    assert Quantum(x, 0, 0, 1) == [c0] + ([c1] + ['=', '=']);
    assert CharValue(c0) == v0 && CharValue(c1) == v1 by {
      CharValueOfEncodeChar(v0);
      CharValueOfEncodeChar(v1);
    }
    assert x == v0 * 4 + v1 / 16 && v1 % 16 == 0 by {
      GroupArithmetic(x, 0, 0);
    }
    PadsEnd(v1 % 16, 0);
    StepSecond(c1, ['=', '='], v0, x as char, []);
    StepFirst(c0, [c1] + ['=', '=']);
    assert [x as char] + [] == [x as char];
  }

  lemma DecodeQuantumTwo(x: nat, y: nat)
    requires x < 256 && y < 256
    ensures DecodeFrom(Quantum(x, y, 0, 2), 0, 0, 0) == Some([x as char, y as char])
  {
    var v0, v1, v2 := x / 4, x % 4 * 16 + y / 16, y % 16 * 4;
    var c0, c1, c2 := EncodeChar(v0), EncodeChar(v1), EncodeChar(v2);
    assert Quantum(x, y, 0, 2) == [c0] + ([c1] + ([c2] + ['=']));
    assert CharValue(c0) == v0 && CharValue(c1) == v1 && CharValue(c2) == v2 by {
      CharValueOfEncodeChar(v0);
      CharValueOfEncodeChar(v1);
      CharValueOfEncodeChar(v2);
    }
    assert x == v0 * 4 + v1 / 16 && y == v1 % 16 * 16 + v2 / 4 by {
      GroupArithmetic(x, y, 0);
    }
    PadsEnd(0, v2 % 4);
    StepThird(c2, ['='], v1 % 16, y as char, []);
    assert [y as char] + [] == [y as char];
    StepSecond(c1, [c2] + ['='], v0, x as char, [y as char]);
    assert [x as char] + [y as char] == [x as char, y as char];
    StepFirst(c0, [c1] + ([c2] + ['=']));
  }

  lemma DecodeQuantumFull(x: nat, y: nat, z: nat, rest: Bytes, tail: Bytes)
    requires x < 256 && y < 256 && z < 256
    requires DecodeFrom(rest, 0, 0, 0) == Some(tail)
    ensures DecodeFrom(Quantum(x, y, z, 3) + rest, 0, 0, 0) == Some([x as char, y as char, z as char] + tail)
  {
    var v0, v1, v2, v3 := x / 4, x % 4 * 16 + y / 16, y % 16 * 4 + z / 64, z % 64;
    var c0, c1, c2, c3 := EncodeChar(v0), EncodeChar(v1), EncodeChar(v2), EncodeChar(v3);
    assert Quantum(x, y, z, 3) + rest == [c0] + ([c1] + ([c2] + ([c3] + rest)));
    assert CharValue(c0) == v0 && CharValue(c1) == v1 && CharValue(c2) == v2 && CharValue(c3) == v3 by {
      CharValueOfEncodeChar(v0);
      CharValueOfEncodeChar(v1);
      CharValueOfEncodeChar(v2);
      CharValueOfEncodeChar(v3);
    }
    assert x == v0 * 4 + v1 / 16 && y == v1 % 16 * 16 + v2 / 4 && z == v2 % 4 * 64 + v3 by {
      GroupArithmetic(x, y, z);
    }
    StepFourth(c3, rest, v2 % 4, z as char, tail);
    StepThird(c2, [c3] + rest, v1 % 16, y as char, [z as char] + tail);
    assert [y as char] + ([z as char] + tail) == [y as char, z as char] + tail;
    StepSecond(c1, [c2] + ([c3] + rest), v0, x as char, [y as char, z as char] + tail);
    StepFirst(c0, [c1] + ([c2] + ([c3] + rest)));
    assert [x as char] + ([y as char, z as char] + tail) == [x as char, y as char, z as char] + tail;
  }
}
