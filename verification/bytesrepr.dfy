/** `str(b)` of a bytes object, as CPython writes it: `b`, a quote, every
    byte escaped or copied, the quote again. The quote is a double quote
    when the bytes hold a single quote and no double quote, a single quote
    otherwise; the quote in use and the backslash are escaped with a
    backslash, tab, LF and CR by their letters, other bytes below 0x20 or
    from 0x7F on as `\xhh` in lower-case hex, and printable ASCII is
    copied. The inverse reading is `Unrepr`. */
module BytesRepr {
  import opened Bytes

  const BS: Byte := '\\'
  const SQ: Byte := '\''
  const DQ: Byte := '"'

  function HexDigit(n: nat): Byte
    requires n < 16
  {
    if n < 10 then ('0' as int + n) as char else ('a' as int + n - 10) as char
  }

  function HexValue(c: Byte): Option<nat> {
    if '0' <= c <= '9' then Some(c as int - '0' as int)
    else if 'a' <= c <= 'f' then Some(c as int - 'a' as int + 10)
    else None
  }

  lemma HexValueOfDigit(n: nat)
    requires n < 16
    ensures HexValue(HexDigit(n)) == Some(n)
  {
  }

  /** The quote the representation is written with. */
  function Quote(b: Bytes): (q: Byte)
    ensures q == SQ || q == DQ
  {
    if SQ in b && DQ !in b then DQ else SQ
  }

  predicate Printable(c: Byte) {
    0x20 <= c as int < 0x7F
  }

  function EscapeByte(x: Byte, q: Byte): Bytes {
    if x == q || x == BS then [BS, x]
    else if x == '\t' then [BS, 't']
    else if x == '\n' then [BS, 'n']
    else if x == '\r' then [BS, 'r']
    else if !Printable(x) then [BS, 'x', HexDigit(x as int / 16), HexDigit(x as int % 16)]
    else [x]
  }

  function Escape(b: Bytes, q: Byte): Bytes {
    if b == [] then [] else EscapeByte(b[0], q) + Escape(b[1..], q)
  }

  /** `str(b)` for a bytes object `b`. */
  function Repr(b: Bytes): Bytes {
    var q := Quote(b);
    ['b', q] + Escape(b, q) + [q]
  }

  function Prepend(x: Byte, r: Option<Bytes>): Option<Bytes> {
    if r.Some? then Some([x] + r.value) else None
  }

  /** Reads escaped text back into bytes; None when `s` is not the escaped
      form of anything under quote `q`. */
  function Unescape(s: Bytes, q: Byte): Option<Bytes> {
    if s == [] then Some([])
    else if s[0] == BS then
      if |s| < 2 then None
      else if s[1] == 't' then Prepend('\t', Unescape(s[2..], q))
      else if s[1] == 'n' then Prepend('\n', Unescape(s[2..], q))
      else if s[1] == 'r' then Prepend('\r', Unescape(s[2..], q))
      else if s[1] == BS || s[1] == q then Prepend(s[1], Unescape(s[2..], q))
      else if s[1] == 'x' && |s| >= 4 && HexValue(s[2]).Some? && HexValue(s[3]).Some? then
        Prepend((HexValue(s[2]).value * 16 + HexValue(s[3]).value) as char, Unescape(s[4..], q))
      else None
    else if s[0] == q || !Printable(s[0]) then None
    else Prepend(s[0], Unescape(s[1..], q))
  }

  /** Reads a representation `b'...'` or `b"..."` back into its bytes. */
  function Unrepr(r: Bytes): Option<Bytes> {
    if |r| >= 3 && r[0] == 'b' && (r[1] == SQ || r[1] == DQ) && r[|r| - 1] == r[1] then
      Unescape(r[2..|r| - 1], r[1])
    else None
  }

  lemma UnescapeByte(x: Byte, q: Byte, rest: Bytes)
    requires q == SQ || q == DQ
    ensures Unescape(EscapeByte(x, q) + rest, q) == Prepend(x, Unescape(rest, q))
  {
    var e := EscapeByte(x, q);
    var s := e + rest;
    if x == q || x == BS {
      assert s[2..] == rest;
    } else if x == '\t' || x == '\n' || x == '\r' {
      assert s[2..] == rest;
    } else if !Printable(x) {
      var hi, lo := x as int / 16, x as int % 16;
      HexValueOfDigit(hi);
      HexValueOfDigit(lo);
      assert s[4..] == rest;
      assert (hi * 16 + lo) as char == x;
    } else {
      assert s[1..] == rest;
    }
  }

  lemma {:induction false} UnescapeEscape(b: Bytes, q: Byte)
    requires q == SQ || q == DQ
    ensures Unescape(Escape(b, q), q) == Some(b)
  {
    if b != [] {
      UnescapeEscape(b[1..], q);
      UnescapeByte(b[0], q, Escape(b[1..], q));
      assert [b[0]] + b[1..] == b;
    }
  }

  /** Every bytes object is read back from its representation. */
  lemma UnreprRepr(b: Bytes)
    ensures Unrepr(Repr(b)) == Some(b)
  {
    var q := Quote(b);
    var r := Repr(b);
    assert r[2..|r| - 1] == Escape(b, q);
    UnescapeEscape(b, q);
  }

  lemma {:induction false} EscapePrintable(b: Bytes, q: Byte)
    requires Printable(q)
    ensures forall i :: 0 <= i < |Escape(b, q)| ==> Printable(Escape(b, q)[i])
  {
    if b != [] {
      EscapePrintable(b[1..], q);
      var e := EscapeByte(b[0], q);
      var t := Escape(b[1..], q);
      forall i | 0 <= i < |e + t| ensures Printable((e + t)[i]) {
        if i >= |e| {
          assert (e + t)[i] == t[i - |e|];
        }
      }
    }
  }

  /** A representation is printable ASCII only, whatever the bytes. */
  lemma ReprPrintable(b: Bytes)
    ensures forall i :: 0 <= i < |Repr(b)| ==> Printable(Repr(b)[i])
  {
    var q := Quote(b);
    EscapePrintable(b, q);
    var r := Repr(b);
    forall i | 0 <= i < |r| ensures Printable(r[i]) {
      if 2 <= i < |r| - 1 {
        assert r[i] == Escape(b, q)[i - 2];
      }
    }
  }
}
