/** The part of `email.parser.Parser().parsestr` (compat32 policy) that the
    HTTP parsers rely on: the header section of a text, as an ordered list
    of (name, value) fields, with `keys()` and the case-insensitive
    `get_all(name)` of section 2.2 of RFC 5322.

    The text is cut into lines at CRLF, CR or LF (Python's universal
    newlines), each line keeping its terminator. Lines are taken as header
    lines while they match `From |[!-9;-~]*:|[ \t]`; the first line that does
    not (the blank separator, or body text) ends the header section. Among
    the header lines:
    - a line starting with space or tab continues the field before it, and
      is dropped when no field is open;
    - a line starting with "From " (an mbox envelope line) is dropped and
      closes the open field;
    - a line starting with ':' has no name: it is dropped and closes the
      open field;
    - any other line opens a field named by the text before its first ':'.
    A field's value is the text after the colon with leading spaces and
    tabs removed, followed by its continuation lines, with trailing CR and
    LF removed. */
module MailHeaders {
  import opened Bytes

  const TAB: Byte := '\t'

  datatype Field = Field(name: Bytes, value: Bytes)

  /** The length of the first line of `s` (non-empty): up to and including
      its CRLF, CR or LF, or all of `s`. */
  function FirstLineLen(s: Bytes): (n: nat)
    requires s != []
    ensures 0 < n <= |s|
    decreases |s|
  {
    if s[0] == LF then 1
    else if s[0] == CR then (if |s| > 1 && s[1] == LF then 2 else 1)
    else if |s| == 1 then 1
    else 1 + FirstLineLen(s[1..])
  }

  /** The lines of `s`, terminators kept. */
  function MailLines(s: Bytes): (lines: seq<Bytes>)
    ensures Concat(lines) == s
    decreases |s|
  {
    if s == [] then []
    else
      var n := FirstLineLen(s);
      assert s == s[..n] + s[n..];
      [s[..n]] + MailLines(s[n..])
  }

  /** The bytes a header name may hold: printable ASCII except ':'. */
  predicate IsNameByte(b: Byte) {
    (0x21 <= b as int <= 0x39) || (0x3B <= b as int <= 0x7E)
  }

  /** The length of the leading run of name bytes. */
  function NameLen(line: Bytes): (n: nat)
    ensures n <= |line|
    ensures forall i :: 0 <= i < n ==> IsNameByte(line[i])
    ensures n < |line| ==> !IsNameByte(line[n])
  {
    if line == [] || !IsNameByte(line[0]) then 0 else 1 + NameLen(line[1..])
  }

  predicate IsContinuation(line: Bytes) {
    |line| > 0 && (line[0] == SP || line[0] == TAB)
  }

  predicate IsEnvelope(line: Bytes) {
    StartsWith(line, "From ")
  }

  /** A run of name bytes followed by ':' (the run may be empty). Since ':'
      is not a name byte, the colon found is the first in the line. */
  predicate HasFieldName(line: Bytes) {
    NameLen(line) < |line| && line[NameLen(line)] == ':'
  }

  /** The `headerRE` test for a header-section line. */
  predicate IsHeaderLine(line: Bytes) {
    IsEnvelope(line) || IsContinuation(line) || HasFieldName(line)
  }

  /** `s.lstrip(' \t')` */
  function LStripSpTab(s: Bytes): (r: Bytes)
    ensures r == [] || (r[0] != SP && r[0] != TAB)
    ensures |r| <= |s| && r == s[|s| - |r|..]
  {
    if s != [] && (s[0] == SP || s[0] == TAB) then LStripSpTab(s[1..]) else s
  }

  /** The value compat32 builds for a field from its first line (whose colon
      is at `colon`) and its continuation lines. */
  function FieldValue(first: Bytes, colon: nat, conts: seq<Bytes>): Bytes
    requires colon < |first|
  {
    RStripCrLf(LStripSpTab(first[colon + 1..]) + Concat(conts))
  }

  /** The field being collected: its first line and its continuation lines. */
  datatype Open = Closed | Opened(first: Bytes, colon: nat, conts: seq<Bytes>)

  predicate OpenOk(o: Open) {
    o.Opened? ==> o.colon < |o.first|
  }

  function Close(o: Open): (fs: seq<Field>)
    requires OpenOk(o)
    ensures |fs| <= 1
  {
    match o
    case Closed => []
    case Opened(first, colon, conts) => [Field(first[..colon], FieldValue(first, colon, conts))]
  }

  /** The header-section loop and field assembly over the remaining lines. */
  function ParseLines(lines: seq<Bytes>, o: Open): seq<Field>
    requires OpenOk(o)
    decreases |lines|
  {
    if lines == [] || !IsHeaderLine(lines[0]) then Close(o)
    else
      var line := lines[0];
      if IsContinuation(line) then
        ParseLines(lines[1..], if o.Opened? then o.(conts := o.conts + [line]) else o)
      else if IsEnvelope(line) || NameLen(line) == 0 then
        Close(o) + ParseLines(lines[1..], Closed)
      else
        Close(o) + ParseLines(lines[1..], Opened(line, NameLen(line), []))
  }

  /** `email.parser.Parser().parsestr(text)`, headers only. */
  function Parse(text: Bytes): seq<Field> {
    ParseLines(MailLines(text), Closed)
  }

  /** `Message.keys()`: every field name, in order, repeats included. It
      works on parsed fields, while `HttpHeaders.Names` works on the entries
      of the parser's header map, so the two stay separate functions. */
  function Keys(msg: seq<Field>): (ks: seq<Bytes>)
    ensures |ks| == |msg|
    ensures forall i :: 0 <= i < |msg| ==> ks[i] == msg[i].name
  {
    if msg == [] then [] else [msg[0].name] + Keys(msg[1..])
  }

  /** Header names compare without regard to ASCII case. */
  predicate SameName(a: Bytes, b: Bytes) {
    Lower(a) == Lower(b)
  }

  /** `Message.get_all(name)` as a list: the values of every field whose name
      matches, in order (empty where Python returns None). */
  function GetAll(msg: seq<Field>, name: Bytes): (vs: seq<Bytes>)
    ensures |vs| <= |msg|
  {
    if msg == [] then []
    else if SameName(msg[0].name, name) then [msg[0].value] + GetAll(msg[1..], name)
    else GetAll(msg[1..], name)
  }

  /** Every name `keys()` reports has at least one value under `get_all`. */
  lemma {:induction false} GetAllOfKey(msg: seq<Field>, k: Bytes)
    requires k in Keys(msg)
    ensures |GetAll(msg, k)| > 0
  {
    if msg[0].name != k {
      assert k in Keys(msg[1..]) by {
        var i :| 0 <= i < |msg| && Keys(msg)[i] == k;
        assert i > 0 && Keys(msg[1..])[i - 1] == k;
      }
      GetAllOfKey(msg[1..], k);
    }
  }

  /** A name that can be written in a header line: one or more name bytes. */
  predicate WellFormedName(name: Bytes) {
    |name| > 0 && forall i :: 0 <= i < |name| ==> IsNameByte(name[i])
  }

  /** A value that survives the trip through a header line: no line break,
      and no leading space or tab (which the parser strips). */
  predicate WellFormedValue(value: Bytes) {
    && CR !in value && LF !in value
    && (value == [] || (value[0] != SP && value[0] != TAB))
  }

  predicate WellFormedField(f: Field) {
    WellFormedName(f.name) && WellFormedValue(f.value)
  }

  const CRLF: Bytes := [CR, LF]

  /** `Name: value` and CRLF. */
  function FieldLine(f: Field): Bytes {
    f.name + [':', SP] + f.value + CRLF
  }

  function FieldLines(fs: seq<Field>): (ls: seq<Bytes>)
    ensures |ls| == |fs|
    ensures forall i :: 0 <= i < |fs| ==> ls[i] == FieldLine(fs[i])
  {
    if fs == [] then [] else [FieldLine(fs[0])] + FieldLines(fs[1..])
  }

  /** A header section as a sender writes it: one line per field, then the
      blank line. */
  function Render(fs: seq<Field>): Bytes {
    Concat(FieldLines(fs)) + CRLF
  }

  /** A line whose only line break is the CRLF that ends it is one line. */
  lemma {:induction false} FirstLineLenOfLine(line: Bytes, rest: Bytes)
    requires |line| >= 2 && line[|line| - 2] == CR && line[|line| - 1] == LF
    requires forall i :: 0 <= i < |line| - 2 ==> line[i] != CR && line[i] != LF
    ensures FirstLineLen(line + rest) == |line|
    decreases |line|
  {
    if |line| > 2 {
      assert (line + rest)[1..] == line[1..] + rest;
      FirstLineLenOfLine(line[1..], rest);
    }
  }

  /** A field line's only line break is its final CRLF. */
  lemma FieldLineBreaks(f: Field)
    requires WellFormedField(f)
    ensures var line := FieldLine(f);
      && |line| >= 2 && line[|line| - 2] == CR && line[|line| - 1] == LF
      && forall i :: 0 <= i < |line| - 2 ==> line[i] != CR && line[i] != LF
  {
    var line := FieldLine(f);
    forall i | 0 <= i < |line| - 2 ensures line[i] != CR && line[i] != LF {
      if i < |f.name| {
        assert line[i] == f.name[i] && IsNameByte(f.name[i]);
      } else if i >= |f.name| + 2 {
        assert line[i] == f.value[i - |f.name| - 2] && line[i] in f.value;
      }
    }
  }

  /** A line whose only line break is the CRLF that ends it. */
  predicate IsCrLfLine(line: Bytes) {
    && |line| >= 2 && line[|line| - 2] == CR && line[|line| - 1] == LF
    && forall i :: 0 <= i < |line| - 2 ==> line[i] != CR && line[i] != LF
  }

  lemma MailLinesStep(line: Bytes, rest: Bytes)
    requires IsCrLfLine(line)
    ensures MailLines(line + rest) == [line] + MailLines(rest)
  {
    var s := line + rest;
    FirstLineLenOfLine(line, rest);
    assert s[..|line|] == line && s[|line|..] == rest;
  }

  /** Lines that each end in their only CRLF, then a blank line, are cut
      back into those lines. */
  lemma {:induction false} MailLinesOfLines(ls: seq<Bytes>)
    requires forall i :: 0 <= i < |ls| ==> IsCrLfLine(ls[i])
    ensures MailLines(Concat(ls) + CRLF) == ls + [CRLF]
    decreases |ls|
  {
    if ls == [] {
      MailLinesStep(CRLF, []);
      assert Concat(ls) + CRLF == CRLF + [];
      assert MailLines([]) == [];
    } else {
      var l, tail := ls[0], ls[1..];
      assert ls == [l] + tail;
      MailLinesOfLines(tail);
      MailLinesCons(l, tail);
      SeqAssoc([l], tail, [CRLF]);
    }
  }

  lemma MailLinesCons(l: Bytes, tail: seq<Bytes>)
    requires IsCrLfLine(l)
    requires MailLines(Concat(tail) + CRLF) == tail + [CRLF]
    ensures MailLines(Concat([l] + tail) + CRLF) == [l] + (tail + [CRLF])
  {
    var rest := Concat(tail) + CRLF;
    ConcatCons(l, tail);
    SeqAssoc(l, Concat(tail), CRLF);
    MailLinesStep(l, rest);
  }

  lemma MailLinesOfFieldLines(fs: seq<Field>)
    requires forall i :: 0 <= i < |fs| ==> WellFormedField(fs[i])
    ensures MailLines(Render(fs)) == FieldLines(fs) + [CRLF]
  {
    var ls := FieldLines(fs);
    forall i | 0 <= i < |ls| ensures IsCrLfLine(ls[i]) {
      FieldLineBreaks(fs[i]);
    }
    MailLinesOfLines(ls);
  }

  predicate IsBreak(b: Byte) { b == CR || b == LF }

  /** How many bytes end the line: 2 for CRLF, 1 for a lone CR or LF, 0 for
      a last line without a terminator. */
  function TermLen(l: Bytes): (n: nat)
    ensures n <= |l|
  {
    if |l| >= 2 && l[|l| - 2] == CR && l[|l| - 1] == LF then 2
    else if |l| >= 1 && IsBreak(l[|l| - 1]) then 1
    else 0
  }

  /** A line of a mail text: non-empty, its only CR or LF bytes its
      terminator, and terminated unless it is the last line. */
  predicate IsMailLine(l: Bytes, last: bool) {
    && |l| > 0
    && (forall j :: 0 <= j < |l| - TermLen(l) ==> !IsBreak(l[j]))
    && (!last ==> TermLen(l) > 0)
  }

  predicate EndsInCr(l: Bytes) { |l| > 0 && l[|l| - 1] == CR }

  predicate StartsWithLf(l: Bytes) { |l| > 0 && l[0] == LF }

  /** `ls` is `s` cut into its lines: a CR ends a line only when no LF
      follows it, so a CRLF is never split across two lines. */
  predicate IsMailSplit(ls: seq<Bytes>, s: Bytes) {
    && Concat(ls) == s
    && (forall i :: 0 <= i < |ls| ==> IsMailLine(ls[i], i == |ls| - 1))
    && (forall i :: 0 <= i < |ls| - 1 ==> !(EndsInCr(ls[i]) && StartsWithLf(ls[i + 1])))
  }

  /** The first line `MailLines` cuts is a line, and a CR ending it is not
      followed by LF. */
  lemma {:induction false} FirstLineShape(s: Bytes)
    requires s != []
    ensures var n := FirstLineLen(s);
      && IsMailLine(s[..n], n == |s|)
      && (n < |s| && EndsInCr(s[..n]) ==> s[n] != LF)
    decreases |s|
  {
    var n := FirstLineLen(s);
    if !IsBreak(s[0]) && |s| > 1 {
      var t := s[1..];
      FirstLineShape(t);
      var m := FirstLineLen(t);
      assert n == 1 + m;
      assert s[..n] == [s[0]] + t[..m];
      LineCons(s[0], t[..m], m == |t|);
      assert s[n - 1] == t[m - 1];
      assert n < |s| ==> s[n] == t[m];
    }
  }

  /** Prefixing a byte that is no line break keeps a line a line. */
  lemma LineCons(c: Byte, l: Bytes, last: bool)
    requires !IsBreak(c)
    ensures IsMailLine([c] + l, last) <==> (l == [] && last) || IsMailLine(l, last)
    ensures EndsInCr([c] + l) <==> EndsInCr(l)
  {
    var cl := [c] + l;
    assert forall j :: 0 < j < |cl| ==> cl[j] == l[j - 1];
    if |l| > 0 {
      var k := |l| - TermLen(l);
      assert TermLen(cl) == TermLen(l);
      if forall j :: 0 <= j < k ==> !IsBreak(l[j]) {
        forall j | 0 <= j < k + 1 ensures !IsBreak(cl[j]) {
          if j > 0 { assert cl[j] == l[j - 1]; }
        }
      }
      if forall j :: 0 <= j < k + 1 ==> !IsBreak(cl[j]) {
        forall j | 0 <= j < k ensures !IsBreak(l[j]) {
          assert l[j] == cl[j + 1];
        }
      }
    }
  }

  /** `MailLines` cuts a text into its lines. */
  lemma {:induction false} MailLinesShape(s: Bytes)
    ensures IsMailSplit(MailLines(s), s)
    decreases |s|
  {
    if s != [] {
      var n := FirstLineLen(s);
      var l, t := s[..n], s[n..];
      FirstLineShape(s);
      MailLinesShape(t);
      var tail := MailLines(t);
      assert MailLines(s) == [l] + tail;
      assert tail != [] ==> StartsWithLf(tail[0]) == (t[0] == LF) by {
        if tail != [] {
          assert Concat(tail) == tail[0] + Concat(tail[1..]);
          assert IsMailLine(tail[0], |tail| == 1);
        }
      }
      assert tail == [] <==> n == |s| by {
        if t != [] { assert MailLines(t) == [t[..FirstLineLen(t)]] + MailLines(t[FirstLineLen(t)..]); }
      }
      MailSplitCons(l, tail, t);
    }
  }

  lemma MailSplitCons(l: Bytes, tail: seq<Bytes>, t: Bytes)
    requires IsMailLine(l, tail == []) && IsMailSplit(tail, t)
    requires tail != [] ==> !(EndsInCr(l) && StartsWithLf(tail[0]))
    ensures IsMailSplit([l] + tail, l + t)
  {
    var ls := [l] + tail;
    assert ls[1..] == tail;
    assert forall i :: 1 <= i < |ls| ==> ls[i] == tail[i - 1];
  }

  /** A text has only one such cut: any way of writing it as lines is the
      one `MailLines` gives. */
  lemma {:induction false} MailLinesOfSplit(ls: seq<Bytes>, s: Bytes)
    requires IsMailSplit(ls, s)
    ensures MailLines(s) == ls
    decreases |ls|
  {
    if ls != [] {
      var l, tail := ls[0], ls[1..];
      var t := Concat(tail);
      assert s == l + t;
      assert IsMailLine(l, tail == []);
      assert IsMailSplit(tail, t) by {
        assert forall i :: 0 <= i < |tail| ==> tail[i] == ls[i + 1];
      }
      assert tail != [] ==> t != [] && t[0] == tail[0][0] && !(EndsInCr(l) && StartsWithLf(tail[0])) by {
        if tail != [] {
          assert IsMailLine(tail[0], |tail| == 1);
          assert t == tail[0] + Concat(tail[1..]);
        }
      }
      FirstLineLenOf(l, t);
      assert s[..|l|] == l && s[|l|..] == t;
      MailLinesOfSplit(tail, t);
    }
  }

  /** The first line of `l + t` is `l` when `l` is a line that `t` does not
      continue. */
  lemma {:induction false} FirstLineLenOf(l: Bytes, t: Bytes)
    requires IsMailLine(l, t == [])
    requires t != [] ==> !(EndsInCr(l) && t[0] == LF)
    ensures FirstLineLen(l + t) == |l|
    decreases |l|
  {
    var s := l + t;
    assert s[0] == l[0];
    if IsBreak(l[0]) {
      assert |l| <= TermLen(l);
      if |l| == 1 && t != [] {
        assert s[1] == t[0];
      }
    } else {
      if |l| == 1 {
        assert TermLen(l) == 0 && t == [];
      } else {
        LineCons(l[0], l[1..], t == []);
        assert [l[0]] + l[1..] == l;
        assert s[1..] == l[1..] + t;
        FirstLineLenOf(l[1..], t);
      }
    }
  }

  /** A field line opens a field under its own name. */
  lemma FieldLineShape(f: Field)
    requires WellFormedField(f)
    ensures var line := FieldLine(f);
      IsHeaderLine(line) && !IsContinuation(line) && !IsEnvelope(line) && NameLen(line) == |f.name|
  {
    var line := FieldLine(f);
    var n := |f.name|;
    NameLenOfName(f.name, [':', SP] + f.value + CRLF);
    assert line == f.name + ([':', SP] + f.value + CRLF);
    assert line[n] == ':';
    if n >= 5 {
      assert line[4] == f.name[4];
      assert line[..5] != "From " by { assert line[..5][4] != ' '; }
    } else {
      assert line[..5][n] == ':';
      assert line[..5] != "From ";
    }
  }

  lemma {:induction false} NameLenOfName(name: Bytes, rest: Bytes)
    requires forall i :: 0 <= i < |name| ==> IsNameByte(name[i])
    requires rest != [] && rest[0] == ':'
    ensures NameLen(name + rest) == |name|
    decreases |name|
  {
    if name != [] {
      assert (name + rest)[1..] == name[1..] + rest;
      NameLenOfName(name[1..], rest);
    }
  }

  lemma RStripCrLfOfLine(v: Bytes)
    requires v == [] || (v[|v| - 1] != CR && v[|v| - 1] != LF)
    ensures RStripCrLf(v + CRLF) == v
  {
    var t := v + CRLF;
    assert t[..|t| - 1] == v + [CR];
    assert (v + [CR])[..|v|] == v;
  }

  /** The value of a field read back from its own line is the value written. */
  lemma FieldValueOfLine(f: Field)
    requires WellFormedField(f)
    ensures FieldValue(FieldLine(f), |f.name|, []) == f.value
  {
    var line := FieldLine(f);
    var t := f.value + CRLF;
    assert line[|f.name| + 1..] == [SP] + t;
    assert t[0] != SP && t[0] != TAB;
    assert LStripSpTab([SP] + t) == t by {
      assert ([SP] + t)[1..] == t;
    }
    assert t + Concat([]) == t;
    assert f.value == [] || (f.value[|f.value| - 1] != CR && f.value[|f.value| - 1] != LF) by {
      if f.value != [] {
        assert f.value[|f.value| - 1] in f.value;
      }
    }
    RStripCrLfOfLine(f.value);
  }

  /** The blank line ends the header section. */
  lemma BlankEndsSection(rest: seq<Bytes>, o: Open)
    requires OpenOk(o)
    ensures ParseLines([CRLF] + rest, o) == Close(o)
  {
    assert NameLen(CRLF) == 0;
    assert !IsHeaderLine(CRLF);
    assert ([CRLF] + rest)[0] == CRLF;
  }

  /** A field line closes the open field and opens its own. */
  lemma FieldLineStep(f: Field, rest: seq<Bytes>, o: Open)
    requires OpenOk(o) && WellFormedField(f)
    ensures ParseLines([FieldLine(f)] + rest, o)
      == Close(o) + ParseLines(rest, Opened(FieldLine(f), |f.name|, []))
  {
    FieldLineShape(f);
    assert ([FieldLine(f)] + rest)[0] == FieldLine(f);
    assert ([FieldLine(f)] + rest)[1..] == rest;
  }

  /** The field a field line opens is that field. */
  lemma CloseFieldLine(f: Field)
    requires WellFormedField(f)
    ensures Close(Opened(FieldLine(f), |f.name|, [])) == [f]
  {
    FieldValueOfLine(f);
    assert FieldLine(f)[..|f.name|] == f.name;
  }

  lemma {:induction false} ParseFieldLines(fs: seq<Field>, o: Open)
    requires OpenOk(o)
    requires forall i :: 0 <= i < |fs| ==> WellFormedField(fs[i])
    ensures ParseLines(FieldLines(fs) + [CRLF], o) == Close(o) + fs
  {
    if fs == [] {
      assert FieldLines(fs) + [CRLF] == [CRLF] + [];
      BlankEndsSection([], o);
      assert Close(o) + fs == Close(o);
    } else {
      var f := fs[0];
      var rest := FieldLines(fs[1..]) + [CRLF];
      assert FieldLines(fs) + [CRLF] == [FieldLine(f)] + rest;
      FieldLineStep(f, rest, o);
      var next := Opened(FieldLine(f), |f.name|, []);
      FieldLineShape(f);
      ParseFieldLines(fs[1..], next);
      CloseFieldLine(f);
      assert fs == [f] + fs[1..];
    }
  }

  /** Parsing a rendered header section gives back exactly the fields that
      were rendered, in order. */
  lemma ParseRender(fs: seq<Field>)
    requires forall i :: 0 <= i < |fs| ==> WellFormedField(fs[i])
    ensures Parse(Render(fs)) == fs
  {
    MailLinesOfFieldLines(fs);
    ParseFieldLines(fs, Closed);
  }
}
