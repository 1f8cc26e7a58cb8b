/** The line cursor every parser reads through (`io.BytesIO.readline`), and
    the line loops built on it: the header block (up to and including the
    first blank line), a run of non-blank lines, the response body (blank
    lines skipped), and the rest of a buffer. */
module Lines {
  import opened Bytes

  /** A line that ends a header block: a bare CRLF, a bare LF, or the empty
      result `readline()` gives at the end of the buffer. */
  predicate IsBlank(line: Bytes) {
    || |line| == 0
    || (|line| == 1 && line[0] == LF)
    || (|line| == 2 && line[0] == CR && line[1] == LF)
  }

  /** The position just after the line that starts at `p`: after its LF, or
      the end of the buffer when no LF follows. */
  function LineEnd(buf: Bytes, p: nat): (q: nat)
    requires p <= |buf|
    ensures p <= q <= |buf|
    ensures q == p <==> p == |buf|
    ensures forall i :: p <= i < q - 1 ==> buf[i] != LF
    ensures q > p ==> buf[q - 1] == LF || (q == |buf| && buf[q - 1] != LF)
    decreases |buf| - p
  {
    if p == |buf| then p
    else if buf[p] == LF then p + 1
    else LineEnd(buf, p + 1)
  }

  /** What `readline()` returns at position `p`: the line with its LF
      terminator, or `''` at the end of the buffer. */
  function LineAt(buf: Bytes, p: nat): (line: Bytes)
    requires p <= |buf|
    ensures p + |line| <= |buf| && line == buf[p..p + |line|]
    ensures line == [] <==> p == |buf|
    ensures !IsBlank(line) ==> |line| > 0
  {
    buf[p..LineEnd(buf, p)]
  }

  /** The header-block loop: every line up to and including the first blank
      line. */
  function HeaderBlock(buf: Bytes, p: nat): seq<Bytes>
    requires p <= |buf|
    decreases |buf| - p
  {
    var l := LineAt(buf, p);
    if IsBlank(l) then [l] else [l] + HeaderBlock(buf, p + |l|)
  }

  /** Where the cursor stands after the header-block loop. */
  function HeaderBlockEnd(buf: Bytes, p: nat): (q: nat)
    requires p <= |buf|
    ensures p <= q <= |buf|
    decreases |buf| - p
  {
    var l := LineAt(buf, p);
    if IsBlank(l) then p + |l| else HeaderBlockEnd(buf, p + |l|)
  }

  /** The header block is exactly the bytes the loop stepped over, and it
      holds one blank line: its last. */
  lemma {:induction false} HeaderBlockSlice(buf: Bytes, p: nat)
    requires p <= |buf|
    ensures Concat(HeaderBlock(buf, p)) == buf[p..HeaderBlockEnd(buf, p)]
    ensures var b := HeaderBlock(buf, p);
      |b| > 0 && IsBlank(b[|b| - 1]) && forall i :: 0 <= i < |b| - 1 ==> !IsBlank(b[i])
    decreases |buf| - p
  {
    var l := LineAt(buf, p);
    if !IsBlank(l) {
      var q := p + |l|;
      HeaderBlockSlice(buf, q);
      assert buf[p..HeaderBlockEnd(buf, q)] == buf[p..q] + buf[q..HeaderBlockEnd(buf, q)];
      var b := HeaderBlock(buf, p);
      assert b == [l] + HeaderBlock(buf, q);
      forall i | 1 <= i < |b| - 1 ensures !IsBlank(b[i]) {
        assert b[i] == HeaderBlock(buf, q)[i - 1];
      }
    } else {
      assert Concat([l]) == l + Concat([]);
    }
  }

  /** The non-blank lines from `p` up to (not including) the next blank
      line. */
  function NonBlankRun(buf: Bytes, p: nat): seq<Bytes>
    requires p <= |buf|
    decreases |buf| - p
  {
    var l := LineAt(buf, p);
    if IsBlank(l) then [] else [l] + NonBlankRun(buf, p + |l|)
  }

  /** Where the blank line that ends the run starts. */
  function NonBlankRunEnd(buf: Bytes, p: nat): (q: nat)
    requires p <= |buf|
    ensures p <= q <= |buf| && IsBlank(LineAt(buf, q))
    decreases |buf| - p
  {
    var l := LineAt(buf, p);
    if IsBlank(l) then p else NonBlankRunEnd(buf, p + |l|)
  }

  /** The run is exactly the bytes up to its terminating blank line, and holds
      no blank line. */
  lemma {:induction false} NonBlankRunSlice(buf: Bytes, p: nat)
    requires p <= |buf|
    ensures Concat(NonBlankRun(buf, p)) == buf[p..NonBlankRunEnd(buf, p)]
    ensures forall i :: 0 <= i < |NonBlankRun(buf, p)| ==> !IsBlank(NonBlankRun(buf, p)[i])
    decreases |buf| - p
  {
    var l := LineAt(buf, p);
    if !IsBlank(l) {
      var q := p + |l|;
      NonBlankRunSlice(buf, q);
      assert buf[p..NonBlankRunEnd(buf, q)] == buf[p..q] + buf[q..NonBlankRunEnd(buf, q)];
      var r := NonBlankRun(buf, p);
      assert r == [l] + NonBlankRun(buf, q);
      forall i | 1 <= i < |r| ensures !IsBlank(r[i]) {
        assert r[i] == NonBlankRun(buf, q)[i - 1];
      }
    }
  }

  /** The response-body loop: every non-blank line up to the end of the
      buffer; blank lines in between are skipped, not terminators. */
  function BodyLines(buf: Bytes, p: nat): (lines: seq<Bytes>)
    requires p <= |buf|
    ensures forall i :: 0 <= i < |lines| ==> !IsBlank(lines[i])
    decreases |buf| - p
  {
    var l := LineAt(buf, p);
    if l == [] then []
    else if IsBlank(l) then BodyLines(buf, p + |l|)
    else [l] + BodyLines(buf, p + |l|)
  }

  /** One line of a buffer split at its LFs: non-empty, no LF before its
      last byte, and ending in LF unless it is the last line. */
  predicate IsLine(l: Bytes, last: bool) {
    && |l| > 0
    && (forall j :: 0 <= j < |l| - 1 ==> l[j] != LF)
    && (!last ==> l[|l| - 1] == LF)
  }

  /** `ls` is `s` cut into its lines. */
  predicate IsLineSplit(ls: seq<Bytes>, s: Bytes) {
    && Concat(ls) == s
    && forall i :: 0 <= i < |ls| ==> IsLine(ls[i], i == |ls| - 1)
  }

  /** The lines of a list that are not blank, in order. */
  function NonBlank(ls: seq<Bytes>): seq<Bytes> {
    if ls == [] then []
    else if IsBlank(ls[0]) then NonBlank(ls[1..])
    else [ls[0]] + NonBlank(ls[1..])
  }

  /** Every line `readline()` returns from `p` to the end. */
  function RestLines(buf: Bytes, p: nat): seq<Bytes>
    requires p <= |buf|
    decreases |buf| - p
  {
    if p == |buf| then [] else var l := LineAt(buf, p); [l] + RestLines(buf, p + |l|)
  }

  lemma LineSplitCons(l: Bytes, tail: seq<Bytes>, t: Bytes)
    requires IsLine(l, tail == []) && IsLineSplit(tail, t)
    ensures IsLineSplit([l] + tail, l + t)
  {
    var ls := [l] + tail;
    assert ls[1..] == tail;
    assert forall i :: 1 <= i < |ls| ==> ls[i] == tail[i - 1];
  }

  /** The lines `readline()` returns do cut the rest of the buffer into its
      lines. */
  lemma {:induction false} RestLinesSplit(buf: Bytes, p: nat)
    requires p <= |buf|
    ensures IsLineSplit(RestLines(buf, p), buf[p..])
    decreases |buf| - p
  {
    if p < |buf| {
      var l := LineAt(buf, p);
      var q := p + |l|;
      RestLinesSplit(buf, q);
      LineAtIsLine(buf, p);
      assert RestLines(buf, q) == [] <==> q == |buf|;
      assert buf[p..] == l + buf[q..];
      LineSplitCons(l, RestLines(buf, q), buf[q..]);
    }
  }

  lemma LineAtIsLine(buf: Bytes, p: nat)
    requires p < |buf|
    ensures IsLine(LineAt(buf, p), p + |LineAt(buf, p)| == |buf|)
  {
    var l := LineAt(buf, p);
    forall j | 0 <= j < |l| - 1 ensures l[j] != LF { assert l[j] == buf[p + j]; }
  }

  /** A line that starts at `p` and has no LF before its last byte ends
      where `readline()` stops, provided it ends in LF or at the end. */
  lemma {:induction false} LineEndAt(buf: Bytes, p: nat, n: nat)
    requires 0 < n && p + n <= |buf|
    requires forall i :: p <= i < p + n - 1 ==> buf[i] != LF
    requires buf[p + n - 1] == LF || p + n == |buf|
    ensures LineEnd(buf, p) == p + n
    decreases n
  {
    if buf[p] != LF && n > 1 {
      LineEndAt(buf, p + 1, n - 1);
    }
  }

  /** The response-body loop keeps exactly the non-blank lines of the rest
      of the buffer, in order, whatever way of writing it as lines is
      given. */
  lemma BodyLinesOfSplit(buf: Bytes, p: nat, ls: seq<Bytes>)
    requires p <= |buf| && IsLineSplit(ls, buf[p..])
    ensures BodyLines(buf, p) == NonBlank(ls)
  {
    LineSplitUnique(buf, p, ls);
    BodyLinesOfRest(buf, p);
  }

  /** The rest of a buffer has one cut into lines: the one `readline()`
      makes. */
  lemma {:induction false} LineSplitUnique(buf: Bytes, p: nat, ls: seq<Bytes>)
    requires p <= |buf| && IsLineSplit(ls, buf[p..])
    ensures ls == RestLines(buf, p)
    decreases |ls|
  {
    if ls == [] {
      assert buf[p..] == Concat(ls) == [];
    } else {
      var l := ls[0];
      FirstOfLineSplit(buf, p, ls);
      LineSplitUnique(buf, p + |l|, ls[1..]);
      RestLinesCons(buf, p, ls);
    }
  }

  lemma RestLinesCons(buf: Bytes, p: nat, ls: seq<Bytes>)
    requires p < |buf| && ls != [] && LineAt(buf, p) == ls[0]
    requires p + |ls[0]| <= |buf| && ls[1..] == RestLines(buf, p + |ls[0]|)
    ensures ls == RestLines(buf, p)
  {
    assert ls == [ls[0]] + ls[1..];
  }

  lemma {:induction false} BodyLinesOfRest(buf: Bytes, p: nat)
    requires p <= |buf|
    ensures BodyLines(buf, p) == NonBlank(RestLines(buf, p))
    decreases |buf| - p
  {
    if p < |buf| {
      var l := LineAt(buf, p);
      BodyLinesOfRest(buf, p + |l|);
      var rest := RestLines(buf, p);
      assert rest == [l] + RestLines(buf, p + |l|);
      assert rest[0] == l && rest[1..] == RestLines(buf, p + |l|);
      BodyLinesUnfold(buf, p, l);
    }
  }

  lemma BodyLinesUnfold(buf: Bytes, p: nat, l: Bytes)
    requires p <= |buf| && l == LineAt(buf, p) && l != []
    ensures BodyLines(buf, p) == if IsBlank(l) then BodyLines(buf, p + |l|) else [l] + BodyLines(buf, p + |l|)
  {
  }

  /** The first line of a split is what `readline()` returns, and the rest
      of the split is the split of the rest. */
  lemma FirstOfLineSplit(buf: Bytes, p: nat, ls: seq<Bytes>)
    requires p <= |buf| && IsLineSplit(ls, buf[p..]) && ls != []
    ensures LineAt(buf, p) == ls[0] && p < |buf|
    ensures p + |ls[0]| <= |buf| && IsLineSplit(ls[1..], buf[p + |ls[0]|..])
  {
    var l, tail := ls[0], ls[1..];
    var n := |l|;
    assert IsLine(l, |ls| == 1);
    assert Concat(ls) == l + Concat(tail);
    assert buf[p..p + n] == l;
    assert tail != [] ==> Concat(tail) != [] by {
      if tail != [] {
        assert IsLine(tail[0], |tail| == 1);
        assert Concat(tail) == tail[0] + Concat(tail[1..]);
      }
    }
    forall i | p <= i < p + n - 1 ensures buf[i] != LF { assert buf[i] == l[i - p]; }
    LineEndAt(buf, p, n);
    assert buf[p + n..] == Concat(tail);
    assert forall i :: 0 <= i < |tail| ==> tail[i] == ls[i + 1];
  }

  /** A cursor over a byte buffer, as `io.BytesIO` is used by the parsers. */
  class LineCursor {
    const buf: Bytes
    var pos: nat

    ghost predicate Valid()
      reads this
    {
      pos <= |buf|
    }

    constructor (data: Bytes)
      ensures Valid() && buf == data && pos == 0
    {
      buf := data;
      pos := 0;
    }

    /** `readline()`: the bytes up to and including the next LF, or up to
        the end of the buffer; `''` once the buffer is exhausted. */
    method ReadLine() returns (line: Bytes)
      requires Valid()
      modifies this
      ensures Valid()
      ensures line == LineAt(buf, old(pos)) && pos == old(pos) + |line|
    {
      var i := pos;
      while i < |buf| && buf[i] != LF
        invariant pos <= i <= |buf|
        invariant LineEnd(buf, i) == LineEnd(buf, pos)
      {
        i := i + 1;
      }
      if i < |buf| {
        i := i + 1;
      }
      line := buf[pos..i];
      pos := i;
    }
  }

  /** `while True: line = fp.readline(); lines.append(line); if blank: break` */
  method ReadHeaderBlock(fp: LineCursor) returns (lines: seq<Bytes>)
    requires fp.Valid()
    modifies fp
    ensures fp.Valid()
    ensures lines == HeaderBlock(fp.buf, old(fp.pos))
    ensures fp.pos == HeaderBlockEnd(fp.buf, old(fp.pos))
  {
    ghost var start := fp.pos;
    lines := [];
    var done := false;
    while !done
      invariant fp.Valid()
      invariant !done ==> lines + HeaderBlock(fp.buf, fp.pos) == HeaderBlock(fp.buf, start)
      invariant !done ==> HeaderBlockEnd(fp.buf, fp.pos) == HeaderBlockEnd(fp.buf, start)
      invariant done ==> lines == HeaderBlock(fp.buf, start) && fp.pos == HeaderBlockEnd(fp.buf, start)
      decreases |fp.buf| - fp.pos, !done
    {
      lines, done := ReadBlockLine(fp, lines);
    }
  }

  /** One turn of the header-block loop. */
  method ReadBlockLine(fp: LineCursor, lines: seq<Bytes>) returns (lines': seq<Bytes>, done: bool)
    requires fp.Valid()
    modifies fp
    ensures fp.Valid() && old(fp.pos) <= fp.pos
    ensures done ==> lines' == lines + HeaderBlock(fp.buf, old(fp.pos))
    ensures done ==> fp.pos == HeaderBlockEnd(fp.buf, old(fp.pos))
    ensures !done ==> old(fp.pos) < fp.pos
    ensures !done ==> lines' + HeaderBlock(fp.buf, fp.pos) == lines + HeaderBlock(fp.buf, old(fp.pos))
    ensures !done ==> HeaderBlockEnd(fp.buf, fp.pos) == HeaderBlockEnd(fp.buf, old(fp.pos))
  {
    ghost var before := fp.pos;
    var line := fp.ReadLine();
    lines' := lines + [line];
    done := IsBlank(line);
    if done {
      assert HeaderBlock(fp.buf, before) == [line];
    } else {
      assert HeaderBlock(fp.buf, before) == [line] + HeaderBlock(fp.buf, fp.pos);
      SeqAssoc(lines, [line], HeaderBlock(fp.buf, fp.pos));
    }
  }

  /** `while True: line = fp.readline(); if blank: break; lines.append(line)`:
      the non-blank run, with the blank line that ends it consumed and
      returned separately. */
  method ReadNonBlankRun(fp: LineCursor) returns (lines: seq<Bytes>, sep: Bytes)
    requires fp.Valid()
    modifies fp
    ensures fp.Valid()
    ensures lines == NonBlankRun(fp.buf, old(fp.pos))
    ensures sep == LineAt(fp.buf, NonBlankRunEnd(fp.buf, old(fp.pos)))
    ensures fp.pos == NonBlankRunEnd(fp.buf, old(fp.pos)) + |sep|
  {
    ghost var start := fp.pos;
    lines := [];
    var done := false;
    sep := [];
    while !done
      invariant fp.Valid()
      invariant !done ==> lines + NonBlankRun(fp.buf, fp.pos) == NonBlankRun(fp.buf, start)
      invariant !done ==> NonBlankRunEnd(fp.buf, fp.pos) == NonBlankRunEnd(fp.buf, start)
      invariant done ==> lines == NonBlankRun(fp.buf, start)
      invariant done ==> sep == LineAt(fp.buf, NonBlankRunEnd(fp.buf, start))
      invariant done ==> fp.pos == NonBlankRunEnd(fp.buf, start) + |sep|
      decreases |fp.buf| - fp.pos, !done
    {
      lines, sep, done := ReadRunLine(fp, lines);
    }
  }

  /** One turn of the non-blank-run loop. */
  method ReadRunLine(fp: LineCursor, lines: seq<Bytes>) returns (lines': seq<Bytes>, line: Bytes, done: bool)
    requires fp.Valid()
    modifies fp
    ensures fp.Valid() && old(fp.pos) <= fp.pos
    ensures done ==> lines' == lines + NonBlankRun(fp.buf, old(fp.pos))
    ensures done ==> NonBlankRunEnd(fp.buf, old(fp.pos)) == old(fp.pos)
    ensures done ==> line == LineAt(fp.buf, old(fp.pos)) && fp.pos == old(fp.pos) + |line|
    ensures !done ==> old(fp.pos) < fp.pos
    ensures !done ==> lines' + NonBlankRun(fp.buf, fp.pos) == lines + NonBlankRun(fp.buf, old(fp.pos))
    ensures !done ==> NonBlankRunEnd(fp.buf, fp.pos) == NonBlankRunEnd(fp.buf, old(fp.pos))
  {
    ghost var before := fp.pos;
    line := fp.ReadLine();
    done := IsBlank(line);
    if done {
      assert NonBlankRun(fp.buf, before) == [];
      assert lines + [] == lines;
      lines' := lines;
    } else {
      assert NonBlankRun(fp.buf, before) == [line] + NonBlankRun(fp.buf, fp.pos);
      SeqAssoc(lines, [line], NonBlankRun(fp.buf, fp.pos));
      lines' := lines + [line];
    }
  }

  /** The response-body loop: blank lines are skipped, `''` ends it. */
  method ReadBodyLines(fp: LineCursor) returns (lines: seq<Bytes>)
    requires fp.Valid()
    modifies fp
    ensures fp.Valid() && fp.pos == |fp.buf|
    ensures lines == BodyLines(fp.buf, old(fp.pos))
  {
    ghost var start := fp.pos;
    lines := [];
    var done := false;
    while !done
      invariant fp.Valid()
      invariant done ==> fp.pos == |fp.buf| && lines == BodyLines(fp.buf, start)
      invariant !done ==> lines + BodyLines(fp.buf, fp.pos) == BodyLines(fp.buf, start)
      decreases |fp.buf| - fp.pos, !done
    {
      lines, done := ReadBodyLine(fp, lines);
    }
  }

  /** One turn of the response-body loop. */
  method ReadBodyLine(fp: LineCursor, lines: seq<Bytes>) returns (lines': seq<Bytes>, done: bool)
    requires fp.Valid()
    modifies fp
    ensures fp.Valid() && old(fp.pos) <= fp.pos
    ensures done ==> fp.pos == |fp.buf| && lines' == lines + BodyLines(fp.buf, old(fp.pos))
    ensures !done ==> old(fp.pos) < fp.pos
    ensures !done ==> lines' + BodyLines(fp.buf, fp.pos) == lines + BodyLines(fp.buf, old(fp.pos))
  {
    ghost var before := fp.pos;
    var line := fp.ReadLine();
    BodyLinesStep(fp.buf, before, lines);
    lines' := lines;
    done := line == [];
    if !IsBlank(line) {
      lines' := lines + [line];
    }
  }

  /** One turn of the response-body loop, as a step of `BodyLines`. */
  lemma BodyLinesStep(buf: Bytes, p: nat, lines: seq<Bytes>)
    requires p <= |buf|
    ensures var l := LineAt(buf, p);
      && (l == [] ==> lines + BodyLines(buf, p) == lines)
      && (l != [] && IsBlank(l) ==> lines + BodyLines(buf, p) == lines + BodyLines(buf, p + |l|))
      && (!IsBlank(l) ==> lines + BodyLines(buf, p) == (lines + [l]) + BodyLines(buf, p + |l|))
  {
    var l := LineAt(buf, p);
    if l == [] {
      assert lines + [] == lines;
    } else if !IsBlank(l) {
      SeqAssoc(lines, [l], BodyLines(buf, p + |l|));
    }
  }

  /** `while True: line = fp.readline(); lines.append(line); if line == b'':
      break`: everything that is left, the final `''` included. */
  method ReadRest(fp: LineCursor) returns (lines: seq<Bytes>)
    requires fp.Valid()
    modifies fp
    ensures fp.Valid() && fp.pos == |fp.buf|
    ensures Concat(lines) == fp.buf[old(fp.pos)..]
    ensures |lines| > 0 && lines[|lines| - 1] == []
  {
    ghost var start := fp.pos;
    lines := [];
    while true
      invariant fp.Valid() && start <= fp.pos
      invariant Concat(lines) == fp.buf[start..fp.pos]
      decreases |fp.buf| - fp.pos
    {
      ghost var before := fp.pos;
      var line := fp.ReadLine();
      ConcatAppend(lines, line);
      assert fp.buf[start..fp.pos] == fp.buf[start..before] + line;
      lines := lines + [line];
      if line == [] {
        return;
      }
    }
  }
}
