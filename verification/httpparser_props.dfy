/** What the HTTP parsers promise: the start-line rules by token count and
    by version, the request and response views of a text, and the partition
    a merged capture is cut into. */
module HttpParserProperties {
  import opened Bytes
  import opened Lines
  import MailHeaders
  import opened HttpHeaders
  import opened HttpParser
  import Base64

  /** The request-line rules, by the number of whitespace-separated words:
      none is a blank line (no error recorded); two are a Simple-Request,
      accepted for GET only and then at the default version; three are
      judged by their version word; any other count is a syntax error.
      Every rejection carries code 400 except an unsupported version (505). */
  lemma StartLineRules(raw: Bytes)
    ensures var line := RStripCrLf(raw);
      var ws := Words(line);
      var s := Classify(raw);
      && (s.Blank? <==> ws == [])
      && (|ws| == 1 || |ws| >= 4 ==> s == Rejected(BadRequestSyntax(line)))
      && (|ws| == 2 ==> (s.Accepted? <==> ws[0] == "GET"))
      && (|ws| == 2 && ws[0] == "GET" ==> s == Accepted("GET", ws[1], DefaultRequestVersion))
      && (|ws| == 2 && ws[0] != "GET" ==> s == Rejected(BadSimpleRequestType(ws[0])))
      && (|ws| == 3 ==> (s.Accepted? <==> VersionRejection(ws[2]).None?))
      && (|ws| == 3 && s.Accepted? ==> s == Accepted(ws[0], ws[1], ws[2]))
      && (s.Rejected? ==> ErrorCode(s.error) == (if s.error.InvalidHttpVersion? then 505 else 400))
  {
  }

  /** A rejected request line is answered with 505 exactly when it has
      three words and the third reads `HTTP/a.b` with integers `(a, b)` at
      least `(2, 0)`; every other rejection is answered with 400. */
  lemma RejectionCode(raw: Bytes)
    requires Classify(raw).Rejected?
    ensures var ws := Words(RStripCrLf(raw));
      ErrorCode(Classify(raw).error) == 505 <==>
        && |ws| == 3 && StartsWith(ws[2], "HTTP/")
        && ParseVersionNumber(ws[2][5..]).Some?
        && AtLeast(ParseVersionNumber(ws[2][5..]).value, (2, 0))
    ensures ErrorCode(Classify(raw).error) != 505 ==> ErrorCode(Classify(raw).error) == 400
  {
    var line := RStripCrLf(raw);
    var ws := Words(line);
    if |ws| == 3 {
      assert Classify(raw) == Rejected(VersionRejection(ws[2]).value);
    }
  }

  /** `s.split(d)` of two pieces around a single separator. */
  lemma {:induction false} SplitOnAbsent(s: Bytes, d: Byte)
    requires d !in s
    ensures SplitOn(s, d) == [s]
  {
    if s != [] {
      SplitOnAbsent(s[1..], d);
      assert [s[0]] + s[1..] == s;
    }
  }

  lemma {:induction false} SplitOnPair(a: Bytes, b: Bytes, d: Byte)
    requires d !in a && d !in b
    ensures SplitOn(a + [d] + b, d) == [a, b]
  {
    var s := a + [d] + b;
    if a == [] {
      assert s[1..] == b;
      SplitOnAbsent(b, d);
    } else {
      assert s[1..] == a[1..] + [d] + b;
      SplitOnPair(a[1..], b, d);
      assert [a[0]] + a[1..] == a;
    }
  }

  /** The version word `HTTP/major.minor` written with plain decimals. */
  function VersionWord(major: nat, minor: nat): Bytes {
    "HTTP/" + Decimal(major) + "." + Decimal(minor)
  }

  lemma VersionWordIsToken(major: nat, minor: nat)
    ensures IsToken(VersionWord(major, minor))
    ensures var v := VersionWord(major, minor); IsDigit(v[|v| - 1])
  {
    var v := VersionWord(major, minor);
    var a, b := Decimal(major), Decimal(minor);
    forall i | 0 <= i < |v| ensures !IsSpace(v[i]) {
      if i < 5 {
        assert v[i] == "HTTP/"[i];
      } else if i < 5 + |a| {
        assert v[i] == a[i - 5];
      } else if i == 5 + |a| {
        assert v[i] == '.';
      } else {
        assert v[i] == b[i - 6 - |a|];
      }
    }
    assert v[|v| - 1] == b[|b| - 1];
  }

  /** A version word with decimal numbers is accepted exactly when its
      major number is below 2; otherwise it is refused with 505 quoting the
      number. */
  lemma {:induction false} VersionWordVerdict(major: nat, minor: nat)
    ensures VersionRejection(VersionWord(major, minor)) ==
      if major < 2 then None else Some(InvalidHttpVersion(Decimal(major) + "." + Decimal(minor)))
  {
    var v := VersionWord(major, minor);
    var a, b := Decimal(major), Decimal(minor);
    assert v[..5] == "HTTP/";
    assert v[5..] == a + ['.'] + b;
    assert '.' !in a by {
      forall i | 0 <= i < |a| ensures a[i] != '.' { assert IsDigit(a[i]); }
    }
    assert '.' !in b by {
      forall i | 0 <= i < |b| ensures b[i] != '.' { assert IsDigit(b[i]); }
    }
    SplitOnPair(a, b, '.');
    ParseDecimal(major);
    ParseDecimal(minor);
  }

  /** Three words joined by spaces and ended by CRLF read back as those
      words. */
  lemma {:induction false} ThreeWordLine(w0: Bytes, w1: Bytes, w2: Bytes)
    requires IsToken(w0) && IsToken(w1) && IsToken(w2)
    ensures var line := JoinWith([w0, w1, w2], [SP]);
      && line == w0 + [SP] + w1 + [SP] + w2
      && RStripCrLf(line + MailHeaders.CRLF) == line
      && Words(line) == [w0, w1, w2]
  {
    var ws := [w0, w1, w2];
    var line := JoinWith(ws, [SP]);
    JoinThree(w0, w1, w2);
    assert line[|line| - 1] == w2[|w2| - 1];
    MailHeaders.RStripCrLfOfLine(line);
    WordsOfJoin(ws, []);
    assert line + [] == line;
  }

  lemma JoinThree(w0: Bytes, w1: Bytes, w2: Bytes)
    ensures JoinWith([w0, w1, w2], [SP]) == w0 + [SP] + w1 + [SP] + w2
  {
    var ws := [w0, w1, w2];
    assert ws[1..] == [w1, w2] && ws[1..][1..] == [w2];
    assert JoinWith([w2], [SP]) == w2;
    assert JoinWith([w1, w2], [SP]) == w1 + [SP] + w2;
  }

  /** A full request line `command target HTTP/major.minor` is accepted
      with its three words when the major version is 0 or 1, and refused
      with 505 from version 2 on. */
  lemma {:induction false} FullRequestLine(command: Bytes, target: Bytes, major: nat, minor: nat)
    requires IsToken(command) && IsToken(target)
    ensures var v := VersionWord(major, minor);
      Classify(JoinWith([command, target, v], [SP]) + MailHeaders.CRLF) ==
        if major < 2 then Accepted(command, target, v)
        else Rejected(InvalidHttpVersion(v[5..]))
  {
    var v := VersionWord(major, minor);
    VersionWordIsToken(major, minor);
    ThreeWordLine(command, target, v);
    VersionWordVerdict(major, minor);
    VersionWordNumber(major, minor);
  }

  lemma VersionWordNumber(major: nat, minor: nat)
    ensures VersionWord(major, minor)[5..] == Decimal(major) + "." + Decimal(minor)
  {
  }

  /** `HTTP/a.-b`: the version parts are read with `int()`, which takes a
      sign, and compared as a tuple, so a negative minor number lets major
      version 2 through (`(2, -1)` is below `(2, 0)`). */
  function SignedVersionWord(major: nat, k: nat): Bytes {
    "HTTP/" + Decimal(major) + ".-" + Decimal(k)
  }

  lemma {:induction false} NegativeMinorAccepted(command: Bytes, target: Bytes, major: nat, k: nat)
    requires IsToken(command) && IsToken(target) && k > 0
    ensures var v := SignedVersionWord(major, k);
      Classify(JoinWith([command, target, v], [SP]) + MailHeaders.CRLF) ==
        if major <= 2 then Accepted(command, target, v)
        else Rejected(InvalidHttpVersion(v[5..]))
  {
    var v := SignedVersionWord(major, k);
    SignedVersionIsToken(major, k);
    ThreeWordLine(command, target, v);
    NegativeMinorVerdict(major, k);
  }

  lemma SignedVersionIsToken(major: nat, k: nat)
    ensures IsToken(SignedVersionWord(major, k))
  {
    var v := SignedVersionWord(major, k);
    var a, b := Decimal(major), Decimal(k);
    assert v == "HTTP/" + a + ".-" + b;
    forall i | 0 <= i < |v| ensures !IsSpace(v[i]) {
      if i < 5 {
        assert v[i] == "HTTP/"[i];
      } else if i < 5 + |a| {
        assert v[i] == a[i - 5];
      } else if i < 7 + |a| {
        assert v[i] == ".-"[i - 5 - |a|];
      } else {
        assert v[i] == b[i - 7 - |a|];
      }
    }
  }

  lemma NegativeMinorVerdict(major: nat, k: nat)
    requires k > 0
    ensures var v := SignedVersionWord(major, k);
      VersionRejection(v) == if major <= 2 then None else Some(InvalidHttpVersion(v[5..]))
  {
    var v := SignedVersionWord(major, k);
    var a, b := Decimal(major), ['-'] + Decimal(k);
    assert v[..5] == "HTTP/";
    assert v[5..] == a + ['.'] + b;
    assert '.' !in a by {
      forall i | 0 <= i < |a| ensures a[i] != '.' { assert IsDigit(a[i]); }
    }
    assert '.' !in b by {
      forall i | 0 <= i < |b| ensures b[i] != '.' {
        if i > 0 { assert IsDigit(Decimal(k)[i - 1]); }
      }
    }
    SplitOnPair(a, b, '.');
    ParseDecimal(major);
    ParseNegative(k);
  }

  /** `int("-" + str(k))` is `-k`. */
  lemma ParseNegative(k: nat)
    ensures ParseInt(['-'] + Decimal(k)) == Some(-(k as int))
  {
    var d := Decimal(k);
    ParseDecimal(k);
    assert d[0] != '+' && d[0] != '-' by { assert IsDigit(d[0]); }
    assert (['-'] + d)[1..] == d;
  }

  /** A Simple-Request line `command target` is accepted at HTTP/0.9 for
      GET and refused with 400 for any other command. */
  lemma {:induction false} SimpleRequestLine(command: Bytes, target: Bytes)
    requires IsToken(command) && IsToken(target)
    ensures Classify(JoinWith([command, target], [SP]) + MailHeaders.CRLF) ==
      if command == "GET" then Accepted(command, target, DefaultRequestVersion)
      else Rejected(BadSimpleRequestType(command))
  {
    var ws := [command, target];
    var line := JoinWith(ws, [SP]);
    assert ws[1..] == [target];
    assert JoinWith([target], [SP]) == target;
    assert line == command + [SP] + target;
    assert line[|line| - 1] == target[|target| - 1];
    MailHeaders.RStripCrLfOfLine(line);
    WordsOfJoin(ws, []);
    assert line + [] == line;
  }

  /** The default version word passes the version checks. */
  lemma DefaultVersionAccepted()
    ensures VersionRejection(DefaultRequestVersion) == None
    ensures IsToken(DefaultRequestVersion)
  {
    assert Decimal(0) == "0" && Decimal(9) == "9";
    assert VersionWord(0, 9) == DefaultRequestVersion;
    VersionWordVerdict(0, 9);
    VersionWordIsToken(0, 9);
  }

  /** What `get_request` prints for an accepted line, read again as a
      request line, gets the same verdict: a Simple-Request comes back as
      the equivalent HTTP/0.9 full request. */
  lemma {:induction false} FormatRequestReparses(raw: Bytes)
    requires Classify(raw).Accepted?
    ensures var s := Classify(raw);
      Classify(FormatRequest(Some(s.command), Some(s.path), Some(s.version)) + MailHeaders.CRLF) == s
  {
    var s := Classify(raw);
    var ws := Words(RStripCrLf(raw));
    DefaultVersionAccepted();
    assert IsToken(s.command) && IsToken(s.path) && IsToken(s.version);
    ThreeWordLine(s.command, s.path, s.version);
  }

  /** The request parser's header text is the header block with its first
      line left out: nothing when that line is already blank, otherwise the
      bytes from the second line up to the end of the block. */
  lemma {:induction false} RequestHeaderTextSkipsFirstLine(buf: Bytes, p: nat)
    requires p <= |buf|
    ensures var first := LineAt(buf, p);
      && (IsBlank(first) ==> RequestHeaderText(buf, p) == [])
      && (!IsBlank(first) ==> RequestHeaderText(buf, p) == buf[p + |first|..HeaderBlockEnd(buf, p)])
  {
    var first := LineAt(buf, p);
    if !IsBlank(first) {
      HeaderBlockStep(buf, p);
      var rest := HeaderBlock(buf, p + |first|);
      assert ([first] + rest)[1..] == rest;
      HeaderBlockSlice(buf, p + |first|);
    } else {
      assert HeaderBlock(buf, p)[1..] == [];
    }
  }

  /** The request body is one line: the bytes after the header block up to
      and including the next LF, or to the end of the buffer; '' when the
      block ends the buffer. */
  lemma RequestBodyIsOneLine(buf: Bytes, p: nat)
    requires p <= |buf|
    ensures var e := HeaderBlockEnd(buf, p);
      var b := RequestBody(buf, p);
      && e + |b| <= |buf| && b == buf[e..e + |b|]
      && (b == [] <==> e == |buf|)
      && (forall i :: 0 <= i < |b| - 1 ==> b[i] != LF)
      && (b != [] ==> b[|b| - 1] == LF || e + |b| == |buf|)
  {
    var e := HeaderBlockEnd(buf, p);
    var q := LineEnd(buf, e);
    var b := RequestBody(buf, p);
    assert b == buf[e..q];
    forall i | 0 <= i < |b| - 1 ensures b[i] != LF {
      assert b[i] == buf[e + i];
    }
  }

  /** Reading a line at `p` where the buffer holds `line` ending in its only
      LF returns exactly `line`. */
  lemma LineAtOfLine(buf: Bytes, p: nat, line: Bytes)
    requires 0 < |line| && p + |line| <= |buf| && buf[p..p + |line|] == line
    requires line[|line| - 1] == LF && forall i :: 0 <= i < |line| - 1 ==> line[i] != LF
    ensures LineAt(buf, p) == line
  {
    forall i | p <= i < p + |line| - 1 ensures buf[i] != LF {
      assert buf[i] == line[i - p];
    }
    assert buf[p + |line| - 1] == line[|line| - 1];
    LineEndAt(buf, p, |line|);
  }

  /** A header line of a well-formed field is a line of its own. */
  lemma FieldLineIsLine(f: MailHeaders.Field)
    requires MailHeaders.WellFormedField(f)
    ensures var l := MailHeaders.FieldLine(f);
      0 < |l| && l[|l| - 1] == LF && (forall i :: 0 <= i < |l| - 1 ==> l[i] != LF) && !IsBlank(l)
  {
    MailHeaders.FieldLineBreaks(f);
    var l := MailHeaders.FieldLine(f);
    assert l[0] == f.name[0];
  }

  /** A buffer that holds `x + y` at `p` holds `x` at `p` and `y` after it. */
  lemma SliceSplit(buf: Bytes, p: nat, x: Bytes, y: Bytes)
    requires p + |x + y| <= |buf| && buf[p..p + |x + y|] == x + y
    ensures buf[p..p + |x|] == x && buf[p + |x|..p + |x| + |y|] == y
  {
    assert buf[p..p + |x|] == (x + y)[..|x|];
    assert buf[p + |x|..p + |x| + |y|] == (x + y)[|x|..];
  }

  lemma HeaderBlockStep(buf: Bytes, p: nat)
    requires p <= |buf| && !IsBlank(LineAt(buf, p))
    ensures var l := LineAt(buf, p);
      && HeaderBlock(buf, p) == [l] + HeaderBlock(buf, p + |l|)
      && HeaderBlockEnd(buf, p) == HeaderBlockEnd(buf, p + |l|)
  {
  }

  /** The closing CRLF alone is a header block of one blank line. */
  lemma RenderedEmptyBlock(buf: Bytes, p: nat)
    requires p + 2 <= |buf| && buf[p..p + 2] == MailHeaders.CRLF
    ensures HeaderBlock(buf, p) == [MailHeaders.CRLF]
    ensures HeaderBlockEnd(buf, p) == p + 2
  {
    var crlf := MailHeaders.CRLF;
    LineAtOfLine(buf, p, crlf);
    assert IsBlank(crlf);
  }

  /** A non-blank line ending in its only LF. */
  predicate NonBlankLine(l: Bytes) {
    0 < |l| && l[|l| - 1] == LF && (forall i :: 0 <= i < |l| - 1 ==> l[i] != LF) && !IsBlank(l)
  }

  /** Such a line in front of a header block extends it. */
  lemma LineStartsBlock(buf: Bytes, p: nat, l: Bytes, rest: Bytes)
    requires NonBlankLine(l)
    requires p + |l + rest| <= |buf| && buf[p..p + |l + rest|] == l + rest
    ensures buf[p + |l|..p + |l| + |rest|] == rest
    ensures HeaderBlock(buf, p) == [l] + HeaderBlock(buf, p + |l|)
    ensures HeaderBlockEnd(buf, p) == HeaderBlockEnd(buf, p + |l|)
  {
    SliceSplit(buf, p, l, rest);
    LineAtOfLine(buf, p, l);
    HeaderBlockStep(buf, p);
  }

  /** Every one of `ls` is a line of its own. */
  predicate AllLines(ls: seq<Bytes>) {
    ls == [] || (NonBlankLine(ls[0]) && AllLines(ls[1..]))
  }

  lemma {:induction false} AllLinesOf(ls: seq<Bytes>)
    requires forall i :: 0 <= i < |ls| ==> NonBlankLine(ls[i])
    ensures AllLines(ls)
  {
    if ls != [] {
      var tail := ls[1..];
      assert forall i :: 0 <= i < |tail| ==> tail[i] == ls[i + 1];
      AllLinesOf(tail);
    }
  }

  /** Lines followed by CRLF from `p` on. */
  predicate LinesAt(buf: Bytes, p: nat, ls: seq<Bytes>) {
    var r := Concat(ls) + MailHeaders.CRLF;
    p + |r| <= |buf| && buf[p..p + |r|] == r
  }

  /** What the header-block loop reads from `p` when `ls` and CRLF stand there. */
  predicate BlockOfLines(buf: Bytes, p: nat, ls: seq<Bytes>)
    requires p <= |buf|
  {
    HeaderBlock(buf, p) == ls + [MailHeaders.CRLF] && HeaderBlockEnd(buf, p) == p + |Concat(ls)| + 2
  }

  /** The lines after the first stand right behind it. */
  lemma LinesAtTail(buf: Bytes, p: nat, l: Bytes, tail: seq<Bytes>)
    requires NonBlankLine(l) && LinesAt(buf, p, [l] + tail)
    ensures LinesAt(buf, p + |l|, tail)
    ensures HeaderBlock(buf, p) == [l] + HeaderBlock(buf, p + |l|)
    ensures HeaderBlockEnd(buf, p) == HeaderBlockEnd(buf, p + |l|)
  {
    var crlf := MailHeaders.CRLF;
    var rest := Concat(tail) + crlf;
    ConcatCons(l, tail);
    assert Concat([l] + tail) + crlf == l + rest;
    LineStartsBlock(buf, p, l, rest);
  }

  /** The block read behind the first line, with that line, is the block of
      all the lines. */
  lemma LinesJoin(buf: Bytes, p: nat, l: Bytes, tail: seq<Bytes>)
    requires p + |l| <= |buf|
    requires HeaderBlock(buf, p) == [l] + HeaderBlock(buf, p + |l|)
    requires HeaderBlockEnd(buf, p) == HeaderBlockEnd(buf, p + |l|)
    requires BlockOfLines(buf, p + |l|, tail)
    ensures BlockOfLines(buf, p, [l] + tail)
  {
    var crlf := MailHeaders.CRLF;
    assert [l] + (tail + [crlf]) == ([l] + tail) + [crlf];
    ConcatCons(l, tail);
  }

  /** Lines followed by CRLF, read from `p`, form the whole header block. */
  lemma {:induction false} LinesHeaderBlock(buf: Bytes, p: nat, ls: seq<Bytes>)
    requires AllLines(ls) && LinesAt(buf, p, ls)
    ensures p <= |buf| && BlockOfLines(buf, p, ls)
    decreases |ls|
  {
    if ls == [] {
      RenderedEmptyBlock(buf, p);
    } else {
      var l, tail := ls[0], ls[1..];
      assert ls == [l] + tail;
      LinesAtTail(buf, p, l, tail);
      LinesHeaderBlock(buf, p + |l|, tail);
      LinesJoin(buf, p, l, tail);
    }
  }

  /** A rendered header section, read from `p`, forms the whole header
      block: its field lines and the closing CRLF. */
  lemma RenderedHeaderBlock(buf: Bytes, p: nat, fs: seq<MailHeaders.Field>)
    requires forall i :: 0 <= i < |fs| ==> MailHeaders.WellFormedField(fs[i])
    requires var r := MailHeaders.Render(fs); p + |r| <= |buf| && buf[p..p + |r|] == r
    ensures HeaderBlock(buf, p) == MailHeaders.FieldLines(fs) + [MailHeaders.CRLF]
    ensures HeaderBlockEnd(buf, p) == p + |MailHeaders.Render(fs)|
  {
    var ls := MailHeaders.FieldLines(fs);
    forall i | 0 <= i < |ls| ensures NonBlankLine(ls[i]) {
      FieldLineIsLine(fs[i]);
    }
    AllLinesOf(ls);
    LinesHeaderBlock(buf, p, ls);
  }

  /** A request whose headers are written out as well-formed fields loses
      its first header: the header map the request parser builds is the
      projection of the remaining fields. */
  lemma {:induction false} FirstHeaderDropped(requestLine: Bytes, fs: seq<MailHeaders.Field>, rest: Bytes)
    requires 0 < |requestLine| && requestLine[|requestLine| - 1] == LF
    requires forall i :: 0 <= i < |requestLine| - 1 ==> requestLine[i] != LF
    requires Classify(requestLine).Accepted?
    requires 0 < |fs| && forall i :: 0 <= i < |fs| ==> MailHeaders.WellFormedField(fs[i])
    ensures ParseRequestText(requestLine + MailHeaders.Render(fs) + rest).headerMap == Project(fs[1..])
  {
    var r := MailHeaders.Render(fs);
    var text := requestLine + r + rest;
    var p := |requestLine|;
    assert text[0..|requestLine|] == requestLine;
    LineAtOfLine(text, 0, requestLine);
    assert text[p..p + |r|] == r;
    RenderedHeaderText(text, p, fs);
    MailHeaders.ParseRender(fs[1..]);
  }

  /** Rendered fields at `p`: the header text is every field after the
      first, rendered. */
  lemma RenderedHeaderText(buf: Bytes, p: nat, fs: seq<MailHeaders.Field>)
    requires 0 < |fs| && forall i :: 0 <= i < |fs| ==> MailHeaders.WellFormedField(fs[i])
    requires p + |MailHeaders.Render(fs)| <= |buf| && buf[p..p + |MailHeaders.Render(fs)|] == MailHeaders.Render(fs)
    ensures RequestHeaderText(buf, p) == MailHeaders.Render(fs[1..])
  {
    RenderedHeaderBlock(buf, p, fs);
    var block := HeaderBlock(buf, p);
    assert block[1..] == MailHeaders.FieldLines(fs[1..]) + [MailHeaders.CRLF];
    ConcatSplit(MailHeaders.FieldLines(fs[1..]), [MailHeaders.CRLF]);
    assert Concat([MailHeaders.CRLF]) == MailHeaders.CRLF;
  }

  /** The response status line: with three or more words the version and
      status are the first two, and the reason is the rest joined by single
      spaces (so it splits back into those words); otherwise all three are
      empty. */
  lemma {:induction false} StatusLineRule(text: Bytes, binary: bool)
    ensures var ws := Words(LineAt(text, 0));
      var r := ParseResponseText(text, binary);
      && (|ws| >= 3 ==> r.version == ws[0] && r.status == ws[1] && r.reason == JoinWith(ws[2..], [SP]))
      && (|ws| >= 3 ==> Words(r.reason) == ws[2..])
      && (|ws| < 3 ==> r.version == [] && r.status == [] && r.reason == [])
  {
    var ws := Words(LineAt(text, 0));
    if |ws| >= 3 {
      WordsOfJoin(ws[2..], []);
      assert JoinWith(ws[2..], [SP]) + [] == JoinWith(ws[2..], [SP]);
    }
  }

  /** A status line built from a version, a status and reason words reads
      back as those parts. */
  lemma {:induction false} StatusLineOf(version: Bytes, status: Bytes, reason: seq<Bytes>, rest: Bytes, binary: bool)
    requires IsToken(version) && IsToken(status) && 0 < |reason|
    requires forall i :: 0 <= i < |reason| ==> IsToken(reason[i])
    ensures var text := JoinWith([version, status] + reason, [SP]) + MailHeaders.CRLF + rest;
      var r := ParseResponseText(text, binary);
      r.version == version && r.status == status && r.reason == JoinWith(reason, [SP])
  {
    var ws := [version, status] + reason;
    var line := JoinWith(ws, [SP]) + MailHeaders.CRLF;
    var text := line + rest;
    forall i | 0 <= i < |ws| ensures IsToken(ws[i]) {
      if i >= 2 { assert ws[i] == reason[i - 2]; }
    }
    NoBreakInJoin(ws);
    assert text[0..|line|] == line;
    LineAtOfLine(text, 0, line);
    WordsOfJoin(ws, MailHeaders.CRLF);
    assert ws[2..] == reason;
    StatusLineRule(text, binary);
  }

  /** Tokens joined by spaces hold no line break. */
  lemma {:induction false} NoBreakInJoin(ws: seq<Bytes>)
    requires forall i :: 0 <= i < |ws| ==> IsToken(ws[i])
    ensures forall i :: 0 <= i < |JoinWith(ws, [SP])| ==> JoinWith(ws, [SP])[i] != LF && JoinWith(ws, [SP])[i] != CR
  {
    if |ws| > 1 {
      NoBreakInJoin(ws[1..]);
      var j := JoinWith(ws, [SP]);
      var t := JoinWith(ws[1..], [SP]);
      assert j == ws[0] + [SP] + t;
      forall i | 0 <= i < |j| ensures j[i] != LF && j[i] != CR {
        if i < |ws[0]| {
          assert j[i] == ws[0][i];
        } else if i > |ws[0]| {
          assert j[i] == t[i - |ws[0]| - 1];
        }
      }
    } else if |ws| == 1 {
      assert JoinWith(ws, [SP]) == ws[0];
    }
  }

  /** In binary mode the stored body is the base64 form of the text-mode
      body, so decoding it gives back exactly the non-blank lines after the
      header block. */
  lemma BinaryBodyDecodes(text: Bytes)
    ensures ParseResponseText(text, false).data == ResponseBody(text)
    ensures Base64.Decode(ParseResponseText(text, true).data) == Some(ResponseBody(text))
  {
    Base64.DecodeEncode(ResponseBody(text));
  }

  /** The request part of a split is the text up to the end of the run. */
  lemma SplitRequestPrefix(text: Bytes)
    ensures Split(text).request == text[..RequestEnd(text)]
  {
    var e := HeaderBlockEnd(text, 0);
    var q := RequestEnd(text);
    assert Split(text).request == Concat(HeaderBlock(text, 0)) + Concat(NonBlankRun(text, e));
    HeaderBlockSlice(text, 0);
    NonBlankRunSlice(text, e);
    SliceJoin(text[..q], e);
    assert text[..q][..e] == text[0..e] && text[..q][e..] == text[e..q];
  }

  /** `split_http_traffic` cuts its input into the request part, the blank
      separator line (dropped) and the response part, in that order; the
      request part ends where the run of non-blank lines after the header
      block ends. */
  lemma {:induction false} SplitPartition(text: Bytes)
    ensures var t := Split(text);
      && text == t.request + Separator(text) + t.response
      && t.request == text[..RequestEnd(text)]
      && IsBlank(Separator(text))
  {
    var q := RequestEnd(text);
    SplitRequestPrefix(text);
    var sep := Separator(text);
    assert text[q..q + |sep|] == sep;
    SliceThree(text, q, q + |sep|);
  }

  /** The request part, read as lines, holds one blank line at most: the
      one that ends its header block. */
  lemma {:induction false} SplitRequestLines(text: Bytes)
    ensures var hb := HeaderBlock(text, 0);
      var ls := hb + NonBlankRun(text, HeaderBlockEnd(text, 0));
      && Concat(ls) == Split(text).request
      && forall i :: 0 <= i < |ls| && IsBlank(ls[i]) ==> i == |hb| - 1
  {
    var hb := HeaderBlock(text, 0);
    var run := NonBlankRun(text, HeaderBlockEnd(text, 0));
    ConcatSplit(hb, run);
    HeaderBlockSlice(text, 0);
    NonBlankRunSlice(text, HeaderBlockEnd(text, 0));
    var ls := hb + run;
    forall i | 0 <= i < |ls| && IsBlank(ls[i]) ensures i == |hb| - 1 {
      if i < |hb| {
        assert ls[i] == hb[i];
      }
    }
  }

  /** When the line right after the request's header block is not blank (a
      request without body followed directly by the response), that line,
      typically the response's status line, lies before the end of the
      request part, so (by SplitPartition) it goes to the request side. */
  lemma BodylessRequestKeepsNextLine(text: Bytes)
    requires !IsBlank(LineAt(text, HeaderBlockEnd(text, 0)))
    ensures var e := HeaderBlockEnd(text, 0);
      e + |LineAt(text, e)| <= RequestEnd(text)
  {
    var e := HeaderBlockEnd(text, 0);
    var l := LineAt(text, e);
    assert RequestEnd(text) == NonBlankRunEnd(text, e + |l|);
  }
}
