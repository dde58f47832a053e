/** Reading the terminal's cursor position report (section 8.3.14 of ECMA-48,
    CPR: ESC [ line ; column R) and measuring the terminal with it. */
module CursorReport {
  import opened Wrappers
  import opened Decimal
  import opened Esc

  /** A reply longer than this without its terminator is rejected. */
  const MAX_CURSOR_POSITION_REPORT_LENGTH: nat := 1024

  const TERMINATOR: bv8 := 0x52  // 'R'

  /** One step of reading standard input: a byte, or a read error. Running out
      of events is end of input. */
  datatype ReadEvent = Byte(b: bv8) | ReadFailure(e: IoError)

  datatype ReportError =
    | Io(e: IoError)
    | UnexpectedEof
    | TooLong
    | Malformed
    | BadNumber(kind: IntErrorKind)

  /** A byte that neither ends the reply nor fails. */
  predicate Continues(ev: ReadEvent) {
    ev.Byte? && ev.b != TERMINATOR
  }

  /** Index of the last ';' in `chars`, or 0 when there is none. */
  function LastSemicolon(chars: seq<bv8>): (k: nat)
    ensures k == 0 || (k < |chars| && chars[k] == SEMICOLON)
    ensures forall j :: k < j < |chars| ==> chars[j] != SEMICOLON
    decreases |chars|
  {
    if |chars| == 0 then 0
    else if chars[|chars| - 1] == SEMICOLON then |chars| - 1
    else LastSemicolon(chars[..|chars| - 1])
  }

  lemma LastSemicolonSnoc(chars: seq<bv8>, c: bv8)
    ensures LastSemicolon(chars + [c]) == if c == SEMICOLON then |chars| else LastSemicolon(chars)
  {
    assert (chars + [c])[..|chars|] == chars;
  }

  /** The read loop, with `chars` the bytes collected so far and `split` the
      index of their last ';' (0 when none). Bytes are collected up to and
      including the first 'R'. End of input, a read error, or more than 1024
      bytes without an 'R' abort; the 'R' test runs before the length test,
      so the terminator may be byte 1025. */
  function Scan(input: seq<ReadEvent>, chars: seq<bv8>, split: nat): (r: Result<(seq<bv8>, nat), ReportError>)
    requires |chars| <= MAX_CURSOR_POSITION_REPORT_LENGTH && |chars| <= |input|
    requires forall j :: 0 <= j < |chars| ==> Continues(input[j]) && input[j] == Byte(chars[j])
    requires split == LastSemicolon(chars)
    ensures r.Ok? ==> 1 <= |r.value.0| <= MAX_CURSOR_POSITION_REPORT_LENGTH + 1
    ensures r.Ok? ==> |r.value.0| <= |input|
                      && (forall j :: 0 <= j < |r.value.0| ==> input[j] == Byte(r.value.0[j]))
    ensures r.Ok? ==> (forall j :: 0 <= j < |r.value.0| - 1 ==> r.value.0[j] != TERMINATOR)
                      && r.value.0[|r.value.0| - 1] == TERMINATOR
    ensures r.Ok? ==> r.value.1 == LastSemicolon(r.value.0)
    ensures r.Err? ==> r.error.Io? || r.error == UnexpectedEof || r.error == TooLong
    decreases MAX_CURSOR_POSITION_REPORT_LENGTH - |chars|
  {
    var i := |chars|;
    if i == |input| then
      Err(UnexpectedEof)
    else if input[i].ReadFailure? then
      Err(Io(input[i].e))
    else
      var c := input[i].b;
      var grown := chars + [c];
      LastSemicolonSnoc(chars, c);
      var split' := if c == SEMICOLON then i else split;
      if c == TERMINATOR then
        assert forall j :: 0 <= j < i ==> grown[j] == chars[j] && Continues(input[j]);
        Ok((grown, split'))
      else if |grown| > MAX_CURSOR_POSITION_REPORT_LENGTH then
        Err(TooLong)
      else
        Scan(input, grown, split')
  }

  /** The whole read loop, from no bytes collected. */
  function ReadReply(input: seq<ReadEvent>): Result<(seq<bv8>, nat), ReportError> {
    Scan(input, [], 0)
  }

  /** How the read loop fails: end of input before any 'R' within the cap,
      1025 bytes without an 'R', or the first read error within the cap. */
  lemma {:induction false} ScanErrors(input: seq<ReadEvent>, chars: seq<bv8>, split: nat)
    requires |chars| <= MAX_CURSOR_POSITION_REPORT_LENGTH && |chars| <= |input|
    requires forall j :: 0 <= j < |chars| ==> Continues(input[j]) && input[j] == Byte(chars[j])
    requires split == LastSemicolon(chars)
    ensures Scan(input, chars, split) == Err(UnexpectedEof) <==>
              |input| <= MAX_CURSOR_POSITION_REPORT_LENGTH
              && forall j :: 0 <= j < |input| ==> Continues(input[j])
    ensures Scan(input, chars, split) == Err(TooLong) <==>
              |input| > MAX_CURSOR_POSITION_REPORT_LENGTH
              && forall j :: 0 <= j <= MAX_CURSOR_POSITION_REPORT_LENGTH ==> Continues(input[j])
    ensures Scan(input, chars, split).Err? && Scan(input, chars, split).error.Io? ==>
              exists k :: 0 <= k <= MAX_CURSOR_POSITION_REPORT_LENGTH && k < |input|
                          && input[k] == ReadFailure(Scan(input, chars, split).error.e)
                          && forall j :: 0 <= j < k ==> Continues(input[j])
    decreases MAX_CURSOR_POSITION_REPORT_LENGTH - |chars|
  {
    var i := |chars|;
    if i < |input| && input[i].Byte? {
      var c := input[i].b;
      var grown := chars + [c];
      assert grown[..i] == chars;
      var split' := if c == SEMICOLON then i else split;
      if c != TERMINATOR && |grown| <= MAX_CURSOR_POSITION_REPORT_LENGTH {
        ScanErrors(input, grown, split');
      }
    }
  }

  /** Bytes up to and including the first 'R', within the cap, are read as
      the reply, whatever follows them. */
  lemma {:induction false} ScanToTerminator(input: seq<ReadEvent>, chars: seq<bv8>, split: nat, reply: seq<bv8>)
    requires |chars| <= MAX_CURSOR_POSITION_REPORT_LENGTH && |chars| <= |input|
    requires forall j :: 0 <= j < |chars| ==> Continues(input[j]) && input[j] == Byte(chars[j])
    requires split == LastSemicolon(chars)
    requires |chars| < |reply| <= MAX_CURSOR_POSITION_REPORT_LENGTH + 1 && |reply| <= |input|
    requires reply[..|chars|] == chars
    requires forall j :: 0 <= j < |reply| ==> input[j] == Byte(reply[j])
    requires reply[|reply| - 1] == TERMINATOR
    requires forall j :: 0 <= j < |reply| - 1 ==> reply[j] != TERMINATOR
    ensures Scan(input, chars, split) == Ok((reply, LastSemicolon(reply)))
    decreases MAX_CURSOR_POSITION_REPORT_LENGTH - |chars|
  {
    var i := |chars|;
    var c := input[i].b;
    assert c == reply[i];
    var grown := chars + [c];
    assert grown[..i] == chars;
    assert grown == reply[..i + 1];
    var split' := if c == SEMICOLON then i else split;
    if c == TERMINATOR {
      assert grown == reply;
    } else {
      ScanToTerminator(input, grown, split', reply);
    }
  }

  /** The checks after the loop and the two `parse` calls: a ';' was seen, at
      least six bytes, ESC and '[' first, 'R' last; then the line is the text
      between '[' and the split, the column the text after it. */
  function ParseReply(chars: seq<bv8>, split: nat): (r: Result<(nat, nat), ReportError>)
    requires split < |chars|
    requires split > 0 ==> chars[split] == SEMICOLON
    ensures r.Ok? ==> split >= 2 && |chars| >= 6 && chars[0] == ESC && chars[1] == LEFT_BRACKET
                      && chars[|chars| - 1] == TERMINATOR
    ensures r.Ok? ==> ParseUsize(chars[2..split]) == Ok(r.value.0)
                      && ParseUsize(chars[split + 1..|chars| - 1]) == Ok(r.value.1)
    ensures r.Ok? ==> r.value.0 <= USIZE_MAX && r.value.1 <= USIZE_MAX
    ensures r.Err? ==> r.error == Malformed || r.error.BadNumber?
  {
    if split == 0 || |chars| < 6 || chars[0] != ESC || chars[1] != LEFT_BRACKET
       || chars[|chars| - 1] != TERMINATOR
    then
      Err(Malformed)
    else
      match ParseUsize(chars[2..split])
      case Err(k) => Err(BadNumber(k))
      case Ok(line) =>
        match ParseUsize(chars[split + 1..|chars| - 1])
        case Err(k) => Err(BadNumber(k))
        case Ok(column) => Ok((line, column))
  }

  /** `get_cursor_position`: send DSR 6, flush, read the reply and parse it.
      Returns the sink after the writes and the result. */
  function GetCursorPosition(out: Sink, input: seq<ReadEvent>): (res: (Sink, Result<(nat, nat), ReportError>))
    ensures out.writeFault.Some? ==> res == (out, Err(Io(out.writeFault.value)))
    ensures out.writeFault.None? ==> res.0.written == out.written + CursorPositionReport()
    ensures out.writeFault.None? && out.flushFault.Some? ==> res.1 == Err(Io(out.flushFault.value))
    ensures out.writeFault.None? && out.flushFault.None? && ReadReply(input).Err? ==>
              res.1 == Err(ReadReply(input).error)
    ensures res.1.Ok? ==> res.1.value.0 <= USIZE_MAX && res.1.value.1 <= USIZE_MAX
  {
    match ApplyWrite(out, CursorPositionReport())
    case Err(e) => (out, Err(Io(e)))
    case Ok(w) =>
      match Flush(w)
      case Err(e) => (w, Err(Io(e)))
      case Ok(_) =>
        match ReadReply(input)
        case Err(e) => (w, Err(e))
        case Ok((chars, split)) => (w, ParseReply(chars, split))
  }

  /** The reply a terminal sends for a cursor at (line, column). */
  function Report(line: nat, column: nat): seq<bv8> {
    EscapeSequence(CoordinatePair(line, column) + [TERMINATOR])
  }

  function AsEvents(bytes: seq<bv8>): (evs: seq<ReadEvent>)
    ensures |evs| == |bytes|
  {
    seq(|bytes|, i requires 0 <= i < |bytes| => Byte(bytes[i]))
  }

  lemma RenderHasNoDelimiter(n: nat)
    ensures forall i :: 0 <= i < |Render(n)| ==> Render(n)[i] != SEMICOLON && Render(n)[i] != TERMINATOR
  {
    var d := Render(n);
    forall i | 0 <= i < |d|
      ensures d[i] != SEMICOLON && d[i] != TERMINATOR
    {
      assert IsDigit(d[i]);
    }
  }

  /** A ';' with none after it is the one `LastSemicolon` finds. */
  lemma {:induction false} LastSemicolonIs(chars: seq<bv8>, k: nat)
    requires k < |chars| && chars[k] == SEMICOLON
    requires forall j :: k < j < |chars| ==> chars[j] != SEMICOLON
    ensures LastSemicolon(chars) == k
    decreases |chars|
  {
    if k < |chars| - 1 {
      LastSemicolonIs(chars[..|chars| - 1], k);
    }
  }

  /** The bytes of a report, laid out field by field. */
  lemma ReportLayout(line: nat, column: nat)
    ensures Report(line, column)
            == [ESC, LEFT_BRACKET] + Render(line) + [SEMICOLON] + Render(column) + [TERMINATOR]
  {
  }

  /** The bytes ESC [ l ; c R for digit strings l and c. */
  function Frame(l: seq<bv8>, c: seq<bv8>): seq<bv8> {
    [ESC, LEFT_BRACKET] + l + [SEMICOLON] + c + [TERMINATOR]
  }

  /** The framing checks accept ESC [ l ; c R for non-empty digit strings and
      split it at the ';' between them. */
  lemma ParseFrame(l: seq<bv8>, c: seq<bv8>)
    requires 1 <= |l| && 1 <= |c| && AllDigits(l) && AllDigits(c)
    ensures var f := Frame(l, c);
            ParseReply(f, LastSemicolon(f)).Ok? <==> ParseUsize(l).Ok? && ParseUsize(c).Ok?
    ensures var f := Frame(l, c);
            ParseReply(f, LastSemicolon(f)).Ok? ==>
              ParseReply(f, LastSemicolon(f)).value == (ParseUsize(l).value, ParseUsize(c).value)
  {
    var f := Frame(l, c);
    var split := 2 + |l|;
    assert f[split] == SEMICOLON;
    forall j | split < j < |f|
      ensures f[j] != SEMICOLON
    {
      if j < |f| - 1 {
        assert f[j] == c[j - split - 1];
        assert IsDigit(c[j - split - 1]);
      }
    }
    LastSemicolonIs(f, split);
    assert f[2..split] == l;
    assert f[split + 1..|f| - 1] == c;
  }

  /** A well-formed report parses to the coordinates it was rendered from. */
  lemma ParseReport(line: nat, column: nat)
    requires line <= USIZE_MAX && column <= USIZE_MAX
    ensures ParseReply(Report(line, column), LastSemicolon(Report(line, column))) == Ok((line, column))
  {
    ReportLayout(line, column);
    assert Report(line, column) == Frame(Render(line), Render(column));
    ParseFrame(Render(line), Render(column));
    ParseRender(line);
    ParseRender(column);
  }

  /** Every byte of a report before its final 'R' continues the read loop, and
      the report fits well within the length cap. */
  lemma ReportScan(line: nat, column: nat)
    requires line <= USIZE_MAX && column <= USIZE_MAX
    ensures |Report(line, column)| <= 44
    ensures Report(line, column)[|Report(line, column)| - 1] == TERMINATOR
    ensures forall j :: 0 <= j < |Report(line, column)| - 1 ==> Report(line, column)[j] != TERMINATOR
  {
    var rep := Report(line, column);
    ReportLayout(line, column);
    RenderUsizeLength(line);
    RenderUsizeLength(column);
    RenderHasNoDelimiter(line);
    RenderHasNoDelimiter(column);
    var l := Render(line);
    var c := Render(column);
    forall j | 0 <= j < |rep| - 1
      ensures rep[j] != TERMINATOR
    {
      if 2 <= j < 2 + |l| {
        assert rep[j] == l[j - 2];
      } else if 2 + |l| < j {
        assert rep[j] == c[j - 3 - |l|];
      }
    }
  }

  /** A reply ending in its first 'R' within the cap is read whole,
      whatever follows it. */
  lemma ReadTerminated(reply: seq<bv8>, rest: seq<ReadEvent>)
    requires 1 <= |reply| <= MAX_CURSOR_POSITION_REPORT_LENGTH + 1
    requires reply[|reply| - 1] == TERMINATOR
    requires forall j :: 0 <= j < |reply| - 1 ==> reply[j] != TERMINATOR
    ensures ReadReply(AsEvents(reply) + rest) == Ok((reply, LastSemicolon(reply)))
  {
    var input := AsEvents(reply) + rest;
    assert forall j :: 0 <= j < |reply| ==> input[j] == Byte(reply[j]);
    ScanToTerminator(input, [], 0, reply);
  }

  lemma ReadReport(line: nat, column: nat, rest: seq<ReadEvent>)
    requires line <= USIZE_MAX && column <= USIZE_MAX
    ensures ReadReply(AsEvents(Report(line, column)) + rest)
            == Ok((Report(line, column), LastSemicolon(Report(line, column))))
  {
    ReportScan(line, column);
    ReadTerminated(Report(line, column), rest);
  }

  /** A query whose reply was read completely returns the parse of that reply. */
  lemma QueryParsesReply(out: Sink, input: seq<ReadEvent>)
    requires out.writeFault.None? && out.flushFault.None?
    requires ReadReply(input).Ok?
    ensures GetCursorPosition(out, input).1 == ParseReply(ReadReply(input).value.0, ReadReply(input).value.1)
  {
  }

  /** Round trip: a terminal answering ESC [ line ; column R, whatever follows
      it, makes the query return exactly (line, column). */
  lemma RoundTrip(out: Sink, line: nat, column: nat, rest: seq<ReadEvent>)
    requires line <= USIZE_MAX && column <= USIZE_MAX
    requires out.writeFault.None? && out.flushFault.None?
    ensures GetCursorPosition(out, AsEvents(Report(line, column)) + rest).1 == Ok((line, column))
  {
    var rep := Report(line, column);
    var input := AsEvents(rep) + rest;
    ReadReport(line, column, rest);
    assert ReadReply(input) == Ok((rep, LastSemicolon(rep)));
    ParseReport(line, column);
    assert ParseReply(rep, LastSemicolon(rep)) == Ok((line, column));
    QueryParsesReply(out, input);
  }

  /** Example: ESC [ 2 4 ; 8 0 R answers (24, 80). */
  lemma RoundTripExample(out: Sink)
    requires out.writeFault.None? && out.flushFault.None?
    ensures GetCursorPosition(out, AsEvents([ESC, LEFT_BRACKET, 0x32, 0x34, SEMICOLON, 0x38, 0x30, TERMINATOR])).1
            == Ok((24, 80))
  {
    var f := Frame([0x32, 0x34], [0x38, 0x30]);
    assert f == [ESC, LEFT_BRACKET, 0x32, 0x34, SEMICOLON, 0x38, 0x30, TERMINATOR];
    ReadTerminated(f, []);
    assert AsEvents(f) + [] == AsEvents(f);
    assert ParseUsize([0x32, 0x34]) == Ok(24);
    assert ParseUsize([0x38, 0x30]) == Ok(80);
    ParseFrame([0x32, 0x34], [0x38, 0x30]);
    QueryParsesReply(out, AsEvents(f));
  }

  /** A field holding a ';' is not a number. */
  lemma SemicolonNotNumber(s: seq<bv8>, k: nat)
    requires k < |s| && s[k] == SEMICOLON
    ensures ParseUsize(s).Err?
  {
    var m := Magnitude(s);
    if |s| > 0 && s[0] == 0x2B {
      assert m[k - 1] == SEMICOLON;
    } else {
      assert m[k] == SEMICOLON;
    }
    assert !AllDigits(m);
  }

  /** A reply with two ';' is always rejected: the line is everything before the
      LAST ';', so it contains a ';' and does not parse. */
  lemma TwoSemicolonsRejected(chars: seq<bv8>, i: nat, j: nat)
    requires 2 <= i < j < |chars| - 1
    requires chars[i] == SEMICOLON && chars[j] == SEMICOLON
    ensures ParseReply(chars, LastSemicolon(chars)).Err?
  {
    var split := LastSemicolon(chars);
    assert split >= j;
    var line := chars[2..split];
    assert line[i - 2] == SEMICOLON;
    SemicolonNotNumber(line, i - 2);
  }

  /** `get_terminal_size`: move to the bottom right with CUD and CUF of
      `i32::MAX`, then query the position and return its result unchanged. */
  function GetTerminalSize(out: Sink, input: seq<ReadEvent>): (res: (Sink, Result<(nat, nat), ReportError>))
    ensures out.writeFault.Some? ==> res == (out, Err(Io(out.writeFault.value)))
    ensures out.writeFault.None? ==>
              res.0.written == out.written + MoveCursorDown(0x7FFF_FFFF) + MoveCursorForward(0x7FFF_FFFF)
                               + CursorPositionReport()
    ensures out.writeFault.None? ==>
              res.1 == GetCursorPosition(out.(written := out.written + MoveCursorDown(0x7FFF_FFFF)
                                                       + MoveCursorForward(0x7FFF_FFFF)), input).1
  {
    match ApplyWrite(out, MoveCursorDown(0x7FFF_FFFF))
    case Err(e) => (out, Err(Io(e)))
    case Ok(w) =>
      match ApplyWrite(w, MoveCursorForward(0x7FFF_FFFF))
      case Err(e) => (w, Err(Io(e)))
      case Ok(w2) => GetCursorPosition(w2, input)
  }
}
