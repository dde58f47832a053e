/** The ECMA-48 control-sequence builders of the terminal layer and the byte
    sink they are written to. */
module Esc {
  import opened Wrappers
  import opened Decimal

  const ESC: bv8 := 0x1B
  /** '[': with ESC it forms the Control Sequence Introducer. */
  const LEFT_BRACKET: bv8 := 0x5B
  const SEMICOLON: bv8 := 0x3B

  /** The parameter text "?25": DEC private mode 25, the text cursor. */
  const CURSOR_MODE: seq<bv8> := [0x3F, 0x32, 0x35]

  // ---------------------------------------------------------------------------
  // The reference reading: a single control sequence (section 5.4 of ECMA-48)
  // with parameter bytes only and no intermediate bytes.

  /** A decoded control sequence: its parameter string and its final byte. */
  datatype ControlSequence = ControlSequence(params: seq<bv8>, final: bv8)

  predicate IsParameterByte(b: bv8) {
    0x30 <= b <= 0x3F
  }

  predicate IsFinalByte(b: bv8) {
    0x40 <= b <= 0x7E
  }

  predicate AllParameterBytes(s: seq<bv8>) {
    forall i :: 0 <= i < |s| ==> IsParameterByte(s[i])
  }

  /** Reads `s` as exactly one control sequence, if it is one. */
  function DecodeControlSequence(s: seq<bv8>): Option<ControlSequence> {
    if |s| >= 3 && s[0] == ESC && s[1] == LEFT_BRACKET && IsFinalByte(s[|s| - 1])
       && AllParameterBytes(s[2..|s| - 1])
    then
      Some(ControlSequence(s[2..|s| - 1], s[|s| - 1]))
    else
      None
  }

  // ---------------------------------------------------------------------------
  // Builders (src/term/esc.rs)

  /** `escape_sequence`: the CSI prefix followed verbatim by the parameter text. */
  function EscapeSequence(text: seq<bv8>): (r: seq<bv8>)
    ensures |r| == |text| + 2
    ensures r[0] == ESC && r[1] == LEFT_BRACKET
    ensures forall i :: 0 <= i < |text| ==> r[i + 2] == text[i]
  {
    [ESC, LEFT_BRACKET] + text
  }

  /** A control sequence built from parameter bytes and a final byte decodes
      back to exactly those. */
  lemma DecodeEscapeSequence(params: seq<bv8>, final: bv8)
    requires AllParameterBytes(params) && IsFinalByte(final)
    ensures DecodeControlSequence(EscapeSequence(params + [final]))
            == Some(ControlSequence(params, final))
  {
    var s := EscapeSequence(params + [final]);
    assert s[2..|s| - 1] == params;
  }

  datatype EraseDisplayMode = PositionToEnd | StartToPosition | All

  /** The ED parameter of each mode (section 8.3.39 of ECMA-48). */
  function EraseParameter(mode: EraseDisplayMode): bv8 {
    match mode
    case PositionToEnd => 0x30
    case StartToPosition => 0x31
    case All => 0x32
  }

  /** `erase_display`: ESC [ 0 J, ESC [ 1 J or ESC [ 2 J. */
  function EraseDisplay(mode: EraseDisplayMode): (r: seq<bv8>)
    ensures DecodeControlSequence(r) == Some(ControlSequence([EraseParameter(mode)], 0x4A))
  {
    DecodeEscapeSequence([EraseParameter(mode)], 0x4A);
    EscapeSequence([EraseParameter(mode)] + [0x4A])
  }

  /** Distinct modes give distinct sequences. */
  lemma EraseDisplayInjective(m1: EraseDisplayMode, m2: EraseDisplayMode)
    ensures EraseDisplay(m1) == EraseDisplay(m2) <==> m1 == m2
  {
    if EraseDisplay(m1) == EraseDisplay(m2) {
      assert EraseDisplay(m1)[2] == EraseDisplay(m2)[2];
    }
  }

  /** `hide_cursor`: DEC private mode 25 reset, ESC [ ? 2 5 l. */
  function HideCursor(): (r: seq<bv8>)
    ensures DecodeControlSequence(r) == Some(ControlSequence(CURSOR_MODE, 0x6C))
  {
    DecodeEscapeSequence(CURSOR_MODE, 0x6C);
    EscapeSequence(CURSOR_MODE + [0x6C])
  }

  /** `show_cursor`: DEC private mode 25 set, ESC [ ? 2 5 h. */
  function ShowCursor(): (r: seq<bv8>)
    ensures DecodeControlSequence(r) == Some(ControlSequence(CURSOR_MODE, 0x68))
  {
    DecodeEscapeSequence(CURSOR_MODE, 0x68);
    EscapeSequence(CURSOR_MODE + [0x68])
  }

  /** `cursor_position_report`: the device status report request DSR 6
      (section 8.3.35 of ECMA-48), the four bytes ESC [ 6 n. */
  function CursorPositionReport(): (r: seq<bv8>)
    ensures |r| == 4
    ensures DecodeControlSequence(r) == Some(ControlSequence([0x36], 0x6E))
  {
    DecodeEscapeSequence([0x36], 0x6E);
    EscapeSequence([0x36] + [0x6E])
  }

  /** The parameter text "line;column" of CUP and of a cursor position report. */
  function CoordinatePair(line: nat, column: nat): (r: seq<bv8>)
    ensures AllParameterBytes(r)
  {
    Render(line) + [SEMICOLON] + Render(column)
  }

  /** `move_cursor`: CUP (section 8.3.21 of ECMA-48) with a missing coordinate
      rendered as 1. */
  function MoveCursor(line: Option<nat>, column: Option<nat>): (r: seq<bv8>)
    ensures var l := if line.Some? then line.value else 1;
            var c := if column.Some? then column.value else 1;
            DecodeControlSequence(r) == Some(ControlSequence(CoordinatePair(l, c), 0x48))
  {
    var l := if line.Some? then line.value else 1;
    var c := if column.Some? then column.value else 1;
    DecodeEscapeSequence(CoordinatePair(l, c), 0x48);
    EscapeSequence(CoordinatePair(l, c) + [0x48])
  }

  /** `move_cursor_down`: CUD (section 8.3.19 of ECMA-48) with the count in
      decimal, not clamped. */
  function MoveCursorDown(lines: nat): (r: seq<bv8>)
    ensures DecodeControlSequence(r) == Some(ControlSequence(Render(lines), 0x42))
  {
    DecodeEscapeSequence(Render(lines), 0x42);
    EscapeSequence(Render(lines) + [0x42])
  }

  /** `move_cursor_forward`: CUF (section 8.3.20 of ECMA-48) with the count in
      decimal, not clamped. */
  function MoveCursorForward(columns: nat): (r: seq<bv8>)
    ensures DecodeControlSequence(r) == Some(ControlSequence(Render(columns), 0x43))
  {
    DecodeEscapeSequence(Render(columns), 0x43);
    EscapeSequence(Render(columns) + [0x43])
  }

  /** The coordinates the examples below use, in decimal. */
  lemma RenderedCoordinates()
    ensures CoordinatePair(1, 1) == [0x31, SEMICOLON, 0x31]
    ensures CoordinatePair(5, 10) == [0x35, SEMICOLON, 0x31, 0x30]
  {
    assert Render(1) == [0x31];
    assert Render(5) == [0x35];
    assert Render(10) == [0x31, 0x30];
  }

  /** Both coordinates missing: ESC [ 1 ; 1 H. */
  lemma MoveCursorHome()
    ensures MoveCursor(None, None) == [ESC, LEFT_BRACKET, 0x31, SEMICOLON, 0x31, 0x48]
  {
    RenderedCoordinates();
  }

  /** Line 5, column 10: ESC [ 5 ; 1 0 H. */
  lemma MoveCursorExample()
    ensures MoveCursor(Some(5), Some(10)) == [ESC, LEFT_BRACKET, 0x35, SEMICOLON, 0x31, 0x30, 0x48]
  {
    RenderedCoordinates();
  }

  /** The count of a CUD or CUF sequence parses back to the requested count. */
  lemma MoveCountRoundTrip(n: nat)
    requires n <= USIZE_MAX
    ensures ParseUsize(DecodeControlSequence(MoveCursorDown(n)).value.params) == Ok(n)
    ensures ParseUsize(DecodeControlSequence(MoveCursorForward(n)).value.params) == Ok(n)
  {
    ParseRender(n);
  }

  // ---------------------------------------------------------------------------
  // The output side: a byte sink that may fail.

  /** An I/O error, identified by an abstract code. */
  datatype IoError = IoError(code: int)

  /** A writer such as standard output: the bytes it has accepted so far, and
      the error a write or a flush would report, if any. */
  datatype Sink = Sink(written: seq<bv8>, writeFault: Option<IoError>, flushFault: Option<IoError>)

  /** `apply_write`: `write_all` of the sequence, with its error propagated
      unchanged. */
  function ApplyWrite(w: Sink, s: seq<bv8>): (r: Result<Sink, IoError>)
    ensures r.Err? <==> w.writeFault.Some?
    ensures r.Err? ==> r.error == w.writeFault.value
    ensures r.Ok? ==> |r.value.written| == |w.written| + |s|
                      && r.value.written[..|w.written|] == w.written
                      && r.value.written[|w.written|..] == s
    ensures r.Ok? ==> r.value.writeFault == w.writeFault && r.value.flushFault == w.flushFault
  {
    if w.writeFault.Some? then Err(w.writeFault.value) else Ok(w.(written := w.written + s))
  }

  /** `flush`: accepted bytes stay as they are; a flush error is propagated. */
  function Flush(w: Sink): (r: Result<Sink, IoError>)
    ensures r.Err? <==> w.flushFault.Some?
    ensures r.Err? ==> r.error == w.flushFault.value
    ensures r.Ok? ==> r.value == w
  {
    if w.flushFault.Some? then Err(w.flushFault.value) else Ok(w)
  }

  /** Two successive writes leave the same bytes as one write of both. */
  lemma ApplyWriteTwice(w: Sink, a: seq<bv8>, b: seq<bv8>)
    requires ApplyWrite(w, a).Ok?
    ensures ApplyWrite(ApplyWrite(w, a).value, b) == ApplyWrite(w, a + b)
  {
    assert w.written + a + b == w.written + (a + b);
  }
}
