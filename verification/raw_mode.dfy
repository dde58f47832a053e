/** Raw terminal mode: the flag transform applied when entering it and the
    guard that restores the original attributes when it is dropped. Flag and
    control-character positions are Linux's. */
module RawMode {
  import opened Wrappers
  import opened Esc

  /** Number of control characters in `c_cc`. */
  const NCCS: nat := 32

  type ControlChars = s: seq<bv8> | |s| == NCCS witness seq(32, _ => 0)

  /** A terminal attribute record (`struct termios`). */
  datatype Termios = Termios(iflag: bv32, oflag: bv32, cflag: bv32, lflag: bv32, cc: ControlChars)

  // Input modes.
  const BRKINT: bv32 := 0x002
  const INPCK: bv32 := 0x010
  const ISTRIP: bv32 := 0x020
  const ICRNL: bv32 := 0x100
  const IXON: bv32 := 0x400
  // Output modes.
  const OPOST: bv32 := 0x001
  // Control modes.
  const CS8: bv32 := 0x030
  // Local modes.
  const ISIG: bv32 := 0x001
  const ICANON: bv32 := 0x002
  const ECHO: bv32 := 0x008
  const IEXTEN: bv32 := 0x8000
  // Control character indices.
  const VTIME: nat := 5
  const VMIN: nat := 6

  /** Input bits raw mode turns off: break interrupt, CR-to-NL translation,
      parity checking, eighth-bit stripping and XON/XOFF flow control. */
  const RAW_IFLAG_OFF: bv32 := BRKINT | ICRNL | INPCK | ISTRIP | IXON
  /** Local bits raw mode turns off: echo, canonical input, extended input
      processing and signal characters. */
  const RAW_LFLAG_OFF: bv32 := ECHO | ICANON | IEXTEN | ISIG

  /** The attribute changes of `RawModeHandle::new`: non-canonical input with
      MIN = 0 and TIME = 1, that is, a read returns what is available or
      times out after a tenth of a second. */
  function MakeRaw(t: Termios): (r: Termios)
    ensures r.iflag & RAW_IFLAG_OFF == 0 && (r.iflag ^ t.iflag) & !RAW_IFLAG_OFF == 0
    ensures r.oflag & OPOST == 0 && (r.oflag ^ t.oflag) & !OPOST == 0
    ensures r.cflag & CS8 == CS8 && (r.cflag ^ t.cflag) & !CS8 == 0
    ensures r.lflag & RAW_LFLAG_OFF == 0 && (r.lflag ^ t.lflag) & !RAW_LFLAG_OFF == 0
    ensures r.cc[VMIN] == 0 && r.cc[VTIME] == 1
    ensures forall i :: 0 <= i < NCCS && i != VMIN && i != VTIME ==> r.cc[i] == t.cc[i]
  {
    Termios(
      t.iflag & !RAW_IFLAG_OFF,
      t.oflag & !OPOST,
      t.cflag | CS8,
      t.lflag & !RAW_LFLAG_OFF,
      t.cc[VMIN := 0][VTIME := 1])
  }

  /** Raw mode is a fixed point: making a raw record raw changes nothing. */
  lemma MakeRawIdempotent(t: Termios)
    ensures MakeRaw(MakeRaw(t)) == MakeRaw(t)
  {
    var r := MakeRaw(t);
    assert MakeRaw(r).cc == r.cc;
  }

  /** The terminal as the program sees it: its current attributes, and the
      error `tcgetattr` or `tcsetattr` would report, if any. */
  datatype Tty = Tty(attrs: Termios, getFault: Option<IoError>, setFault: Option<IoError>)

  /** An entered raw mode: the copy of the attributes taken before any change. */
  datatype RawModeHandle = RawModeHandle(original: Termios)

  /** `RawModeHandle::new`: read the attributes, keep a copy, apply the raw
      transform with `tcsetattr`. On either error nothing is held and nothing
      is owed. */
  function Enter(tty: Tty): (r: Result<(Tty, RawModeHandle), IoError>)
    ensures tty.getFault.Some? ==> r == Err(tty.getFault.value)
    ensures tty.getFault.None? && tty.setFault.Some? ==> r == Err(tty.setFault.value)
    ensures r.Ok? ==> r.value.1.original == tty.attrs
    ensures r.Ok? ==> r.value.0 == tty.(attrs := MakeRaw(tty.attrs))
  {
    if tty.getFault.Some? then
      Err(tty.getFault.value)
    else
      var original := tty.attrs;
      var raw := MakeRaw(original);
      if tty.setFault.Some? then Err(tty.setFault.value)
      else Ok((tty.(attrs := raw), RawModeHandle(original)))
  }

  /** What dropping the handle ends in: restored attributes, or a panic from
      the `unwrap` of a failed `tcsetattr`. */
  datatype DropOutcome = Restored(tty: Tty) | Panicked(error: IoError)

  /** `Drop for RawModeHandle`: reapply the saved copy. */
  function Exit(tty: Tty, handle: RawModeHandle): (r: DropOutcome)
    ensures tty.setFault.Some? <==> r.Panicked?
    ensures r.Restored? ==> r.tty.attrs == handle.original
                            && r.tty.getFault == tty.getFault && r.tty.setFault == tty.setFault
  {
    if tty.setFault.Some? then Panicked(tty.setFault.value) else Restored(tty.(attrs := handle.original))
  }

  /** Entering and then leaving raw mode restores every flag and control
      character exactly. */
  lemma EnterExitRestores(tty: Tty)
    requires Enter(tty).Ok?
    ensures Exit(Enter(tty).value.0, Enter(tty).value.1) == Restored(tty)
  {
  }

  /** With the Linux bit values: a typical cooked record (ICRNL|IXON input,
      OPOST output, CS8 control, ISIG|ICANON|ECHO|IEXTEN local) becomes
      all-clear except CS8. */
  lemma CookedExample(cc: ControlChars)
    ensures var r := MakeRaw(Termios(ICRNL | IXON, OPOST, CS8, ISIG | ICANON | ECHO | IEXTEN, cc));
            r.iflag == 0 && r.oflag == 0 && r.cflag == CS8 && r.lflag == 0
  {
  }
}
