/** `decreaseSelectionIndent` and its two passes, `deindentSelection` and
    `dewhitespaceSelection`: first as the code is written, then as their
    documentation describes them, with the effect of the described version
    on a text made of blocks and its round trip with
    `increaseSelectionIndent`. */
module EditorDeindentation {
  import DW = DocumentWriters
  import opened Wrappers
  import opened TextCursors
  import opened EditorGeneral
  import opened EditorIndentation

  // ---------------------------------------------------------------------
  // As written

  /** The end of one block of `deindentSelection`: when the selection is
      the indentation string it is removed, then the cursor goes on to the
      next block. Returns whether it removed one. */
  function RemoveIndentAndGoOn(selected: Cursor, ind: Text): (r: (Cursor, bool))
    requires Valid(selected)
    ensures Valid(r.0)
    ensures r.1 ==> |r.0.text| == |selected.text| - |ind| && |ind| > 0
    ensures !r.1 ==> r.0.text == selected.text
  {
    var found := HasSelection(selected) && SelectedText(selected) == ind;
    var edited := if found then RemoveSelectedText(selected) else selected;
    (MoveNextBlock(edited, MoveAnchor, 1), found)
  }

  /** One block of `deindentSelection` as written: from the block's start,
      `width` characters are selected when the block's length, which counts
      its separator, is at least `width`. */
  function DeindentStepAsWritten(c: Cursor, ind: Text, width: nat): (r: (Cursor, bool))
    requires Valid(c)
    ensures Valid(r.0)
    ensures r.1 ==> |r.0.text| == |c.text| - |ind| && |ind| > 0
    ensures !r.1 ==> r.0.text == c.text
  {
    var atStart := MoveStartOfBlock(c, MoveAnchor);
    var selected := if CurrentBlockLength(atStart) >= width then MoveNextCharacter(atStart, KeepAnchor, width) else atStart;
    RemoveIndentAndGoOn(selected, ind)
  }

  /** `n` blocks of `deindentSelection` as written, from the cursor's block.
      Returns whether any indentation string was removed. */
  function DeindentPassAsWritten(c: Cursor, ind: Text, width: nat, n: nat): (r: (Cursor, bool))
    requires Valid(c)
    ensures Valid(r.0)
    ensures r.1 <==> |r.0.text| < |c.text|
    ensures !r.1 ==> r.0.text == c.text
    decreases n
  {
    if n == 0 then (c, false)
    else
      var step := DeindentStepAsWritten(c, ind, width);
      var rest := DeindentPassAsWritten(step.0, ind, width, n - 1);
      (rest.0, step.1 || rest.1)
  }

  /** The inner loop of `dewhitespaceSelection` as written, from its
      iteration `j`, with the cursor at the start of a block: while the
      block's first character is whitespace, and not a tab after the first
      iteration, it is deleted. `None` when the loop reads the first
      character of an empty block, which `QString::at` does not allow. */
  function DewhitespaceCharsAsWritten(c: Cursor, j: nat, width: nat): (r: Option<Cursor>)
    requires Valid(c)
    ensures r.Some? ==> Valid(r.value) && |r.value.text| <= |c.text|
    decreases width - j
  {
    if j >= width then Some(c)
    else
      var b := CurrentBlockText(c);
      if |b| == 0 then None
      else if !DW.IsSpace(b[0]) || (j > 0 && b[0] == '\t') then Some(c)
      else DewhitespaceCharsAsWritten(DeleteChar(c), j + 1, width)
  }

  /** One block of `dewhitespaceSelection` as written. */
  function DewhitespaceStepAsWritten(c: Cursor, width: nat): (r: Option<Cursor>)
    requires Valid(c)
    ensures r.Some? ==> Valid(r.value) && |r.value.text| <= |c.text|
  {
    match DewhitespaceCharsAsWritten(MoveStartOfBlock(c, MoveAnchor), 0, width)
    case None => None
    case Some(d) => Some(MoveNextBlock(d, MoveAnchor, 1))
  }

  /** `n` blocks of `dewhitespaceSelection` as written. */
  function DewhitespacePassAsWritten(c: Cursor, width: nat, n: nat): (r: Option<Cursor>)
    requires Valid(c)
    ensures r.Some? ==> Valid(r.value) && |r.value.text| <= |c.text|
    decreases n
  {
    if n == 0 then Some(c)
    else
      match DewhitespaceStepAsWritten(c, width)
      case None => None
      case Some(d) => DewhitespacePassAsWritten(d, width, n - 1)
  }

  /** `decreaseSelectionIndent` as written: the deindent pass runs
      `blockCount + 1` times from the block the cursor is in, and when it
      removed nothing the whitespace pass runs `blockCount + 1` times from
      the start of the selection; then the selection is normalized. `None`
      when the whitespace pass reads past an empty block. */
  function DecreaseSelectionIndentAsWritten(c: Cursor, mode: IndentationMode, width: nat): (r: Option<Cursor>)
    requires Valid(c)
    ensures !HasSelection(c) ==> r == Some(c)
    ensures r.Some? ==> Valid(r.value) && |r.value.text| <= |c.text|
  {
    if !HasSelection(c) then Some(c)
    else
      var (state, atState) := SelectionStateOf(c);
      var ind := IndentationString(mode, width);
      var (deindented, found) := DeindentPassAsWritten(atState, ind, width, state.blockCount + 1);
      if found then Some(SetNormalizedSelection(deindented, state))
      else
        match DewhitespacePassAsWritten(SetPosition(deindented, state.startPosition, MoveAnchor), width, state.blockCount + 1)
        case None => None
        case Some(d) => Some(SetNormalizedSelection(d, state))
  }

  // ---------------------------------------------------------------------
  // As documented

  /** One block of `deindentSelection` as documented: from the block's
      start, the indentation string's length of characters is selected when
      the block's text is at least that long. */
  function DeindentStep(c: Cursor, ind: Text): (r: (Cursor, bool))
    requires Valid(c)
    ensures Valid(r.0)
    ensures r.1 ==> |r.0.text| == |c.text| - |ind| && |ind| > 0
    ensures !r.1 ==> r.0.text == c.text
  {
    var atStart := MoveStartOfBlock(c, MoveAnchor);
    var selected := if CurrentBlockLength(atStart) > |ind| then MoveNextCharacter(atStart, KeepAnchor, |ind|) else atStart;
    RemoveIndentAndGoOn(selected, ind)
  }

  /** `n` blocks of `deindentSelection` as documented. */
  function DeindentPass(c: Cursor, ind: Text, n: nat): (r: (Cursor, bool))
    requires Valid(c)
    ensures Valid(r.0)
    ensures r.1 <==> |r.0.text| < |c.text|
    ensures !r.1 ==> r.0.text == c.text
    decreases n
  {
    if n == 0 then (c, false)
    else
      var step := DeindentStep(c, ind);
      var rest := DeindentPass(step.0, ind, n - 1);
      (rest.0, step.1 || rest.1)
  }

  /** The inner loop of `dewhitespaceSelection` as documented: it stops at
      an empty block. */
  function DewhitespaceChars(c: Cursor, j: nat, width: nat): (r: Cursor)
    requires Valid(c)
    ensures Valid(r) && |r.text| <= |c.text|
    decreases width - j
  {
    if j >= width then c
    else
      var b := CurrentBlockText(c);
      if |b| == 0 || !DW.IsSpace(b[0]) || (j > 0 && b[0] == '\t') then c
      else DewhitespaceChars(DeleteChar(c), j + 1, width)
  }

  /** One block of `dewhitespaceSelection` as documented. */
  function DewhitespaceStep(c: Cursor, width: nat): (r: Cursor)
    requires Valid(c)
    ensures Valid(r) && |r.text| <= |c.text|
  {
    MoveNextBlock(DewhitespaceChars(MoveStartOfBlock(c, MoveAnchor), 0, width), MoveAnchor, 1)
  }

  /** `n` blocks of `dewhitespaceSelection` as documented. */
  function DewhitespacePass(c: Cursor, width: nat, n: nat): (r: Cursor)
    requires Valid(c)
    ensures Valid(r) && |r.text| <= |c.text|
    decreases n
  {
    if n == 0 then c else DewhitespacePass(DewhitespaceStep(c, width), width, n - 1)
  }

  /** `decreaseSelectionIndent` as documented: both passes visit the
      selection's blocks, from the first, once each. */
  function DecreaseSelectionIndent(c: Cursor, mode: IndentationMode, width: nat): (r: Cursor)
    requires Valid(c)
    ensures Valid(r) && |r.text| <= |c.text|
    ensures !HasSelection(c) ==> r == c
  {
    if !HasSelection(c) then c
    else
      var (state, atState) := SelectionStateOf(c);
      var ind := IndentationString(mode, width);
      var start := SetPosition(atState, state.startPosition, MoveAnchor);
      var (deindented, found) := DeindentPass(start, ind, state.blockCount);
      if found then SetNormalizedSelection(deindented, state)
      else
        var stripped := DewhitespacePass(SetPosition(deindented, state.startPosition, MoveAnchor), width, state.blockCount);
        SetNormalizedSelection(stripped, state)
  }

  // ---------------------------------------------------------------------
  // On a text made of blocks

  /** The block begins with the indentation string, which is not empty:
      the documented deindent pass removes it. */
  predicate HasIndent(b: Text, ind: Text) {
    0 < |ind| <= |b| && b[..|ind|] == ind
  }

  /** A block with one indentation string taken from its front, if it has
      one. */
  function DropIndent(b: Text, ind: Text): (r: Text)
    ensures HasIndent(b, ind) ==> b == ind + r
    ensures !HasIndent(b, ind) ==> r == b
  {
    if HasIndent(b, ind) then b[|ind|..] else b
  }

  /** Blocks `lo` to `hi - 1` with one indentation string taken from the
      front of each that has one. */
  function DropRange(B: seq<Text>, lo: nat, hi: nat, ind: Text): (R: seq<Text>)
    ensures |R| == |B|
    ensures forall i | 0 <= i < |B| :: R[i] == if lo <= i < hi then DropIndent(B[i], ind) else B[i]
  {
    seq(|B|, i requires 0 <= i < |B| => if lo <= i < hi then DropIndent(B[i], ind) else B[i])
  }

  /** Some block from `lo` to `hi - 1` has an indentation string in front. */
  predicate AnyIndent(B: seq<Text>, lo: nat, hi: nat, ind: Text) {
    exists i | lo <= i < hi && i < |B| :: HasIndent(B[i], ind)
  }

  /** What the documented inner loop of `dewhitespaceSelection` leaves of a
      block's text from iteration `j`: it takes leading whitespace, at most
      `width - j` characters, and no tab after the first. */
  function StripFrom(b: Text, j: nat, width: nat): (r: Text)
    ensures |r| <= |b| && r == b[|b| - |r|..]
    ensures forall k | 0 <= k < |b| - |r| :: DW.IsSpace(b[k])
    ensures j <= width ==> |b| - |r| <= width - j
    ensures j >= width ==> r == b
    decreases width - j
  {
    if j >= width || |b| == 0 || !DW.IsSpace(b[0]) || (j > 0 && b[0] == '\t') then b
    else StripFrom(b[1..], j + 1, width)
  }

  /** Blocks `lo` to `hi - 1` with their leading whitespace stripped. */
  function StripRange(B: seq<Text>, lo: nat, hi: nat, width: nat): (R: seq<Text>)
    ensures |R| == |B|
    ensures forall i | 0 <= i < |B| :: R[i] == if lo <= i < hi then StripFrom(B[i], 0, width) else B[i]
  {
    seq(|B|, i requires 0 <= i < |B| => if lo <= i < hi then StripFrom(B[i], 0, width) else B[i])
  }

  lemma DropRangeBlockText(B: seq<Text>, lo: nat, hi: nat, ind: Text)
    requires AllBlockText(B)
    ensures AllBlockText(DropRange(B, lo, hi, ind))
  {
    var R := DropRange(B, lo, hi, ind);
    forall i | 0 <= i < |R|
      ensures IsBlockText(R[i])
    {
      if lo <= i < hi && HasIndent(B[i], ind) {
        SliceBlockText(B[i], |ind|, |B[i]|);
      }
    }
  }

  lemma StripRangeBlockText(B: seq<Text>, lo: nat, hi: nat, width: nat)
    requires AllBlockText(B)
    ensures AllBlockText(StripRange(B, lo, hi, width))
  {
    var R := StripRange(B, lo, hi, width);
    forall i | 0 <= i < |R|
      ensures IsBlockText(R[i])
    {
      if lo <= i < hi {
        SliceBlockText(B[i], |B[i]| - |R[i]|, |B[i]|);
      }
    }
  }

  // ---------------------------------------------------------------------
  // The documented deindent pass on blocks

  /** Selecting `n` characters from the start of block `j`, which is at
      least that long, selects the block's first `n` characters. */
  lemma SelectAtBlockStart(B: seq<Text>, j: nat, n: nat, a: Cursor)
    requires |B| >= 1 && AllBlockText(B) && j < |B| && n <= |B[j]|
    requires Valid(a) && a == Cursor(DW.Join(B), Offset(B, j, 0), Offset(B, j, 0))
    ensures var sel := MoveNextCharacter(a, KeepAnchor, n);
      && sel == Cursor(DW.Join(B), Offset(B, j, 0), Offset(B, j, n))
      && SelectedText(sel) == B[j][..n]
  {
    var t := DW.Join(B);
    var o := Offset(B, j, 0);
    Placed(B, j);
    assert o + |B[j]| <= |t|;
    var sel := MoveNextCharacter(a, KeepAnchor, n);
    assert sel.position == o + n;
    assert SelectedText(sel) == t[o..o + n];
    SliceOfSlice(t, o, |B[j]|, n);
  }

  lemma SliceOfSlice(t: Text, o: nat, m: nat, n: nat)
    requires n <= m && o + m <= |t|
    ensures t[o..o + n] == t[o..o + m][..n]
  {}

  /** The block `DeindentStep` starts from, with the cursor at its start. */
  lemma DeindentStart(B: seq<Text>, j: nat, col: nat, c: Cursor)
    requires |B| >= 1 && AllBlockText(B) && j < |B| && col <= |B[j]|
    requires Valid(c) && c.text == DW.Join(B) && c.position == Offset(B, j, col)
    ensures var a := MoveStartOfBlock(c, MoveAnchor);
      && a == Cursor(DW.Join(B), Offset(B, j, 0), Offset(B, j, 0))
      && CurrentBlockLength(a) == |B[j]| + 1
      && CurrentBlockText(a) == B[j]
  {
    Located(B, j, col);
    Located(B, j, 0);
  }

  /** Removing an indentation string from the front of block `j`. */
  lemma RemoveFront(B: seq<Text>, j: nat, ind: Text, sel: Cursor)
    requires |B| >= 1 && AllBlockText(B) && j < |B| && HasIndent(B[j], ind)
    requires Valid(sel) && sel == Cursor(DW.Join(B), Offset(B, j, 0), Offset(B, j, |ind|))
    ensures var B' := B[j := DropIndent(B[j], ind)];
      var e := RemoveSelectedText(sel);
      && AllBlockText(B')
      && e == Cursor(DW.Join(B'), Offset(B', j, 0), Offset(B', j, 0))
  {
    EditInBlock(B, j, 0, |ind|, []);
    assert B[j][..0] + [] + B[j][|ind|..] == DropIndent(B[j], ind);
  }

  /** One block of the documented deindent pass: the block loses its
      indentation string if it has one, and the cursor goes on to the start
      of the next block. */
  lemma DeindentStepBlocks(B: seq<Text>, j: nat, col: nat, ind: Text, c: Cursor) returns (B': seq<Text>)
    requires |B| >= 1 && AllBlockText(B)
    requires j < |B| && col <= |B[j]|
    requires Valid(c) && c.text == DW.Join(B) && c.position == Offset(B, j, col)
    ensures B' == B[j := DropIndent(B[j], ind)] && AllBlockText(B')
    ensures var next := DeindentStep(c, ind);
      && next.0.text == DW.Join(B') && next.1 == HasIndent(B[j], ind)
      && (j + 1 < |B| ==> next.0.position == Offset(B', j + 1, 0))
  {
    B' := B[j := DropIndent(B[j], ind)];
    DeindentStart(B, j, col, c);
    var a := MoveStartOfBlock(c, MoveAnchor);
    if |B[j]| >= |ind| {
      SelectAtBlockStart(B, j, |ind|, a);
      var sel := MoveNextCharacter(a, KeepAnchor, |ind|);
      if HasIndent(B[j], ind) {
        RemoveFront(B, j, ind, sel);
        if j + 1 < |B| {
          NextFromBlock(B', j, 0, RemoveSelectedText(sel));
        }
      } else {
        assert B' == B;
        if j + 1 < |B| {
          NextFromBlock(B, j, |ind|, sel);
        }
      }
    } else {
      assert B' == B;
      if j + 1 < |B| {
        NextFromBlock(B, j, 0, a);
      }
    }
  }

  /** What `n` blocks of the documented deindent pass do when they are
      blocks `lo` to `hi - 1`: each loses its indentation string if it has
      one, and the pass reports whether any had one. */
  predicate DeindentedFrom(B: seq<Text>, lo: nat, hi: nat, n: nat, ind: Text, c: Cursor)
    requires |B| >= 1 && Valid(c)
  {
    var r := DeindentPass(c, ind, n);
    r.0.text == DW.Join(DropRange(B, lo, hi, ind)) && (r.1 <==> AnyIndent(B, lo, hi, ind))
  }

  /** `n` blocks of the documented deindent pass from inside block `j`. */
  lemma {:induction false} DeindentFrom(B: seq<Text>, j: nat, col: nat, n: nat, hi: nat, ind: Text, c: Cursor)
    requires |B| >= 1 && AllBlockText(B)
    requires j < |B| && col <= |B[j]| && hi == j + n <= |B|
    requires Valid(c) && c.text == DW.Join(B) && c.position == Offset(B, j, col)
    ensures DeindentedFrom(B, j, hi, n, ind, c)
    decreases n
  {
    if n == 0 {
      DeindentNone(B, j, hi, ind, c);
    } else {
      var B' := DeindentStepBlocks(B, j, col, ind, c);
      var next := DeindentStep(c, ind).0;
      if n > 1 {
        DeindentFrom(B', j + 1, 0, n - 1, hi, ind, next);
      }
      DeindentCombine(B, j, n, hi, ind, c, next);
    }
  }

  lemma DeindentNone(B: seq<Text>, j: nat, hi: nat, ind: Text, c: Cursor)
    requires |B| >= 1 && Valid(c) && c.text == DW.Join(B) && hi == j
    ensures DeindentedFrom(B, j, hi, 0, ind, c)
  {
    assert DropRange(B, j, hi, ind) == B;
  }

  /** Block `j`, then the `n - 1` blocks after it. */
  lemma DeindentCombine(B: seq<Text>, j: nat, n: nat, hi: nat, ind: Text, c: Cursor, next: Cursor)
    requires |B| >= 1 && j < |B| && n > 0 && hi == j + n && Valid(c)
    requires next == DeindentStep(c, ind).0
    requires next.text == DW.Join(B[j := DropIndent(B[j], ind)]) && DeindentStep(c, ind).1 == HasIndent(B[j], ind)
    requires n > 1 ==> DeindentedFrom(B[j := DropIndent(B[j], ind)], j + 1, hi, n - 1, ind, next)
    ensures DeindentedFrom(B, j, hi, n, ind, c)
  {
    var B' := B[j := DropIndent(B[j], ind)];
    DeindentPassStep(c, ind, n);
    DropRangeStep(B, j, hi, ind);
    AnyIndentStep(B, j, hi, ind);
    if n == 1 {
      assert DropRange(B', j + 1, hi, ind) == B';
      assert !AnyIndent(B', j + 1, hi, ind);
    }
  }

  lemma DeindentPassStep(c: Cursor, ind: Text, n: nat)
    requires Valid(c) && n > 0
    ensures var step := DeindentStep(c, ind);
      var rest := DeindentPass(step.0, ind, n - 1);
      DeindentPass(c, ind, n) == (rest.0, step.1 || rest.1)
  {}

  lemma DropRangeStep(B: seq<Text>, j: nat, hi: nat, ind: Text)
    requires j < |B| && j < hi
    ensures DropRange(B[j := DropIndent(B[j], ind)], j + 1, hi, ind) == DropRange(B, j, hi, ind)
  {}

  lemma AnyIndentStep(B: seq<Text>, j: nat, hi: nat, ind: Text)
    requires j < |B| && j < hi
    ensures AnyIndent(B, j, hi, ind) <==>
      HasIndent(B[j], ind) || AnyIndent(B[j := DropIndent(B[j], ind)], j + 1, hi, ind)
  {
    var B' := B[j := DropIndent(B[j], ind)];
    if AnyIndent(B, j, hi, ind) && !HasIndent(B[j], ind) {
      var i :| j <= i < hi && i < |B| && HasIndent(B[i], ind);
      assert B'[i] == B[i];
    }
    if AnyIndent(B', j + 1, hi, ind) {
      var i :| j + 1 <= i < hi && i < |B'| && HasIndent(B'[i], ind);
      assert B'[i] == B[i];
    }
  }

  // ---------------------------------------------------------------------
  // The documented whitespace pass on blocks

  /** The inner loop of the documented whitespace pass at the start of block
      `k` strips the block as `StripFrom` says and leaves the cursor at the
      block's start. */
  lemma {:induction false} StripChars(B: seq<Text>, k: nat, j: nat, width: nat, c: Cursor)
    requires |B| >= 1 && AllBlockText(B) && k < |B|
    requires Valid(c) && c == Cursor(DW.Join(B), Offset(B, k, 0), Offset(B, k, 0))
    ensures var B' := B[k := StripFrom(B[k], j, width)];
      && AllBlockText(B') && Offset(B', k, 0) == Offset(B, k, 0)
      && DewhitespaceChars(c, j, width) == Cursor(DW.Join(B'), Offset(B, k, 0), Offset(B, k, 0))
    decreases width - j
  {
    DeindentStart(B, k, 0, c);
    var b := B[k];
    if j >= width || |b| == 0 || !DW.IsSpace(b[0]) || (j > 0 && b[0] == '\t') {
      assert B[k := StripFrom(b, j, width)] == B;
    } else {
      var B1 := DeleteFirst(B, k, c);
      StripChars(B1, k, j + 1, width, DeleteChar(c));
      assert B1[k := StripFrom(B1[k], j + 1, width)] == B[k := StripFrom(b, j, width)];
    }
  }

  /** Deleting the first character of a block that is not empty. */
  lemma DeleteFirst(B: seq<Text>, k: nat, c: Cursor) returns (B1: seq<Text>)
    requires |B| >= 1 && AllBlockText(B) && k < |B| && |B[k]| > 0
    requires Valid(c) && c == Cursor(DW.Join(B), Offset(B, k, 0), Offset(B, k, 0))
    ensures B1 == B[k := B[k][1..]] && AllBlockText(B1) && Offset(B1, k, 0) == Offset(B, k, 0)
    ensures Valid(DeleteChar(c)) && DeleteChar(c) == Cursor(DW.Join(B1), Offset(B, k, 0), Offset(B, k, 0))
  {
    B1 := B[k := B[k][1..]];
    var t := DW.Join(B);
    var o := Offset(B, k, 0);
    DeleteFirstText(B, k);
    var d := DeleteChar(c);
    assert d.text == DW.Join(B1) && d.anchor == o && d.position == o;
  }

  lemma DeleteFirstText(B: seq<Text>, k: nat)
    requires |B| >= 1 && AllBlockText(B) && k < |B| && |B[k]| > 0
    ensures var t := DW.Join(B);
      var o := Offset(B, k, 0);
      var B1 := B[k := B[k][1..]];
      && AllBlockText(B1) && Offset(B1, k, 0) == o
      && o < |t| && t[..o] + t[o + 1..] == DW.Join(B1)
  {
    var t := DW.Join(B);
    var o := Offset(B, k, 0);
    var B1 := B[k := B[k][1..]];
    DeleteInBlock(B, k, 0, 1);
    assert B[k][..0] + B[k][1..] == B[k][1..];
  }

  /** `EditInBlock` with nothing put in place of the removed characters. */
  lemma DeleteInBlock(B: seq<Text>, j: nat, c1: nat, c2: nat)
    requires |B| >= 1 && AllBlockText(B) && j < |B| && c1 <= c2 <= |B[j]|
    ensures var t := DW.Join(B);
      var B' := B[j := B[j][..c1] + B[j][c2..]];
      && Offset(B, j, c2) <= |t|
      && AllBlockText(B')
      && t[..Offset(B, j, c1)] + t[Offset(B, j, c2)..] == DW.Join(B')
      && Offset(B', j, c1) == Offset(B, j, c1)
  {
    var t := DW.Join(B);
    var h := B[j][..c1];
    var tl := B[j][c2..];
    assert h + [] + tl == h + tl;
    EditInBlock(B, j, c1, c2, []);
    var u := t[..Offset(B, j, c1)];
    var v := t[Offset(B, j, c2)..];
    assert u + [] + v == u + v;
  }

  /** One block of the documented whitespace pass: the block is stripped,
      and the cursor goes on to the start of the next block. */
  lemma StripStepBlocks(B: seq<Text>, j: nat, col: nat, width: nat, c: Cursor) returns (B': seq<Text>)
    requires |B| >= 1 && AllBlockText(B)
    requires j < |B| && col <= |B[j]|
    requires Valid(c) && c.text == DW.Join(B) && c.position == Offset(B, j, col)
    ensures B' == B[j := StripFrom(B[j], 0, width)] && AllBlockText(B')
    ensures var next := DewhitespaceStep(c, width);
      && next.text == DW.Join(B')
      && (j + 1 < |B| ==> next.position == Offset(B', j + 1, 0))
  {
    B' := B[j := StripFrom(B[j], 0, width)];
    DeindentStart(B, j, col, c);
    var a := MoveStartOfBlock(c, MoveAnchor);
    StripChars(B, j, 0, width, a);
    if j + 1 < |B| {
      NextFromBlock(B', j, 0, DewhitespaceChars(a, 0, width));
    }
  }

  /** What `n` blocks of the documented whitespace pass do to the text when
      they are blocks `lo` to `hi - 1`: each is stripped. */
  predicate StrippedFrom(B: seq<Text>, lo: nat, hi: nat, n: nat, width: nat, c: Cursor)
    requires |B| >= 1 && Valid(c)
  {
    DewhitespacePass(c, width, n).text == DW.Join(StripRange(B, lo, hi, width))
  }

  /** `n` blocks of the documented whitespace pass from inside block `j`. */
  lemma {:induction false} StripFromBlock(B: seq<Text>, j: nat, col: nat, n: nat, hi: nat, width: nat, c: Cursor)
    requires |B| >= 1 && AllBlockText(B)
    requires j < |B| && col <= |B[j]| && hi == j + n <= |B|
    requires Valid(c) && c.text == DW.Join(B) && c.position == Offset(B, j, col)
    ensures StrippedFrom(B, j, hi, n, width, c)
    decreases n
  {
    if n == 0 {
      assert StripRange(B, j, hi, width) == B;
    } else {
      var B' := StripStepBlocks(B, j, col, width, c);
      var next := DewhitespaceStep(c, width);
      if n > 1 {
        StripFromBlock(B', j + 1, 0, n - 1, hi, width, next);
      }
      StripCombine(B, j, n, hi, width, c, next);
    }
  }

  /** Block `j`, then the `n - 1` blocks after it. */
  lemma StripCombine(B: seq<Text>, j: nat, n: nat, hi: nat, width: nat, c: Cursor, next: Cursor)
    requires |B| >= 1 && j < |B| && n > 0 && hi == j + n && Valid(c)
    requires next == DewhitespaceStep(c, width)
    requires next.text == DW.Join(B[j := StripFrom(B[j], 0, width)])
    requires n > 1 ==> StrippedFrom(B[j := StripFrom(B[j], 0, width)], j + 1, hi, n - 1, width, next)
    ensures StrippedFrom(B, j, hi, n, width, c)
  {
    var B' := B[j := StripFrom(B[j], 0, width)];
    StripPassStep(c, width, n);
    StripRangeStep(B, j, hi, width);
    if n == 1 {
      assert StripRange(B', j + 1, hi, width) == B';
    }
  }

  lemma StripPassStep(c: Cursor, width: nat, n: nat)
    requires Valid(c) && n > 0
    ensures DewhitespacePass(c, width, n) == DewhitespacePass(DewhitespaceStep(c, width), width, n - 1)
  {}

  lemma StripRangeStep(B: seq<Text>, j: nat, hi: nat, width: nat)
    requires j < |B| && j < hi
    ensures StripRange(B[j := StripFrom(B[j], 0, width)], j + 1, hi, width) == StripRange(B, j, hi, width)
  {}

  // ---------------------------------------------------------------------
  // The documented `decreaseSelectionIndent` on blocks

  /** Setting the position to an offset of the text puts the cursor in some
      column of that offset's block. */
  lemma StartColumn(B: seq<Text>, x: Cursor, p: nat, start: Cursor) returns (col: nat)
    requires |B| >= 1 && AllBlockText(B) && Valid(x) && x.text == DW.Join(B) && p <= |x.text|
    requires start == SetPosition(x, p, MoveAnchor)
    ensures BlockNumber(x.text, p) < |B| && col <= |B[BlockNumber(x.text, p)]|
    ensures Valid(start) && start.text == x.text && start.position == Offset(B, BlockNumber(x.text, p), col)
  {
    var jc := Locate(B, p);
    LocateBlock(B, p);
    col := jc.1;
  }

  /** `decreaseSelectionIndent` with a selection, unfolded. */
  lemma DecreaseResult(c: Cursor, mode: IndentationMode, width: nat)
    requires Valid(c) && HasSelection(c)
    ensures var st := SelectionStateOf(c).0;
      var d := DeindentPass(SetPosition(c, st.startPosition, MoveAnchor), IndentationString(mode, width), st.blockCount);
      DecreaseSelectionIndent(c, mode, width) ==
        if d.1 then SetNormalizedSelection(d.0, st)
        else SetNormalizedSelection(DewhitespacePass(SetPosition(d.0, st.startPosition, MoveAnchor), width, st.blockCount), st)
  {
  }

  /** The blocks a documented `decreaseSelectionIndent` leaves, for
      blocks `lo` to `hi - 1`: without their indentation strings when one
      of them has one, stripped of leading whitespace otherwise. */
  function DecreasedRange(B: seq<Text>, lo: nat, hi: nat, ind: Text, width: nat): (R: seq<Text>)
    ensures |R| == |B|
  {
    if AnyIndent(B, lo, hi, ind) then DropRange(B, lo, hi, ind) else StripRange(B, lo, hi, width)
  }

  /** `DecreaseIndentBlocks` with the blocks named by the selection state. */
  lemma DecreasedSelection(B: seq<Text>, c: Cursor, ind: Text, width: nat, st: SelectionState, r: Cursor)
    requires |B| >= 1 && AllBlockText(B) && Valid(c) && c.text == DW.Join(B)
    requires st == SelectionStateOf(c).0
    requires var d := DeindentPass(SetPosition(c, st.startPosition, MoveAnchor), ind, st.blockCount);
      r == if d.1 then SetNormalizedSelection(d.0, st)
        else SetNormalizedSelection(DewhitespacePass(SetPosition(d.0, st.startPosition, MoveAnchor), width, st.blockCount), st)
    ensures st.endBlock < |B|
    ensures SelectsBlocks(DecreasedRange(B, st.startBlock, st.endBlock + 1, ind, width), st.startBlock, st.endBlock + 1, r)
  {
    var hi := st.endBlock + 1;
    var start := SetPosition(c, st.startPosition, MoveAnchor);
    var col := StartColumn(B, c, st.startPosition, start);
    Located(B, 0, 0);
    DeindentFrom(B, st.startBlock, col, st.blockCount, hi, ind, start);
    var d := DeindentPass(start, ind, st.blockCount);
    if d.1 {
      var B' := DropRange(B, st.startBlock, hi, ind);
      DropRangeBlockText(B, st.startBlock, hi, ind);
      NormalizedBlocks(B', d.0, st);
      assert SelectsBlocks(B', st.startBlock, hi, r);
    } else {
      var B' := StripRange(B, st.startBlock, hi, width);
      var again := SetPosition(d.0, st.startPosition, MoveAnchor);
      var col' := StartColumn(B, d.0, st.startPosition, again);
      StripFromBlock(B, st.startBlock, col', st.blockCount, hi, width, again);
      var stripped := DewhitespacePass(again, width, st.blockCount);
      StripRangeBlockText(B, st.startBlock, hi, width);
      NormalizedBlocks(B', stripped, st);
      assert SelectsBlocks(B', st.startBlock, hi, r);
    }
  }

  /** The documented `decreaseSelectionIndent` on a text made of blocks:
      when some block from the one holding the start of the selection to
      the one holding its end begins with the indentation string, each of
      those blocks that does loses it; otherwise each of those blocks loses
      its leading whitespace, up to `width` characters and no tab after the
      first. No other text changes, and the selection runs from the start
      of the first of those blocks to the end of the last. */
  lemma DecreaseIndentBlocks(B: seq<Text>, c: Cursor, mode: IndentationMode, width: nat)
    requires |B| >= 1 && AllBlockText(B) && Valid(c) && c.text == DW.Join(B) && HasSelection(c)
    ensures var sb := BlockNumber(c.text, SelectionStart(c));
      var eb := BlockNumber(c.text, SelectionEnd(c));
      var ind := IndentationString(mode, width);
      && sb <= eb < |B|
      && SelectsBlocks(DecreasedRange(B, sb, eb + 1, ind, width), sb, eb + 1, DecreaseSelectionIndent(c, mode, width))
  {
    var st := SelectionStateOf(c).0;
    var ind := IndentationString(mode, width);
    assert BlockNumber(c.text, SelectionStart(c)) == st.startBlock;
    assert BlockNumber(c.text, SelectionEnd(c)) == st.endBlock;
    DecreaseResult(c, mode, width);
    DecreasedSelection(B, c, ind, width, st, DecreaseSelectionIndent(c, mode, width));
    SameSelects(DecreasedRange(B, st.startBlock, st.endBlock + 1, ind, width), st.startBlock, st.endBlock + 1,
      BlockNumber(c.text, SelectionStart(c)), BlockNumber(c.text, SelectionEnd(c)) + 1,
      DecreasedRange(B, BlockNumber(c.text, SelectionStart(c)), BlockNumber(c.text, SelectionEnd(c)) + 1, ind, width),
      DecreaseSelectionIndent(c, mode, width));
  }

  /** `SelectsBlocks` for blocks and bounds named twice; it spares the
      solver from matching the predicate's unfolded body. */
  lemma SameSelects(B: seq<Text>, lo: nat, hi: nat, lo': nat, hi': nat, B': seq<Text>, r: Cursor)
    requires lo < hi <= |B| && lo == lo' && hi == hi' && B == B'
    requires SelectsBlocks(B, lo, hi, r)
    ensures SelectsBlocks(B', lo', hi', r)
  {
  }

  // ---------------------------------------------------------------------
  // Round trip

  /** Taking the indentation back off blocks `lo` to `hi - 1` after putting
      it on gives back the blocks. */
  lemma UndoIndentRange(B: seq<Text>, lo: nat, hi: nat, mode: IndentationMode, width: nat)
    requires lo < hi <= |B|
    ensures var ind := IndentationString(mode, width);
      DecreasedRange(IndentRange(B, lo, hi, ind), lo, hi, ind, width) == B
  {
    var ind := IndentationString(mode, width);
    var B1 := IndentRange(B, lo, hi, ind);
    if |ind| > 0 {
      assert (ind + B[lo])[..|ind|] == ind;
      assert HasIndent(B1[lo], ind);
      forall i | lo <= i < hi
        ensures DropIndent(B1[i], ind) == B[i]
      {
        assert (ind + B[i])[..|ind|] == ind;
        assert (ind + B[i])[|ind|..] == B[i];
      }
      assert DropRange(B1, lo, hi, ind) == B;
    } else {
      forall i | 0 <= i < |B|
        ensures B1[i] == B[i]
      {
        assert ind + B[i] == B[i];
      }
      assert B1 == B;
      forall i | lo <= i < hi && i < |B1|
        ensures !HasIndent(B1[i], ind)
      {
      }
      assert !AnyIndent(B1, lo, hi, ind);
      assert StripRange(B1, lo, hi, width) == B;
    }
  }

  /** Decreasing the indentation of a selection right after increasing it
      gives back the text, with the blocks the selection touched selected
      whole. */
  lemma DecreaseUndoesIncrease(B: seq<Text>, c: Cursor, mode: IndentationMode, width: nat)
    requires |B| >= 1 && AllBlockText(B) && Valid(c) && c.text == DW.Join(B)
    ensures var r := DecreaseSelectionIndent(IncreaseSelectionIndent(c, mode, width), mode, width);
      && r.text == c.text
      && (HasSelection(c) ==>
        var sb := BlockNumber(c.text, SelectionStart(c));
        var eb := BlockNumber(c.text, SelectionEnd(c));
        sb <= eb < |B| && SelectsBlocks(B, sb, eb + 1, r))
  {
    if HasSelection(c) {
      UndoIncreased(B, c, mode, width, BlockNumber(c.text, SelectionStart(c)), BlockNumber(c.text, SelectionEnd(c)),
        DecreaseSelectionIndent(IncreaseSelectionIndent(c, mode, width), mode, width));
    } else {
      assert IncreaseSelectionIndent(c, mode, width) == c;
    }
  }

  /** `DecreaseUndoesIncrease` for a cursor with a selection, with the
      selected blocks and the result named. */
  lemma UndoIncreased(B: seq<Text>, c: Cursor, mode: IndentationMode, width: nat, sb: nat, eb: nat, r: Cursor)
    requires |B| >= 1 && AllBlockText(B) && Valid(c) && c.text == DW.Join(B) && HasSelection(c)
    requires sb == BlockNumber(c.text, SelectionStart(c)) && eb == BlockNumber(c.text, SelectionEnd(c))
    requires r == DecreaseSelectionIndent(IncreaseSelectionIndent(c, mode, width), mode, width)
    ensures sb <= eb < |B| && SelectsBlocks(B, sb, eb + 1, r)
  {
    IncreasedBlocks(B, c, mode, width, sb, eb);
    UndoSelectedIndent(B, sb, eb, mode, width, IncreaseSelectionIndent(c, mode, width));
  }

  /** `IncreaseIndentBlocks` with the first and last selected blocks named. */
  lemma IncreasedBlocks(B: seq<Text>, c: Cursor, mode: IndentationMode, width: nat, sb: nat, eb: nat)
    requires |B| >= 1 && AllBlockText(B) && Valid(c) && c.text == DW.Join(B) && HasSelection(c)
    requires sb == BlockNumber(c.text, SelectionStart(c)) && eb == BlockNumber(c.text, SelectionEnd(c))
    ensures sb <= eb < |B| && IndentedBlocks(B, sb, eb + 1, IndentationString(mode, width), IncreaseSelectionIndent(c, mode, width))
  {
    IncreaseIndentBlocks(B, c, mode, width);
    EditorIndentation.SameIndented(B, BlockNumber(c.text, SelectionStart(c)), BlockNumber(c.text, SelectionEnd(c)) + 1,
      sb, eb + 1, IndentationString(mode, width), IncreaseSelectionIndent(c, mode, width));
  }

  /** Decreasing the indentation of a cursor that selects blocks `sb` to
      `eb` whole, just indented, gives back the blocks. */
  lemma UndoSelectedIndent(B: seq<Text>, sb: nat, eb: nat, mode: IndentationMode, width: nat, r1: Cursor)
    requires AllBlockText(B) && sb <= eb < |B| && Valid(r1)
    requires IndentedBlocks(B, sb, eb + 1, IndentationString(mode, width), r1)
    ensures SelectsBlocks(B, sb, eb + 1, DecreaseSelectionIndent(r1, mode, width))
  {
    var ind := IndentationString(mode, width);
    var B1 := IndentRange(B, sb, eb + 1, ind);
    assert SelectsBlocks(B1, sb, eb + 1, r1);
    IndentRangeBlockText(B, sb, eb + 1, ind);
    UndoIndentRange(B, sb, eb + 1, mode, width);
    if HasSelection(r1) {
      UndoSelected(B, B1, sb, eb, mode, width, r1);
    } else {
      UndoEmpty(B, B1, sb, eb, ind, r1);
    }
  }

  /** `UndoSelectedIndent` when the indented blocks are not all empty. */
  lemma UndoSelected(B: seq<Text>, B1: seq<Text>, sb: nat, eb: nat, mode: IndentationMode, width: nat, r1: Cursor)
    requires sb <= eb < |B1| && AllBlockText(B1) && Valid(r1) && HasSelection(r1)
    requires SelectsBlocks(B1, sb, eb + 1, r1)
    requires DecreasedRange(B1, sb, eb + 1, IndentationString(mode, width), width) == B
    ensures SelectsBlocks(B, sb, eb + 1, DecreaseSelectionIndent(r1, mode, width))
  {
    SelectedNumbers(B1, sb, eb, r1);
    DecreaseIndentBlocks(B1, r1, mode, width);
    var lo := BlockNumber(r1.text, SelectionStart(r1));
    var hi := BlockNumber(r1.text, SelectionEnd(r1)) + 1;
    SameSelects(DecreasedRange(B1, lo, hi, IndentationString(mode, width), width), lo, hi, sb, eb + 1, B,
      DecreaseSelectionIndent(r1, mode, width));
  }

  /** A cursor that selects blocks `sb` to `eb` whole starts its selection
      in block `sb` and ends it in block `eb`. */
  lemma SelectedNumbers(B: seq<Text>, sb: nat, eb: nat, r: Cursor)
    requires sb <= eb < |B| && AllBlockText(B) && Valid(r) && SelectsBlocks(B, sb, eb + 1, r)
    ensures BlockNumber(r.text, SelectionStart(r)) == sb && BlockNumber(r.text, SelectionEnd(r)) == eb
  {
    Located(B, sb, 0);
    Located(B, eb, |B[eb]|);
  }

  /** `UndoSelectedIndent` when the indented blocks are all empty: the
      selection is empty, and indenting changed nothing. */
  lemma UndoEmpty(B: seq<Text>, B1: seq<Text>, sb: nat, eb: nat, ind: Text, r1: Cursor)
    requires sb <= eb < |B| && B1 == IndentRange(B, sb, eb + 1, ind) && AllBlockText(B1) && !HasSelection(r1)
    requires SelectsBlocks(B1, sb, eb + 1, r1)
    ensures SelectsBlocks(B, sb, eb + 1, r1)
  {
    Located(B1, sb, 0);
    Located(B1, eb, |B1[eb]|);
    assert |B1[sb]| == 0;
    assert |ind| == 0 by {
      assert B1[sb] == ind + B[sb];
    }
    forall i | 0 <= i < |B|
      ensures B1[i] == B[i]
    {
      assert ind + B[i] == B[i];
    }
    assert B1 == B;
    SameSelects(B1, sb, eb + 1, sb, eb + 1, B, r1);
  }
}
