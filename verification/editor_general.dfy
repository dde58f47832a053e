/** The general editing algorithms of the editor: the selection state the
    indentation algorithms start from, the normalized selection they leave,
    the block iteration they share, and the indentation-aware backspace,
    newline and block duplication. */
module EditorGeneral {
  import DW = DocumentWriters
  import opened TextCursors
  import opened EditorMovement

  /** `IndentationMode`: indent with spaces or with tabs. */
  datatype IndentationMode = Spaces | Tabs

  // ---------------------------------------------------------------------
  // The selection state

  /** `CursorSelectionState`: the ordered ends of the selection, the numbers
      of the blocks holding them, and how many blocks the selection
      touches. */
  datatype SelectionState = SelectionState(
    startPosition: nat, endPosition: nat,
    startBlock: nat, endBlock: nat, blockCount: nat)

  /** The `CursorSelectionState` constructor. It moves the cursor to each
      end of the selection to read the block numbers and then puts it back;
      the cursor it leaves is returned with the state. */
  function SelectionStateOf(c: Cursor): (r: (SelectionState, Cursor))
    requires Valid(c)
    ensures r.1 == c
    ensures var st := r.0;
      && st.startPosition == SelectionStart(c) && st.endPosition == SelectionEnd(c)
      && st.startPosition <= st.endPosition <= |c.text|
      && st.startBlock == BlockNumber(c.text, st.startPosition)
      && st.endBlock == BlockNumber(c.text, st.endPosition)
      && st.startBlock <= st.endBlock <= LastBlock(c.text)
      && st.blockCount == st.endBlock - st.startBlock + 1 >= 1
  {
    var startPosition := if c.anchor > c.position then c.position else c.anchor;
    var endPosition := if c.anchor > c.position then c.anchor else c.position;
    var atStart := SetPosition(c, startPosition, MoveAnchor);
    var startBlock := BlockNumber(atStart.text, atStart.position);
    var atEnd := SetPosition(atStart, endPosition, MoveAnchor);
    var endBlock := BlockNumber(atEnd.text, atEnd.position);
    BlockNumberGrows(c.text, startPosition, endPosition);
    var restored := SetPosition(SetPosition(atEnd, c.anchor, MoveAnchor), c.position, KeepAnchor);
    (SelectionState(startPosition, endPosition, startBlock, endBlock, endBlock - startBlock + 1), restored)
  }

  /** The smaller of a block number and the last block. */
  function Clamp(b: nat, last: nat): nat {
    if b <= last then b else last
  }

  /** `setNormalizedSelection`: the anchor at the start of the state's first
      block and the position at the end of its last block. */
  function SetNormalizedSelection(c: Cursor, st: SelectionState): (r: Cursor)
    requires Valid(c)
    ensures Valid(r) && r.text == c.text
    ensures BlockStart(c.text, r.anchor) == r.anchor
    ensures BlockNumber(c.text, r.anchor) == Clamp(st.startBlock, LastBlock(c.text))
    ensures BlockEnd(c.text, r.position) == r.position
    ensures BlockNumber(c.text, r.position) == Clamp(st.endBlock, LastBlock(c.text))
    ensures st.startBlock <= st.endBlock ==> r.anchor <= r.position
  {
    var atLast := GoToBlock(c, st.endBlock);
    var atEnd := MoveEndOfBlock(atLast, MoveAnchor);
    var endPosition := atEnd.position;
    EndOfBlockFacts(c.text, atLast.position);
    var atFirst := GoToBlock(atEnd, st.startBlock);
    var startPosition := atFirst.position;
    assert atFirst == Cursor(c.text, startPosition, startPosition);
    NormalizedOrder(c.text, startPosition, endPosition);
    var r := SetPosition(atFirst, endPosition, KeepAnchor);
    assert r == Cursor(c.text, startPosition, endPosition);
    r
  }

  /** The end of a block is its own block end, in the same block. */
  lemma EndOfBlockFacts(t: Text, p: nat)
    requires p <= |t|
    ensures BlockEnd(t, BlockEnd(t, p)) == BlockEnd(t, p)
    ensures BlockNumber(t, BlockEnd(t, p)) == BlockNumber(t, p)
  {
    var e := BlockEnd(t, p);
    BlockEndIs(t, e, e);
    SameBlockNumber(t, p, e);
  }

  /** A block start lies before the end of any block with a number at least
      as large. */
  lemma NormalizedOrder(t: Text, s: nat, e: nat)
    requires s <= |t| && e <= |t|
    requires BlockStart(t, s) == s && BlockEnd(t, e) == e
    ensures BlockNumber(t, s) <= BlockNumber(t, e) ==> s <= e
  {
    if e < s {
      EndsDiffer(t, e, s);
    }
  }

  /** In a text made of blocks, the normalized selection runs from the start
      of the first selected block to the end of the last. */
  lemma NormalizedBlocks(B: seq<Text>, c: Cursor, st: SelectionState)
    requires |B| >= 1 && AllBlockText(B) && Valid(c) && c.text == DW.Join(B)
    requires st.startBlock <= st.endBlock < |B|
    ensures var r := SetNormalizedSelection(c, st);
      r.anchor == Offset(B, st.startBlock, 0) && r.position == Offset(B, st.endBlock, |B[st.endBlock]|)
  {
    var r := SetNormalizedSelection(c, st);
    Located(B, 0, 0);
    NumberedStart(B, st.startBlock, r.anchor);
    NumberedEnd(B, st.endBlock, r.position);
  }

  // ---------------------------------------------------------------------
  // Iterating over blocks

  /** The actions the editor's algorithms hand to `foreachBlock`: typing a
      text at the start of each block. */
  datatype BlockAction = InsertAtStart(s: Text)

  function ApplyAction(a: BlockAction, c: Cursor): (r: Cursor)
    requires Valid(c)
    ensures Valid(r)
  {
    match a
    case InsertAtStart(s) => InsertText(c, s)
  }

  /** `foreachBlock`: from the block holding `position`, `blocks` times: go
      to the block's start, apply the action, go on to the next block. */
  function ForeachBlock(c: Cursor, position: int, blocks: nat, a: BlockAction): (r: Cursor)
    requires Valid(c)
    ensures Valid(r)
  {
    ForeachFrom(SetPosition(c, position, MoveAnchor), blocks, a)
  }

  function ForeachFrom(c: Cursor, n: nat, a: BlockAction): (r: Cursor)
    requires Valid(c)
    ensures Valid(r)
    decreases n
  {
    if n == 0 then c
    else
      var visited := ApplyAction(a, MoveStartOfBlock(c, MoveAnchor));
      ForeachFrom(MoveNextBlock(visited, MoveAnchor, 1), n - 1, a)
  }

  // ---------------------------------------------------------------------
  // Backspace

  /** Every character is the space ' ' (not merely whitespace). */
  predicate OnlySpaces(s: Text) {
    forall i | 0 <= i < |s| :: s[i] == ' '
  }

  /** What precedes the cursor in its block is a whole number (at least
      one) of space indentations of `width`. */
  predicate IndentBefore(c: Cursor, width: nat)
    requires Valid(c)
  {
    var s := BlockStart(c.text, c.position);
    && width > 0
    && c.position - s >= width
    && (c.position - s) % width == 0
    && forall k | s <= k < c.position :: c.text[k] == ' '
  }

  /** `backspace`: with space indentation and no selection, when the text
      before the cursor in its block is a whole number of indentations, one
      indentation is deleted; otherwise the selection or the character
      before the cursor is. The width must be positive on the space path,
      where it divides. */
  function Backspace(c: Cursor, mode: IndentationMode, width: nat): (r: Cursor)
    requires Valid(c)
    requires mode == Spaces && !HasSelection(c) ==> width > 0
    ensures Valid(r) && r.anchor == r.position
    ensures HasSelection(c) ==> r == RemoveSelectedText(c)
    ensures !HasSelection(c) && mode == Spaces && IndentBefore(c, width) ==>
      && r.text == c.text[..c.position - width] + c.text[c.position..]
      && r.position == c.position - width
    ensures !HasSelection(c) && !(mode == Spaces && IndentBefore(c, width)) ==>
      r == DeletePreviousChar(c)
  {
    if mode == Spaces && !HasSelection(c) then
      var originalPosition := c.position;
      var toStart := MoveStartOfBlock(c, KeepAnchor);
      var selectedText := SelectedText(toStart);
      var back := SetPosition(toStart, originalPosition, MoveAnchor);
      var selectedLength := |selectedText|;
      BackspaceSelection(c, width);
      if selectedLength % width == 0 && selectedLength >= width && OnlySpaces(selectedText) then
        DeletePreviousChar(MoveLeft(back, KeepAnchor, width))
      else DeletePreviousChar(back)
    else DeletePreviousChar(c)
  }

  /** What `backspace` inspects is the block's text before the cursor. */
  lemma BackspaceSelection(c: Cursor, width: nat)
    requires Valid(c) && !HasSelection(c) && width > 0
    ensures var toStart := MoveStartOfBlock(c, KeepAnchor);
      var selectedText := SelectedText(toStart);
      && SetPosition(toStart, c.position, MoveAnchor) == c
      && (IndentBefore(c, width) <==>
            |selectedText| % width == 0 && |selectedText| >= width && OnlySpaces(selectedText))
  {
    var s := BlockStart(c.text, c.position);
    var selectedText := SelectedText(MoveStartOfBlock(c, KeepAnchor));
    assert selectedText == c.text[s..c.position];
    assert forall k | s <= k < c.position :: c.text[k] == selectedText[k - s];
  }

  // ---------------------------------------------------------------------
  // Newline

  /** The leading whitespace of `s`. */
  function LeadingWhitespace(s: Text): (w: Text)
    ensures w <= s
    ensures forall k | 0 <= k < |w| :: DW.IsSpace(w[k])
    ensures |w| < |s| ==> !DW.IsSpace(s[|w|])
  {
    s[..SpaceRun(s, 0, |s|)]
  }

  /** `newline`: the selection is replaced by a separator followed by the
      leading whitespace of the text between the start of the selection's
      first block and the selection. */
  function Newline(c: Cursor): (r: Cursor)
    requires Valid(c)
    ensures Valid(r) && r.anchor == r.position
    ensures var lo := SelectionStart(c);
      var w := LeadingWhitespace(c.text[BlockStart(c.text, lo)..lo]);
      && r.text == c.text[..lo] + ("\n" + w) + c.text[SelectionEnd(c)..]
      && r.position == lo + 1 + |w|
  {
    var indentCursor := if HasSelection(c) then SetPosition(c, SelectionStart(c), MoveAnchor) else c;
    var lineCursor := MoveStartOfBlock(indentCursor, KeepAnchor);
    var lineStart := SelectedText(lineCursor);
    InsertText(c, "\n" + LeadingWhitespace(lineStart))
  }

  /** Newline splits the selection's blocks in two: the first keeps the
      text before the selection, and the new block starts with that block's
      leading whitespace followed by the text after the selection. */
  lemma NewlineKeepsIndent(B: seq<Text>, c: Cursor, j1: nat, c1: nat, j2: nat, c2: nat)
    requires |B| >= 1 && AllBlockText(B) && Valid(c) && c.text == DW.Join(B)
    requires j1 <= j2 < |B| && c1 <= |B[j1]| && c2 <= |B[j2]|
    requires SelectionStart(c) == Offset(B, j1, c1) && SelectionEnd(c) == Offset(B, j2, c2)
    ensures var w := LeadingWhitespace(B[j1][..c1]);
      Newline(c).text == DW.Join(B[..j1] + [B[j1][..c1], w + B[j2][c2..]] + B[j2 + 1..])
  {
    var t := c.text;
    var lo := Offset(B, j1, c1);
    var w := LeadingWhitespace(B[j1][..c1]);
    NewlinePrefix(B, j1, c1);
    assert IsBlockText(w) by {
      SliceBlockText(B[j1], 0, c1);
      SliceBlockText(B[j1][..c1], 0, |w|);
    }
    BreakBetween(B, j1, c1, j2, c2, w);
  }

  /** The text between the start of block `j` and column `col` is the
      block's first `col` characters. */
  lemma NewlinePrefix(B: seq<Text>, j: nat, col: nat)
    requires |B| >= 1 && AllBlockText(B) && j < |B| && col <= |B[j]|
    ensures var t := DW.Join(B);
      && Offset(B, j, col) <= |t|
      && BlockStart(t, Offset(B, j, col)) == Offset(B, j, 0)
      && t[Offset(B, j, 0)..Offset(B, j, col)] == B[j][..col]
  {
    var t := DW.Join(B);
    Located(B, j, col);
    var lo := Offset(B, j, 0);
    var hi := Offset(B, j, |B[j]|);
    assert t[lo..Offset(B, j, col)] == t[lo..hi][..col];
  }

  // ---------------------------------------------------------------------
  // Duplicating a block

  /** `duplicateBlock`: a separator and a copy of the cursor's block are
      inserted at the end of the block, and the anchor and position are put
      back. */
  function DuplicateBlock(c: Cursor): (r: Cursor)
    requires Valid(c)
    ensures Valid(r)
    ensures var e := BlockEnd(c.text, c.position);
      r.text == c.text[..e] + ("\n" + CurrentBlockText(c)) + c.text[e..]
    ensures r.anchor == c.anchor && r.position == c.position
  {
    var position := c.position;
    var anchor := c.anchor;
    var atEnd := MoveEndOfBlock(c, MoveAnchor);
    var block := CurrentBlockText(atEnd);
    SameBlockText(c);
    var inserted := InsertText(InsertText(atEnd, "\n"), block);
    DuplicateShape(c.text, BlockEnd(c.text, c.position), block);
    SetPosition(SetPosition(inserted, anchor, MoveAnchor), position, KeepAnchor)
  }

  /** The end of a block is in the same block. */
  lemma SameBlockText(c: Cursor)
    requires Valid(c)
    ensures CurrentBlockText(MoveEndOfBlock(c, MoveAnchor)) == CurrentBlockText(c)
  {
    var t := c.text;
    var e := BlockEnd(t, c.position);
    BlockStartIs(t, BlockStart(t, c.position), e);
    BlockEndIs(t, e, e);
  }

  /** Inserting a separator and then `x` after it at offset `e`. */
  lemma DuplicateShape(t: Text, e: nat, x: Text)
    requires e <= |t|
    ensures var once := t[..e] + "\n" + t[e..];
      once[..e + 1] + x + once[e + 1..] == t[..e] + ("\n" + x) + t[e..]
  {
    var once := t[..e] + "\n" + t[e..];
    assert once[..e + 1] == t[..e] + "\n";
    assert once[e + 1..] == t[e..];
  }

  /** In a text made of blocks, duplicating puts a copy of the cursor's
      block right after it and leaves every other block as it was. */
  lemma DuplicateBlocks(B: seq<Text>, c: Cursor, j: nat, col: nat)
    requires |B| >= 1 && AllBlockText(B) && Valid(c) && c.text == DW.Join(B)
    requires j < |B| && col <= |B[j]| && c.position == Offset(B, j, col)
    ensures DuplicateBlock(c).text == DW.Join(B[..j + 1] + [B[j]] + B[j + 1..])
  {
    Located(B, j, col);
    SplitAfter(B, j, B[j]);
  }
}
