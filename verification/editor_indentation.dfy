/** The indentation algorithms of the editor: the indentation string, the
    tab key, and indenting every block of a selection. De-indentation is
    in `EditorDeindentation`. */
module EditorIndentation {
  import DW = DocumentWriters
  import opened Wrappers
  import opened TextCursors
  import opened EditorGeneral

  /** `n` copies of `ch`. */
  function Repeat(ch: char, n: nat): (s: Text)
    ensures |s| == n && forall i | 0 <= i < n :: s[i] == ch
  {
    seq(n, _ => ch)
  }

  /** `getIndentationString`: `width` spaces, or a single tab. */
  function IndentationString(mode: IndentationMode, width: nat): (s: Text)
    ensures mode == Spaces ==> |s| == width && OnlySpaces(s)
    ensures mode == Tabs ==> s == "\t"
    ensures IsBlockText(s) && forall i | 0 <= i < |s| :: DW.IsSpace(s[i])
  {
    if mode == Spaces then Repeat(' ', width) else "\t"
  }

  // ---------------------------------------------------------------------
  // Tab and backspace

  /** `tab`: without a selection the indentation string is typed at the
      cursor; with one, the selection's blocks are indented. */
  function Tab(c: Cursor, mode: IndentationMode, width: nat): (r: Cursor)
    requires Valid(c)
    ensures Valid(r)
    ensures !HasSelection(c) ==>
      var ind := IndentationString(mode, width);
      && r.text == c.text[..c.position] + ind + c.text[c.position..]
      && r.anchor == r.position == c.position + |ind|
    ensures HasSelection(c) ==> r == IncreaseSelectionIndent(c, mode, width)
  {
    if !HasSelection(c) then InsertText(c, IndentationString(mode, width))
    else IncreaseSelectionIndent(c, mode, width)
  }

  /** What precedes the cursor in its block is spaces, a whole number (maybe
      none) of indentations of `width`. */
  predicate SpaceIndents(c: Cursor, width: nat)
    requires Valid(c)
  {
    var s := BlockStart(c.text, c.position);
    && width > 0
    && (c.position - s) % width == 0
    && forall k | s <= k < c.position :: c.text[k] == ' '
  }

  /** Backspace takes back a tab typed without a selection: with tab
      indentation always, with space indentation when only whole
      indentations precede the cursor. */
  lemma BackspaceUndoesTab(c: Cursor, mode: IndentationMode, width: nat)
    requires Valid(c) && !HasSelection(c)
    requires mode == Spaces ==> SpaceIndents(c, width)
    ensures Backspace(Tab(c, mode, width), mode, width) == c
  {
    var t := c.text;
    var p := c.position;
    var ind := IndentationString(mode, width);
    var typed := Tab(c, mode, width);
    assert typed.text[..p] == t[..p];
    assert typed.text[p + |ind|..] == t[p..];
    assert t[..p] + t[p..] == t;
    if mode == Spaces {
      TypedIndent(c, width);
    } else {
      assert typed.text[..p + 1 - 1] == t[..p];
    }
  }

  /** After typing an indentation of spaces over whole indentations, whole
      indentations precede the cursor again. */
  lemma TypedIndent(c: Cursor, width: nat)
    requires Valid(c) && !HasSelection(c) && SpaceIndents(c, width)
    ensures var typed := Tab(c, Spaces, width);
      !HasSelection(typed) && IndentBefore(typed, width)
  {
    var t := c.text;
    var p := c.position;
    var s := BlockStart(t, p);
    var typed := Tab(c, Spaces, width);
    var t' := typed.text;
    assert t' == t[..p] + Repeat(' ', width) + t[p..];
    TypedSpaces(t, p, s, width);
    BlockStartIs(t', s, p + width);
    WholeIndents(p - s, width);
  }

  /** The characters around spaces typed at `p`. */
  lemma TypedSpaces(t: Text, p: nat, s: nat, width: nat)
    requires s <= p <= |t|
    requires s == 0 || t[s - 1] == '\n'
    requires forall k | s <= k < p :: t[k] == ' '
    ensures var t' := t[..p] + Repeat(' ', width) + t[p..];
      && (s == 0 || t'[s - 1] == '\n')
      && forall k | s <= k < p + width :: t'[k] == ' '
  {
    var t' := t[..p] + Repeat(' ', width) + t[p..];
    assert forall k | 0 <= k < p :: t'[k] == t[k];
    assert forall k | p <= k < p + width :: t'[k] == ' ';
  }

  lemma WholeIndents(x: nat, width: nat)
    requires width > 0 && x % width == 0
    ensures (x + width) % width == 0 && x + width >= width
  {
    var d := x / width;
    var y := x + width;
    var d', m' := y / width, y % width;
    assert x == d * width;
    assert y == d' * width + m';
    var k := d + 1 - d';
    assert m' == k * width by {
      assert d' * width + m' == d * width + width;
    }
    if k >= 1 {
      MulAtLeast(k, width);
    } else if k < 0 {
      MulAtLeast(-k, width);
    }
  }

  lemma MulAtLeast(k: int, w: int)
    requires k >= 1 && w > 0
    ensures k * w >= w
  {
    assert k * w == (k - 1) * w + w;
  }

  // ---------------------------------------------------------------------
  // Increasing the indentation of a selection

  /** `increaseSelectionIndent`: with a selection, the indentation string
      is inserted at the start of each block from the selection's first to
      its last, and the selection is normalized; without one nothing
      changes. */
  function IncreaseSelectionIndent(c: Cursor, mode: IndentationMode, width: nat): (r: Cursor)
    requires Valid(c)
    ensures Valid(r)
    ensures !HasSelection(c) ==> r == c
  {
    if !HasSelection(c) then c
    else
      var (state, atState) := SelectionStateOf(c);
      var ind := IndentationString(mode, width);
      var indented := ForeachBlock(atState, state.startPosition, state.blockCount, InsertAtStart(ind));
      SetNormalizedSelection(indented, state)
  }

  /** Blocks `lo` to `hi - 1` with `ind` put in front of each. */
  function IndentRange(B: seq<Text>, lo: nat, hi: nat, ind: Text): (R: seq<Text>)
    ensures |R| == |B|
    ensures forall i | 0 <= i < |B| :: R[i] == if lo <= i < hi then ind + B[i] else B[i]
  {
    seq(|B|, i requires 0 <= i < |B| => if lo <= i < hi then ind + B[i] else B[i])
  }

  /** Inserting at the start of block `j`: the text of the block becomes
      `ind` followed by the old text, and the cursor is after `ind`. */
  lemma InsertAtBlockStart(B: seq<Text>, j: nat, col: nat, ind: Text, c: Cursor)
    requires |B| >= 1 && AllBlockText(B) && IsBlockText(ind)
    requires j < |B| && col <= |B[j]|
    requires Valid(c) && c.text == DW.Join(B) && c.position == Offset(B, j, col)
    ensures var B' := B[j := ind + B[j]];
      var v := InsertText(MoveStartOfBlock(c, MoveAnchor), ind);
      && AllBlockText(B')
      && Valid(v) && v.text == DW.Join(B') && |v.text| == |c.text| + |ind|
      && v.position == Offset(B', j, |ind|)
  {
    var B' := B[j := ind + B[j]];
    LocatedEnds(B, j, col);
    assert B[j][..0] + ind + B[j][0..] == ind + B[j];
    EditInBlock(B, j, 0, 0, ind);
  }

  /** Going on from inside block `j` to the next block, when there is one. */
  lemma NextFromBlock(B: seq<Text>, j: nat, col: nat, c: Cursor)
    requires |B| >= 1 && AllBlockText(B) && j + 1 < |B| && col <= |B[j]|
    requires Valid(c) && c.text == DW.Join(B) && c.position == Offset(B, j, col)
    ensures MoveNextBlock(c, MoveAnchor, 1).position == Offset(B, j + 1, 0)
  {
    var e := Offset(B, j, |B[j]|);
    LocatedEnds(B, j, col);
    NextOffset(B, j);
    LocatedEnds(B, j + 1, 0);
    assert e < |c.text|;
    assert MoveNextBlock(c, MoveAnchor, 1) == MoveNextBlock(MoveTo(c, e + 1, MoveAnchor), MoveAnchor, 0);
  }

  /** One block of `increaseSelectionIndent`. */
  lemma IndentStep(B: seq<Text>, j: nat, col: nat, ind: Text, c: Cursor) returns (B': seq<Text>, next: Cursor)
    requires |B| >= 1 && AllBlockText(B) && IsBlockText(ind)
    requires j < |B| && col <= |B[j]|
    requires Valid(c) && c.text == DW.Join(B) && c.position == Offset(B, j, col)
    ensures B' == B[j := ind + B[j]] && AllBlockText(B')
    ensures next == MoveNextBlock(ApplyAction(InsertAtStart(ind), MoveStartOfBlock(c, MoveAnchor)), MoveAnchor, 1)
    ensures Valid(next) && next.text == DW.Join(B') && |next.text| == |c.text| + |ind|
    ensures j + 1 < |B| ==> next.position == Offset(B', j + 1, 0)
  {
    B' := B[j := ind + B[j]];
    InsertAtBlockStart(B, j, col, ind, c);
    var v := ApplyAction(InsertAtStart(ind), MoveStartOfBlock(c, MoveAnchor));
    next := MoveNextBlock(v, MoveAnchor, 1);
    if j + 1 < |B| {
      NextFromBlock(B', j, |ind|, v);
    }
  }

  /** What `n` blocks of `increaseSelectionIndent` do to the text when
      they are blocks `lo` to `hi - 1`: each of them gains `ind` in front,
      and no other text changes. */
  predicate IndentedFrom(B: seq<Text>, lo: nat, hi: nat, n: nat, ind: Text, c: Cursor)
    requires |B| >= 1 && Valid(c)
  {
    var r := ForeachFrom(c, n, InsertAtStart(ind));
    r.text == DW.Join(IndentRange(B, lo, hi, ind)) && |r.text| == |c.text| + n * |ind|
  }

  /** `n` blocks of `increaseSelectionIndent` from inside block `j`. */
  lemma {:induction false} IndentFrom(B: seq<Text>, j: nat, col: nat, n: nat, hi: nat, ind: Text, c: Cursor)
    requires |B| >= 1 && AllBlockText(B) && IsBlockText(ind)
    requires j < |B| && col <= |B[j]| && hi == j + n <= |B|
    requires Valid(c) && c.text == DW.Join(B) && c.position == Offset(B, j, col)
    ensures IndentedFrom(B, j, hi, n, ind, c)
    decreases n
  {
    if n == 0 {
      IndentNone(B, j, hi, ind, c);
    } else {
      var B', next := IndentStep(B, j, col, ind, c);
      if n > 1 {
        IndentFrom(B', j + 1, 0, n - 1, hi, ind, next);
      }
      IndentCombine(B, j, n, hi, ind, c, next);
    }
  }

  lemma IndentNone(B: seq<Text>, j: nat, hi: nat, ind: Text, c: Cursor)
    requires |B| >= 1 && Valid(c) && c.text == DW.Join(B) && hi == j
    ensures IndentedFrom(B, j, hi, 0, ind, c)
  {
    assert IndentRange(B, j, hi, ind) == B;
  }

  /** Block `j`, then the `n - 1` blocks after it. */
  lemma IndentCombine(B: seq<Text>, j: nat, n: nat, hi: nat, ind: Text, c: Cursor, next: Cursor)
    requires j < |B| && n > 0 && hi == j + n && Valid(c)
    requires next == MoveNextBlock(ApplyAction(InsertAtStart(ind), MoveStartOfBlock(c, MoveAnchor)), MoveAnchor, 1)
    requires next.text == DW.Join(B[j := ind + B[j]]) && |next.text| == |c.text| + |ind|
    requires n > 1 ==> IndentedFrom(B[j := ind + B[j]], j + 1, hi, n - 1, ind, next)
    ensures IndentedFrom(B, j, hi, n, ind, c)
  {
    IndentBlocksStep(c, n, ind);
    var r := ForeachFrom(c, n, InsertAtStart(ind));
    IndentRangeStep(B, j, hi, ind);
    if n == 1 {
      assert IndentRange(B[j := ind + B[j]], j + 1, hi, ind) == B[j := ind + B[j]];
    } else {
      MoreIndents(|c.text|, |next.text|, n, |ind|, |r.text|);
    }
  }

  lemma IndentBlocksStep(c: Cursor, n: nat, ind: Text)
    requires Valid(c) && n > 0
    ensures var next := MoveNextBlock(ApplyAction(InsertAtStart(ind), MoveStartOfBlock(c, MoveAnchor)), MoveAnchor, 1);
      ForeachFrom(c, n, InsertAtStart(ind)) == ForeachFrom(next, n - 1, InsertAtStart(ind))
  {}

  /** The blocks after `j`, then block `j`. */
  lemma IndentRangeStep(B: seq<Text>, j: nat, hi: nat, ind: Text)
    requires j < |B| && j < hi
    ensures IndentRange(B[j := ind + B[j]], j + 1, hi, ind) == IndentRange(B, j, hi, ind)
  {}

  lemma MoreIndents(a: nat, b: nat, n: nat, k: nat, x: nat)
    requires n > 0 && b == a + k && x == b + (n - 1) * k
    ensures x == a + n * k
  {}

  /** `r` holds the blocks `B` and selects blocks `lo` to `hi - 1` whole:
      from the start of the first to the end of the last. */
  predicate SelectsBlocks(B: seq<Text>, lo: nat, hi: nat, r: Cursor)
    requires lo < hi <= |B|
  {
    && r.text == DW.Join(B)
    && r.anchor == Offset(B, lo, 0)
    && r.position == Offset(B, hi - 1, |B[hi - 1]|)
    && r.anchor <= r.position
  }

  /** `r` holds the blocks `B` with blocks `lo` to `hi - 1` indented by
      `ind`, and selects those blocks whole. */
  predicate IndentedBlocks(B: seq<Text>, lo: nat, hi: nat, ind: Text, r: Cursor)
    requires lo < hi <= |B|
  {
    SelectsBlocks(IndentRange(B, lo, hi, ind), lo, hi, r)
  }

  /** `increaseSelectionIndent` on a text made of blocks: each block from the
      one holding the start of the selection to the one holding its end
      gains one indentation string in front, no other text changes, and the
      selection runs from the start of the first of
      those blocks to the end of the last. */
  lemma IncreaseIndentBlocks(B: seq<Text>, c: Cursor, mode: IndentationMode, width: nat)
    requires |B| >= 1 && AllBlockText(B) && Valid(c) && c.text == DW.Join(B) && HasSelection(c)
    ensures var sb := BlockNumber(c.text, SelectionStart(c));
      var eb := BlockNumber(c.text, SelectionEnd(c));
      && sb <= eb < |B|
      && IndentedBlocks(B, sb, eb + 1, IndentationString(mode, width), IncreaseSelectionIndent(c, mode, width))
  {
    var st := SelectionStateOf(c).0;
    var ind := IndentationString(mode, width);
    assert BlockNumber(c.text, SelectionStart(c)) == st.startBlock;
    assert BlockNumber(c.text, SelectionEnd(c)) == st.endBlock;
    IndentResult(c, mode, width);
    IndentedSelection(B, c, ind, st, IncreaseSelectionIndent(c, mode, width));
    SameIndented(B, st.startBlock, st.endBlock + 1, BlockNumber(c.text, SelectionStart(c)),
      BlockNumber(c.text, SelectionEnd(c)) + 1, ind, IncreaseSelectionIndent(c, mode, width));
  }

  /** `IndentedBlocks` for bounds named twice; it spares the solver from
      matching the predicate's unfolded body. */
  lemma SameIndented(B: seq<Text>, lo: nat, hi: nat, lo': nat, hi': nat, ind: Text, r: Cursor)
    requires lo < hi <= |B| && lo == lo' && hi == hi'
    requires IndentedBlocks(B, lo, hi, ind, r)
    ensures IndentedBlocks(B, lo', hi', ind, r)
  {
  }

  /** `IncreaseIndentBlocks` with the blocks named by the selection state. */
  lemma IndentedSelection(B: seq<Text>, c: Cursor, ind: Text, st: SelectionState, r: Cursor)
    requires |B| >= 1 && AllBlockText(B) && IsBlockText(ind) && Valid(c) && c.text == DW.Join(B)
    requires st == SelectionStateOf(c).0
    requires r == SetNormalizedSelection(ForeachFrom(SetPosition(c, st.startPosition, MoveAnchor), st.blockCount, InsertAtStart(ind)), st)
    ensures st.endBlock < |B|
    ensures IndentedBlocks(B, st.startBlock, st.endBlock + 1, ind, r)
  {
    var start := SetPosition(c, st.startPosition, MoveAnchor);
    var indented := ForeachFrom(start, st.blockCount, InsertAtStart(ind));
    var hi := st.endBlock + 1;
    var B' := IndentRange(B, st.startBlock, hi, ind);
    SelectedIndent(B, c, ind, st, start, hi);
    assert indented.text == DW.Join(B');
    IndentRangeBlockText(B, st.startBlock, hi, ind);
    NormalizedIndented(B', indented, st, r);
    assert IndentedBlocks(B, st.startBlock, hi, ind, r);
  }

  /** `increaseSelectionIndent` with a selection, unfolded. */
  lemma IndentResult(c: Cursor, mode: IndentationMode, width: nat)
    requires Valid(c) && HasSelection(c)
    ensures var st := SelectionStateOf(c).0;
      var ind := IndentationString(mode, width);
      IncreaseSelectionIndent(c, mode, width) ==
        SetNormalizedSelection(ForeachFrom(SetPosition(c, st.startPosition, MoveAnchor), st.blockCount, InsertAtStart(ind)), st)
  {
  }

  /** The normalized selection over the blocks of an indented text. */
  lemma NormalizedIndented(B: seq<Text>, x: Cursor, st: SelectionState, r: Cursor)
    requires |B| >= 1 && AllBlockText(B) && Valid(x) && x.text == DW.Join(B)
    requires st.startBlock <= st.endBlock < |B|
    requires r == SetNormalizedSelection(x, st)
    ensures r.text == DW.Join(B)
    ensures r.anchor == Offset(B, st.startBlock, 0) && r.position == Offset(B, st.endBlock, |B[st.endBlock]|)
    ensures r.anchor <= r.position
  {
    NormalizedBlocks(B, x, st);
  }

  /** The blocks `increaseSelectionIndent` visits are those of the
      selection, all of them in the text. */
  lemma SelectedIndent(B: seq<Text>, c: Cursor, ind: Text, st: SelectionState, start: Cursor, hi: nat)
    requires |B| >= 1 && AllBlockText(B) && IsBlockText(ind)
    requires Valid(c) && c.text == DW.Join(B)
    requires st == SelectionStateOf(c).0 && start == SetPosition(c, st.startPosition, MoveAnchor)
    requires hi == st.endBlock + 1
    ensures hi <= |B| && Valid(start)
    ensures IndentedFrom(B, st.startBlock, hi, st.blockCount, ind, start)
  {
    var jc := Locate(B, st.startPosition);
    LocateBlock(B, st.startPosition);
    Located(B, 0, 0);
    assert start.position == Offset(B, jc.0, jc.1);
    assert jc.0 == st.startBlock;
    IndentFrom(B, st.startBlock, jc.1, st.blockCount, hi, ind, start);
  }

  lemma IndentRangeBlockText(B: seq<Text>, lo: nat, hi: nat, ind: Text)
    requires AllBlockText(B) && IsBlockText(ind)
    ensures AllBlockText(IndentRange(B, lo, hi, ind))
  {
    var R := IndentRange(B, lo, hi, ind);
    forall i | 0 <= i < |R|
      ensures IsBlockText(R[i])
    {
      if lo <= i < hi {
        ConcatBlockText(ind, B[i]);
      }
    }
  }
}
