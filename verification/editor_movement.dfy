/** Cursor movement algorithms of the editor: indentation-aware Home,
    going to a numbered block, and clearing the selection. None of them
    edits the document. */
module EditorMovement {
  import DW = DocumentWriters
  import opened TextCursors

  /** The integer value of the enumerator `QTextCursor::StartOfBlock`. */
  const StartOfBlockValue: int := 4

  function ModeOf(moveAnchor: bool): MoveMode {
    if moveAnchor then MoveAnchor else KeepAnchor
  }

  /** Where the whitespace at the start of the cursor's block ends, looking
      no further than the cursor. */
  function LeadEnd(c: Cursor): nat
    requires Valid(c)
  {
    SpaceRun(c.text, BlockStart(c.text, c.position), c.position)
  }

  /** `home` as written: when something other than whitespace precedes the
      cursor in its block, move left to the end of the block's leading
      whitespace; otherwise `setPosition` is handed the enumerator
      `StartOfBlock`, which it takes as the absolute offset 4. */
  function HomeAsWritten(c: Cursor, moveAnchor: bool): (r: Cursor)
    requires Valid(c)
    ensures Valid(r) && r.text == c.text
  {
    var e := LeadEnd(c);
    if e != c.position then MoveLeft(c, ModeOf(moveAnchor), c.position - e)
    else SetPosition(c, StartOfBlockValue, ModeOf(moveAnchor))
  }

  /** Where Home should land from offset `p` of the block starting at `s`:
      an offset `q` of the same block with only whitespace before it, which
      is either the first character after the leading whitespace, before
      `p`, or the start of the block when there is no such character. */
  predicate HomeSpot(t: Text, s: nat, p: nat, q: nat)
    requires s <= q <= p <= |t|
  {
    && BlockStart(t, q) == s
    && (forall k | s <= k < q :: DW.IsSpace(t[k]))
    && (q > s ==> q < p && !DW.IsSpace(t[q]))
    && (q == s ==> (forall k | s <= k < p :: DW.IsSpace(t[k])) || !DW.IsSpace(t[s]))
  }

  /** `home` as documented: to the end of the block's leading whitespace,
      or to the start of the block if only whitespace precedes the cursor. */
  function Home(c: Cursor, moveAnchor: bool): (r: Cursor)
    requires Valid(c)
    ensures Valid(r) && r.text == c.text
    ensures var s := BlockStart(c.text, c.position);
      s <= r.position <= c.position && HomeSpot(c.text, s, c.position, r.position)
    ensures moveAnchor ==> r.anchor == r.position
    ensures !moveAnchor ==> r.anchor == c.anchor
  {
    var e := LeadEnd(c);
    BlockStartIs(c.text, BlockStart(c.text, c.position), e);
    if e != c.position then MoveLeft(c, ModeOf(moveAnchor), c.position - e)
    else MoveStartOfBlock(c, ModeOf(moveAnchor))
  }

  /** Home twice always ends at the start of the block: the first press
      leaves only whitespace before the cursor. */
  lemma HomeTwice(c: Cursor, moveAnchor: bool)
    requires Valid(c)
    ensures Home(Home(c, moveAnchor), moveAnchor).position == BlockStart(c.text, c.position)
  {
  }

  /** Where only whitespace precedes the cursor, the code as written lands
      on offset 4 whatever block the cursor is in (when the document is that
      long). */
  lemma HomeAsWrittenLandsOnFour(c: Cursor, moveAnchor: bool)
    requires Valid(c) && |c.text| >= 4
    requires forall k | BlockStart(c.text, c.position) <= k < c.position :: DW.IsSpace(c.text[k])
    ensures HomeAsWritten(c, moveAnchor).position == 4
  {}

  /** A concrete case: in "abcdef\n  x" with the cursor after the two
      spaces of the second block, the code as written moves to offset 4,
      inside the first block; the documented behaviour is offset 7, the
      start of the second block. */
  lemma HomeAsWrittenLeavesBlock()
    ensures var c := Cursor("abcdef\n  x", 9, 9);
      && HomeAsWritten(c, true).position == 4
      && Home(c, true).position == 7
      && BlockNumber(c.text, 4) == 0 && BlockNumber(c.text, 9) == 1
  {
    var c := Cursor("abcdef\n  x", 9, 9);
    BlockStartIs(c.text, 7, 9);
    HomeAsWrittenLandsOnFour(c, true);
    ExampleBlockNumbers();
  }

  lemma ExampleBlockNumbers()
    ensures BlockNumber("abcdef\n  x", 4) == 0 && BlockNumber("abcdef\n  x", 9) == 1
  {
    var t := "abcdef\n  x";
    assert t[..4] == "abcd" && t[..9] == "abcdef\n  ";
    assert "abcdef\n  "[..8] == "abcdef\n " && "abcdef\n "[..7] == "abcdef\n";
    assert "abcdef\n"[..6] == "abcdef";
    CountBlockText("abcd");
    CountBlockText("abcdef");
    CountBlockText(" ");
  }

  /** `goToBlock`: to the start of the given block, clamped to the first and
      last block, with no selection. */
  function GoToBlock(c: Cursor, block: int): (r: Cursor)
    requires Valid(c)
    ensures Valid(r) && r.text == c.text && r.anchor == r.position
    ensures BlockStart(c.text, r.position) == r.position
    ensures BlockNumber(c.text, r.position) ==
      if block <= 0 then 0 else if block <= LastBlock(c.text) then block else LastBlock(c.text)
  {
    var b := if block < 0 then 0 else block;
    var s := MoveStart(c, MoveAnchor);
    assert c.text[..0] == [];
    NextBlocksAt(s, b);
    NextBlocks(c.text, 0, b);
    MoveNextBlock(s, MoveAnchor, b)
  }

  /** The block number `n` blocks on from block `k`, stopping at the last. */
  function Ahead(k: nat, n: nat, last: nat): nat {
    if k + n <= last then k + n else last
  }

  /** The offset `n` next-block steps lead to from offset `p`. */
  function NextStarts(t: Text, p: nat, n: nat): (q: nat)
    requires p <= |t|
    ensures q <= |t|
    decreases n
  {
    if n == 0 then p
    else
      var e := BlockEnd(t, p);
      if e == |t| then p else NextStarts(t, e + 1, n - 1)
  }

  /** Without a selection, moving on `n` blocks is moving to `NextStarts`. */
  lemma {:induction false} NextBlocksAt(c: Cursor, n: nat)
    requires Valid(c) && c.anchor == c.position
    ensures var q := NextStarts(c.text, c.position, n);
      MoveNextBlock(c, MoveAnchor, n) == Cursor(c.text, q, q)
    decreases n
  {
    if n > 0 && BlockEnd(c.text, c.position) < |c.text| {
      var e := BlockEnd(c.text, c.position);
      var c' := MoveTo(c, e + 1, MoveAnchor);
      NextBlocksAt(c', n - 1);
      NextBlockUnfold(c, c', n);
      assert NextStarts(c.text, c.position, n) == NextStarts(c.text, e + 1, n - 1);
    }
  }

  /** Outside the last block, one step of a repeated next-block move goes
      past the block's separator. */
  lemma NextBlockUnfold(c: Cursor, c': Cursor, n: nat)
    requires Valid(c) && n > 0 && BlockEnd(c.text, c.position) < |c.text|
    requires c' == MoveTo(c, BlockEnd(c.text, c.position) + 1, MoveAnchor)
    ensures MoveNextBlock(c, MoveAnchor, n) == MoveNextBlock(c', MoveAnchor, n - 1)
  {}

  /** From block start `p`, `n` next-block steps reach the start of the
      block `n` on, or of the last block. */
  predicate Reaches(t: Text, p: nat, n: nat)
    requires p <= |t|
  {
    var q := NextStarts(t, p, n);
    && BlockStart(t, q) == q
    && BlockNumber(t, q) == Ahead(BlockNumber(t, p), n, LastBlock(t))
  }

  /** Stepping to next blocks from a block start: each step reaches the
      start of the next block until the last block. */
  lemma {:induction false} NextBlocks(t: Text, p: nat, n: nat)
    requires p <= |t| && BlockStart(t, p) == p
    ensures Reaches(t, p, n)
    decreases n
  {
    if n == 0 {
      NoSteps(t, p);
    } else if BlockEnd(t, p) < |t| {
      NextBlocks(t, BlockEnd(t, p) + 1, n - 1);
      MoreSteps(t, p, n);
    } else {
      LastSteps(t, p, n);
    }
  }

  lemma NoSteps(t: Text, p: nat)
    requires p <= |t| && BlockStart(t, p) == p
    ensures Reaches(t, p, 0)
  {
    BlockNumberGrows(t, p, p);
  }

  lemma LastSteps(t: Text, p: nat, n: nat)
    requires p <= |t| && BlockStart(t, p) == p && n > 0 && BlockEnd(t, p) == |t|
    ensures Reaches(t, p, n)
  {
    LastBlockEnds(t, p);
  }

  lemma MoreSteps(t: Text, p: nat, n: nat)
    requires p <= |t| && BlockStart(t, p) == p && n > 0 && BlockEnd(t, p) < |t|
    requires Reaches(t, BlockEnd(t, p) + 1, n - 1)
    ensures Reaches(t, p, n)
  {
    var e := BlockEnd(t, p);
    NextBlockStep(t, p);
    LastBlockEnds(t, p);
    BlockNumberGrows(t, p, p);
    AheadStep(BlockNumber(t, p), BlockNumber(t, e + 1), n, LastBlock(t), BlockNumber(t, NextStarts(t, e + 1, n - 1)));
  }

  lemma AheadStep(k: nat, k': nat, n: nat, last: nat, x: nat)
    requires n > 0 && k < last && k' == k + 1 && x == Ahead(k', n - 1, last)
    ensures x == Ahead(k, n, last)
  {}

  /** One step from a block start that is not in the last block reaches the
      start of the next block. */
  lemma NextBlockStep(t: Text, p: nat)
    requires p <= |t| && BlockStart(t, p) == p && BlockEnd(t, p) < |t|
    ensures BlockStart(t, BlockEnd(t, p) + 1) == BlockEnd(t, p) + 1
    ensures BlockNumber(t, BlockEnd(t, p) + 1) == BlockNumber(t, p) + 1
  {
    var e := BlockEnd(t, p);
    SameBlockNumber(t, p, e);
    PastSeparator(t, e);
    BlockStartIs(t, e + 1, e + 1);
  }

  /** Going to the block of any offset reaches that offset's block start. */
  lemma GoToBlockOfOffset(c: Cursor, p: nat)
    requires Valid(c) && p <= |c.text|
    ensures GoToBlock(c, BlockNumber(c.text, p)).position == BlockStart(c.text, p)
  {
    var t := c.text;
    var s := BlockStart(t, p);
    var q := GoToBlock(c, BlockNumber(t, p)).position;
    SameBlockNumber(t, s, p);
    BlockNumberGrows(t, p, |t|);
    assert t[..|t|] == t;
    if q < s {
      StartsDiffer(t, q, s);
    } else if s < q {
      StartsDiffer(t, s, q);
    }
  }

  /** `deselect`: the anchor joins the position. */
  function Deselect(c: Cursor): (r: Cursor)
    requires Valid(c)
    ensures Valid(r) && r.text == c.text && r.position == c.position
    ensures !HasSelection(r)
  {
    SetPosition(c, c.position, MoveAnchor)
  }

  /** Deselecting changes a cursor exactly when it has a selection. */
  lemma DeselectKeepsUnselected(c: Cursor)
    requires Valid(c)
    ensures Deselect(c) == c <==> !HasSelection(c)
  {}
}
