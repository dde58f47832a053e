/** Concrete inputs on which `decreaseSelectionIndent`, as the code is
    written, disagrees with what its documentation describes. Each
    example states both results: the as-written function of
    `EditorDeindentation` on one side, the documented one on the other,
    whose general effect `EditorDeindentation.DecreaseIndentBlocks`
    states. The smaller lemmas each evaluate one block of one pass. */
module DeindentExamples {
  import DW = DocumentWriters
  import opened Wrappers
  import opened TextCursors
  import opened EditorGeneral
  import opened EditorIndentation
  import opened EditorDeindentation

  // ---------------------------------------------------------------------
  // Unfolding the two versions

  /** The as-written result when the deindent pass removed something. */
  lemma AsWrittenFound(c: Cursor, mode: IndentationMode, width: nat, st: SelectionState, d: Cursor)
    requires Valid(c) && HasSelection(c) && st == SelectionStateOf(c).0
    requires DeindentPassAsWritten(c, IndentationString(mode, width), width, st.blockCount + 1) == (d, true)
    ensures var r := DecreaseSelectionIndentAsWritten(c, mode, width);
      r.Some? && r.value.text == d.text
  {
  }

  /** The as-written result when the deindent pass removed nothing and the
      whitespace pass ran. */
  lemma AsWrittenStripped(c: Cursor, mode: IndentationMode, width: nat, st: SelectionState, d: Cursor, e: Option<Cursor>)
    requires Valid(c) && HasSelection(c) && st == SelectionStateOf(c).0
    requires DeindentPassAsWritten(c, IndentationString(mode, width), width, st.blockCount + 1) == (d, false)
    requires DewhitespacePassAsWritten(SetPosition(d, st.startPosition, MoveAnchor), width, st.blockCount + 1) == e
    ensures var r := DecreaseSelectionIndentAsWritten(c, mode, width);
      && r.Some? == e.Some?
      && (e.Some? ==> r.value.text == e.value.text)
  {
  }

  /** The documented result, read off `DecreaseIndentBlocks`. */
  lemma DocumentedText(B: seq<Text>, c: Cursor, mode: IndentationMode, width: nat, R: seq<Text>)
    requires |B| >= 1 && AllBlockText(B) && Valid(c) && c.text == DW.Join(B) && HasSelection(c)
    requires DecreasedRange(B, BlockNumber(c.text, SelectionStart(c)), BlockNumber(c.text, SelectionEnd(c)) + 1,
      IndentationString(mode, width), width) == R
    ensures DecreaseSelectionIndent(c, mode, width).text == DW.Join(R)
  {
    DecreaseIndentBlocks(B, c, mode, width);
    var lo := BlockNumber(c.text, SelectionStart(c));
    var hi := BlockNumber(c.text, SelectionEnd(c)) + 1;
    assert SelectsBlocks(R, lo, hi, DecreaseSelectionIndent(c, mode, width));
  }

  /** The blocks holding the two ends of a selection, given as offsets
      into the blocks. */
  lemma SelectionBlocks(B: seq<Text>, c: Cursor, sb: nat, scol: nat, eb: nat, ecol: nat)
    requires |B| >= 1 && AllBlockText(B) && Valid(c) && c.text == DW.Join(B)
    requires sb < |B| && eb < |B| && scol <= |B[sb]| && ecol <= |B[eb]|
    requires SelectionStart(c) == Offset(B, sb, scol) && SelectionEnd(c) == Offset(B, eb, ecol)
    ensures BlockNumber(c.text, SelectionStart(c)) == sb && BlockNumber(c.text, SelectionEnd(c)) == eb
  {
    Located(B, sb, scol);
    Located(B, eb, ecol);
  }

  // ---------------------------------------------------------------------
  // The deindent pass starts in the cursor's block

  /** With the cursor at the end of a two-block selection, the as-written
      deindent pass starts in the second block, so the first keeps its
      indentation; the documented pass takes it from both. */
  lemma StartsAtCursorBlock()
    ensures var c := Cursor("  a\n  b", 0, 7);
      var r := DecreaseSelectionIndentAsWritten(c, Spaces, 2);
      && r.Some? && r.value.text == "  a\nb"
      && DecreaseSelectionIndent(c, Spaces, 2).text == "a\nb"
  {
    StartsAtCursorBlockAsWritten();
    StartsAtCursorBlockDocumented();
  }

  lemma StartsAtCursorBlockText()
    ensures var B: seq<Text> := ["  a", "  b"];
      && |B| == 2 && AllBlockText(B) && DW.Join(B) == "  a\n  b"
      && Offset(B, 0, 0) == 0 && Offset(B, 1, 3) == 7
  {
    var B := ["  a", "  b"];
    assert B[..1] == ["  a"] && B[1..] == ["  b"];
  }

  lemma StartsAtCursorBlockAsWritten()
    ensures var r := DecreaseSelectionIndentAsWritten(Cursor("  a\n  b", 0, 7), Spaces, 2);
      r.Some? && r.value.text == "  a\nb"
  {
    var c := Cursor("  a\n  b", 0, 7);
    StartsAtCursorBlockState();
    assert IndentationString(Spaces, 2) == "  ";
    StartsAtCursorBlockPass();
    AsWrittenFound(c, Spaces, 2, SelectionState(0, 7, 0, 1, 2), Cursor("  a\nb", 4, 5));
  }

  lemma StartsAtCursorBlockState()
    ensures SelectionStateOf(Cursor("  a\n  b", 0, 7)).0 == SelectionState(0, 7, 0, 1, 2)
  {
    StartsAtCursorBlockText();
    SelectionBlocks(["  a", "  b"], Cursor("  a\n  b", 0, 7), 0, 0, 1, 3);
  }

  lemma StartsAtCursorBlockPass()
    ensures DeindentPassAsWritten(Cursor("  a\n  b", 0, 7), "  ", 2, 3) == (Cursor("  a\nb", 4, 5), true)
  {
    StartsAtCursorBlock1();
    StartsAtCursorBlock2();
  }

  lemma StartsAtCursorBlockDocumented()
    ensures DecreaseSelectionIndent(Cursor("  a\n  b", 0, 7), Spaces, 2).text == "a\nb"
  {
    var c := Cursor("  a\n  b", 0, 7);
    var B := ["  a", "  b"];
    StartsAtCursorBlockText();
    SelectionBlocks(B, c, 0, 0, 1, 3);
    assert IndentationString(Spaces, 2) == "  ";
    StartsAtCursorBlockRange();
    DocumentedText(B, c, Spaces, 2, ["a", "b"]);
  }

  lemma StartsAtCursorBlockRange()
    ensures DecreasedRange(["  a", "  b"], 0, 2, "  ", 2) == ["a", "b"]
    ensures DW.Join(["a", "b"]) == "a\nb"
  {
    var B := ["  a", "  b"];
    assert HasIndent(B[0], "  ") && B[0][2..] == "a" && B[1][2..] == "b";
    assert ["a", "b"][1..] == ["b"];
  }

  lemma StartsAtCursorBlock1()
    ensures DeindentStepAsWritten(Cursor("  a\n  b", 0, 7), "  ", 2) == (Cursor("  a\nb", 4, 4), true)
  {
    var t := "  a\n  b";
    var u := "  a\nb";
    assert BlockStart(t, 7) == 4 && BlockEnd(t, 4) == 7;
    assert MoveNextCharacter(Cursor(t, 4, 4), KeepAnchor, 2) == Cursor(t, 4, 6);
    assert SelectedText(Cursor(t, 4, 6)) == "  ";
    assert t[..4] + t[6..] == u;
    assert BlockEnd(u, 4) == 5;
  }

  lemma StartsAtCursorBlock2()
    ensures DeindentPassAsWritten(Cursor("  a\nb", 4, 4), "  ", 2, 2) == (Cursor("  a\nb", 4, 5), false)
  {
    var u := "  a\nb";
    assert BlockStart(u, 4) == 4 && BlockStart(u, 5) == 4 && BlockEnd(u, 4) == 5 && BlockEnd(u, 5) == 5;
    assert MoveNextCharacter(Cursor(u, 4, 4), KeepAnchor, 2) == Cursor(u, 4, 5);
    assert DeindentStepAsWritten(Cursor(u, 4, 4), "  ", 2) == (Cursor(u, 4, 5), false);
    assert DeindentStepAsWritten(Cursor(u, 4, 5), "  ", 2) == (Cursor(u, 4, 5), false);
  }

  // ---------------------------------------------------------------------
  // One block too many

  /** A selection inside the first block: the as-written passes run once
      more than there are selected blocks and strip the space in front of
      the next block; the documented passes leave the text alone. */
  lemma OneBlockTooMany()
    ensures var c := Cursor("x\n y", 0, 1);
      var r := DecreaseSelectionIndentAsWritten(c, Spaces, 2);
      && r.Some? && r.value.text == "x\ny"
      && DecreaseSelectionIndent(c, Spaces, 2).text == "x\n y"
  {
    OneBlockTooManyAsWritten();
    OneBlockTooManyDocumented();
  }

  lemma OneBlockTooManyText()
    ensures var B: seq<Text> := ["x", " y"];
      && |B| == 2 && AllBlockText(B) && DW.Join(B) == "x\n y"
      && Offset(B, 0, 0) == 0 && Offset(B, 0, 1) == 1
  {
    var B := ["x", " y"];
    assert B[..1] == ["x"] && B[1..] == [" y"];
  }

  lemma OneBlockTooManyAsWritten()
    ensures var r := DecreaseSelectionIndentAsWritten(Cursor("x\n y", 0, 1), Spaces, 2);
      r.Some? && r.value.text == "x\ny"
  {
    var t := "x\n y";
    OneBlockTooManyState();
    assert IndentationString(Spaces, 2) == "  ";
    OneBlockTooManyPass();
    OneBlockTooManyStrip();
    assert SetPosition(Cursor(t, 2, 4), 0, MoveAnchor) == Cursor(t, 0, 0);
    AsWrittenStripped(Cursor(t, 0, 1), Spaces, 2, SelectionState(0, 1, 0, 0, 1), Cursor(t, 2, 4), Some(Cursor("x\ny", 2, 2)));
  }

  lemma OneBlockTooManyState()
    ensures SelectionStateOf(Cursor("x\n y", 0, 1)).0 == SelectionState(0, 1, 0, 0, 1)
  {
    OneBlockTooManyText();
    SelectionBlocks(["x", " y"], Cursor("x\n y", 0, 1), 0, 0, 0, 1);
  }

  lemma OneBlockTooManyPass()
    ensures DeindentPassAsWritten(Cursor("x\n y", 0, 1), "  ", 2, 2) == (Cursor("x\n y", 2, 4), false)
  {
    OneBlockTooMany1();
    OneBlockTooMany2();
  }

  lemma OneBlockTooManyStrip()
    ensures DewhitespacePassAsWritten(Cursor("x\n y", 0, 0), 2, 2) == Some(Cursor("x\ny", 2, 2))
  {
    OneBlockTooMany3();
    OneBlockTooMany4();
  }

  lemma OneBlockTooManyDocumented()
    ensures DecreaseSelectionIndent(Cursor("x\n y", 0, 1), Spaces, 2).text == "x\n y"
  {
    var c := Cursor("x\n y", 0, 1);
    var B := ["x", " y"];
    OneBlockTooManyText();
    SelectionBlocks(B, c, 0, 0, 0, 1);
    assert IndentationString(Spaces, 2) == "  ";
    OneBlockTooManyRange();
    DocumentedText(B, c, Spaces, 2, B);
  }

  lemma OneBlockTooManyRange()
    ensures DecreasedRange(["x", " y"], 0, 1, "  ", 2) == ["x", " y"]
  {
    var B := ["x", " y"];
    assert !AnyIndent(B, 0, 1, "  ") by {
      forall i | 0 <= i < 1 && i < |B|
        ensures !HasIndent(B[i], "  ")
      {
      }
    }
    OneBlockTooManyStripped();
  }

  lemma OneBlockTooManyStripped()
    ensures StripRange(["x", " y"], 0, 1, 2) == ["x", " y"]
  {
    var B := ["x", " y"];
    var R := StripRange(B, 0, 1, 2);
    NoSpaceKept();
    PairOf(R, "x", " y");
  }

  lemma NoSpaceKept()
    ensures StripFrom("x", 0, 2) == "x"
  {
    var t := "x";
    assert !DW.IsSpace(t[0]);
  }

  /** Extensional equality with a two-element literal. */
  lemma PairOf(R: seq<Text>, a: Text, b: Text)
    requires |R| == 2 && R[0] == a && R[1] == b
    ensures R == [a, b]
  {
  }

  /** Extensional equality with a one-element literal. */
  lemma SingleOf(R: seq<Text>, a: Text)
    requires |R| == 1 && R[0] == a
    ensures R == [a]
  {
  }

  lemma OneBlockTooMany1()
    ensures DeindentStepAsWritten(Cursor("x\n y", 0, 1), "  ", 2) == (Cursor("x\n y", 0, 2), false)
  {
    var t := "x\n y";
    assert BlockStart(t, 1) == 0 && BlockEnd(t, 0) == 1;
    assert MoveNextCharacter(Cursor(t, 0, 0), KeepAnchor, 2) == Cursor(t, 0, 2);
    assert SelectedText(Cursor(t, 0, 2))[0] == 'x';
    assert BlockEnd(t, 2) == 4;
  }

  lemma OneBlockTooMany2()
    ensures DeindentStepAsWritten(Cursor("x\n y", 0, 2), "  ", 2) == (Cursor("x\n y", 2, 4), false)
  {
    var t := "x\n y";
    assert BlockStart(t, 2) == 2 && BlockEnd(t, 2) == 4;
    assert MoveNextCharacter(Cursor(t, 2, 2), KeepAnchor, 2) == Cursor(t, 2, 4);
    assert SelectedText(Cursor(t, 2, 4))[1] == 'y';
    assert BlockEnd(t, 4) == 4;
  }

  lemma OneBlockTooMany3()
    ensures DewhitespaceStepAsWritten(Cursor("x\n y", 0, 0), 2) == Some(Cursor("x\n y", 2, 2))
  {
    var t := "x\n y";
    assert BlockStart(t, 0) == 0 && BlockEnd(t, 0) == 1;
    assert CurrentBlockText(Cursor(t, 0, 0))[0] == 'x';
    assert MoveNextBlock(Cursor(t, 0, 0), MoveAnchor, 1) == Cursor(t, 2, 2);
  }

  lemma OneBlockTooMany4()
    ensures DewhitespaceStepAsWritten(Cursor("x\n y", 2, 2), 2) == Some(Cursor("x\ny", 2, 2))
  {
    var t := "x\n y";
    var u := "x\ny";
    assert BlockStart(t, 2) == 2 && BlockEnd(t, 2) == 4;
    assert CurrentBlockText(Cursor(t, 2, 2))[0] == ' ';
    assert t[..2] + t[3..] == u;
    assert DeleteChar(Cursor(t, 2, 2)) == Cursor(u, 2, 2);
    assert BlockStart(u, 2) == 2 && BlockEnd(u, 2) == 3;
    assert CurrentBlockText(Cursor(u, 2, 2))[0] == 'y';
    assert DewhitespaceCharsAsWritten(Cursor(t, 2, 2), 0, 2) == Some(Cursor(u, 2, 2));
  }

  // ---------------------------------------------------------------------
  // Tab indentation compared against `width` characters

  /** With tab indentation and width 4 the as-written deindent pass selects
      four characters, never the one-character tab, so it finds nothing; the
      whitespace pass then removes the tab and the second block's space too.
      The documented pass takes the tab and stops. */
  lemma TabNeverMatches()
    ensures var c := Cursor("\ta\n b", 5, 0);
      var r := DecreaseSelectionIndentAsWritten(c, Tabs, 4);
      && r.Some? && r.value.text == "a\nb"
      && DecreaseSelectionIndent(c, Tabs, 4).text == "a\n b"
  {
    TabNeverMatchesAsWritten();
    TabNeverMatchesDocumented();
  }

  lemma TabNeverMatchesText()
    ensures var B: seq<Text> := ["\ta", " b"];
      && |B| == 2 && AllBlockText(B) && DW.Join(B) == "\ta\n b"
      && Offset(B, 0, 0) == 0 && Offset(B, 1, 2) == 5
  {
    var B := ["\ta", " b"];
    assert B[..1] == ["\ta"] && B[1..] == [" b"];
  }

  lemma TabNeverMatchesAsWritten()
    ensures var r := DecreaseSelectionIndentAsWritten(Cursor("\ta\n b", 5, 0), Tabs, 4);
      r.Some? && r.value.text == "a\nb"
  {
    var t := "\ta\n b";
    TabNeverMatchesState();
    assert IndentationString(Tabs, 4) == "\t";
    TabNeverMatchesPass();
    TabNeverMatchesStrip();
    assert SetPosition(Cursor(t, 3, 3), 0, MoveAnchor) == Cursor(t, 0, 0);
    AsWrittenStripped(Cursor(t, 5, 0), Tabs, 4, SelectionState(0, 5, 0, 1, 2), Cursor(t, 3, 3), Some(Cursor("a\nb", 2, 2)));
  }

  lemma TabNeverMatchesState()
    ensures SelectionStateOf(Cursor("\ta\n b", 5, 0)).0 == SelectionState(0, 5, 0, 1, 2)
  {
    TabNeverMatchesText();
    SelectionBlocks(["\ta", " b"], Cursor("\ta\n b", 5, 0), 0, 0, 1, 2);
  }

  lemma TabNeverMatchesPass()
    ensures DeindentPassAsWritten(Cursor("\ta\n b", 5, 0), "\t", 4, 3) == (Cursor("\ta\n b", 3, 3), false)
  {
    var t := "\ta\n b";
    assert BlockStart(t, 0) == 0 && BlockEnd(t, 0) == 2;
    assert BlockStart(t, 3) == 3 && BlockEnd(t, 3) == 5;
    assert DeindentStepAsWritten(Cursor(t, 5, 0), "\t", 4) == (Cursor(t, 3, 3), false);
    assert DeindentStepAsWritten(Cursor(t, 3, 3), "\t", 4) == (Cursor(t, 3, 3), false);
  }

  lemma TabNeverMatchesStrip()
    ensures DewhitespacePassAsWritten(Cursor("\ta\n b", 0, 0), 4, 3) == Some(Cursor("a\nb", 2, 2))
  {
    TabNeverMatches1();
    TabNeverMatches2();
    TabNeverMatches3();
  }

  lemma TabNeverMatchesDocumented()
    ensures DecreaseSelectionIndent(Cursor("\ta\n b", 5, 0), Tabs, 4).text == "a\n b"
  {
    var c := Cursor("\ta\n b", 5, 0);
    var B := ["\ta", " b"];
    TabNeverMatchesText();
    SelectionBlocks(B, c, 0, 0, 1, 2);
    assert IndentationString(Tabs, 4) == "\t";
    TabNeverMatchesRange();
    DocumentedText(B, c, Tabs, 4, ["a", " b"]);
  }

  lemma TabNeverMatchesRange()
    ensures DecreasedRange(["\ta", " b"], 0, 2, "\t", 4) == ["a", " b"]
    ensures DW.Join(["a", " b"]) == "a\n b"
  {
    var B := ["\ta", " b"];
    assert HasIndent(B[0], "\t") && B[0][1..] == "a" && B[1][..1] == " ";
    assert ["a", " b"][1..] == [" b"];
  }

  lemma TabNeverMatches1()
    ensures DewhitespaceStepAsWritten(Cursor("\ta\n b", 0, 0), 4) == Some(Cursor("a\n b", 2, 2))
  {
    var u := "a\n b";
    TabNeverMatchesTab();
    assert BlockStart("\ta\n b", 0) == 0;
    TabNeverMatchesNext();
  }

  lemma TabNeverMatchesNext()
    ensures MoveNextBlock(Cursor("a\n b", 0, 0), MoveAnchor, 1) == Cursor("a\n b", 2, 2)
  {
    var u := "a\n b";
    BlockEndIs(u, 0, 1);
  }

  lemma TabNeverMatchesTab()
    ensures DewhitespaceCharsAsWritten(Cursor("\ta\n b", 0, 0), 0, 4) == Some(Cursor("a\n b", 0, 0))
  {
    TabDeleted();
    LetterStops();
  }

  lemma TabDeleted()
    ensures DewhitespaceCharsAsWritten(Cursor("\ta\n b", 0, 0), 0, 4)
      == DewhitespaceCharsAsWritten(Cursor("a\n b", 0, 0), 1, 4)
  {
    var t := "\ta\n b";
    BlockEndIs(t, 0, 2);
    assert CurrentBlockText(Cursor(t, 0, 0))[0] == '\t';
    assert t[..0] + t[1..] == "a\n b";
  }

  lemma LetterStops()
    ensures DewhitespaceCharsAsWritten(Cursor("a\n b", 0, 0), 1, 4) == Some(Cursor("a\n b", 0, 0))
  {
    var u := "a\n b";
    BlockEndIs(u, 0, 1);
    assert CurrentBlockText(Cursor(u, 0, 0))[0] == 'a';
  }

  lemma TabNeverMatches2()
    ensures DewhitespaceStepAsWritten(Cursor("a\n b", 2, 2), 4) == Some(Cursor("a\nb", 2, 2))
  {
    var t := "a\n b";
    var u := "a\nb";
    assert BlockStart(t, 2) == 2 && BlockEnd(t, 2) == 4;
    assert CurrentBlockText(Cursor(t, 2, 2))[0] == ' ';
    assert t[..2] + t[3..] == u;
    assert DeleteChar(Cursor(t, 2, 2)) == Cursor(u, 2, 2);
    assert BlockStart(u, 2) == 2 && BlockEnd(u, 2) == 3;
    assert CurrentBlockText(Cursor(u, 2, 2))[0] == 'b';
    assert DewhitespaceCharsAsWritten(Cursor(t, 2, 2), 0, 4) == Some(Cursor(u, 2, 2));
  }

  lemma TabNeverMatches3()
    ensures DewhitespaceStepAsWritten(Cursor("a\nb", 2, 2), 4) == Some(Cursor("a\nb", 2, 2))
  {
    var u := "a\nb";
    assert BlockStart(u, 2) == 2 && BlockEnd(u, 2) == 3;
    assert CurrentBlockText(Cursor(u, 2, 2))[0] == 'b';
  }

  // ---------------------------------------------------------------------
  // Reading the first character of an empty block

  /** A block of two spaces with width four: the as-written whitespace
      loop deletes both and then reads the first character of the empty
      block, which `QString::at` does not allow; the documented loop stops
      there and leaves an empty block. */
  lemma EmptyBlockRead()
    ensures var c := Cursor("  ", 0, 2);
      && DecreaseSelectionIndentAsWritten(c, Spaces, 4).None?
      && DecreaseSelectionIndent(c, Spaces, 4).text == ""
  {
    EmptyBlockReadAsWritten();
    EmptyBlockReadDocumented();
  }

  lemma EmptyBlockReadText()
    ensures var B: seq<Text> := ["  "];
      && |B| == 1 && AllBlockText(B) && DW.Join(B) == "  "
      && Offset(B, 0, 0) == 0 && Offset(B, 0, 2) == 2
  {
  }

  lemma EmptyBlockReadAsWritten()
    ensures DecreaseSelectionIndentAsWritten(Cursor("  ", 0, 2), Spaces, 4).None?
  {
    var t := "  ";
    EmptyBlockReadState();
    assert IndentationString(Spaces, 4) == "    ";
    EmptyBlockReadPass();
    EmptyBlockReadStrip();
    assert SetPosition(Cursor(t, 0, 0), 0, MoveAnchor) == Cursor(t, 0, 0);
    AsWrittenStripped(Cursor(t, 0, 2), Spaces, 4, SelectionState(0, 2, 0, 0, 1), Cursor(t, 0, 0), None);
  }

  lemma EmptyBlockReadState()
    ensures SelectionStateOf(Cursor("  ", 0, 2)).0 == SelectionState(0, 2, 0, 0, 1)
  {
    EmptyBlockReadText();
    SelectionBlocks(["  "], Cursor("  ", 0, 2), 0, 0, 0, 2);
  }

  lemma EmptyBlockReadPass()
    ensures DeindentPassAsWritten(Cursor("  ", 0, 2), "    ", 4, 2) == (Cursor("  ", 0, 0), false)
  {
    var t := "  ";
    assert BlockStart(t, 2) == 0 && BlockStart(t, 0) == 0 && BlockEnd(t, 0) == 2;
    assert DeindentStepAsWritten(Cursor(t, 0, 2), "    ", 4) == (Cursor(t, 0, 0), false);
    assert DeindentStepAsWritten(Cursor(t, 0, 0), "    ", 4) == (Cursor(t, 0, 0), false);
  }

  lemma EmptyBlockReadStrip()
    ensures DewhitespacePassAsWritten(Cursor("  ", 0, 0), 4, 2) == None
  {
    var t := "  ";
    var t1 := " ";
    var t2 := "";
    assert BlockStart(t, 0) == 0 && BlockEnd(t, 0) == 2;
    assert CurrentBlockText(Cursor(t, 0, 0))[0] == ' ';
    assert t[..0] + t[1..] == t1;
    assert DeleteChar(Cursor(t, 0, 0)) == Cursor(t1, 0, 0);
    assert BlockStart(t1, 0) == 0 && BlockEnd(t1, 0) == 1;
    assert CurrentBlockText(Cursor(t1, 0, 0))[0] == ' ';
    assert t1[..0] + t1[1..] == t2;
    assert DeleteChar(Cursor(t1, 0, 0)) == Cursor(t2, 0, 0);
    assert BlockStart(t2, 0) == 0 && BlockEnd(t2, 0) == 0;
    assert DewhitespaceCharsAsWritten(Cursor(t, 0, 0), 0, 4) == None;
  }

  lemma EmptyBlockReadDocumented()
    ensures DecreaseSelectionIndent(Cursor("  ", 0, 2), Spaces, 4).text == ""
  {
    var c := Cursor("  ", 0, 2);
    EmptyBlockReadText();
    SelectionBlocks(["  "], c, 0, 0, 0, 2);
    assert IndentationString(Spaces, 4) == "    ";
    EmptyBlockReadRange();
    DocumentedText(["  "], c, Spaces, 4, [""]);
  }

  lemma EmptyBlockReadRange()
    ensures DecreasedRange(["  "], 0, 1, "    ", 4) == [""]
  {
    EmptyBlockNoIndent();
    EmptyBlockStrip();
  }

  lemma EmptyBlockNoIndent()
    ensures !AnyIndent(["  "], 0, 1, "    ")
  {
    var B := ["  "];
    assert !HasIndent(B[0], "    ");
  }

  lemma EmptyBlockStrip()
    ensures StripRange(["  "], 0, 1, 4) == [""]
  {
    TwoSpacesStripped();
    var R := StripRange(["  "], 0, 1, 4);
    SingleOf(R, "");
  }

  lemma TwoSpacesStripped()
    ensures StripFrom("  ", 0, 4) == ""
  {
    var t := "  ";
    assert t[1..] == " " && t[1..][1..] == "";
  }

  // ---------------------------------------------------------------------
  // The block length counts the separator

  /** A one-character first block: `block().length()` counts its
      separator, so the as-written pass selects into the next block, and
      going on to the next block then skips it; the documented pass takes
      the indentation from both indented blocks. */
  lemma SeparatorCounted()
    ensures var c := Cursor("x\n  y\n  z", 9, 0);
      var r := DecreaseSelectionIndentAsWritten(c, Spaces, 2);
      && r.Some? && r.value.text == "x\n  y\nz"
      && DecreaseSelectionIndent(c, Spaces, 2).text == "x\ny\nz"
  {
    SeparatorCountedAsWritten();
    SeparatorCountedDocumented();
  }

  lemma SeparatorCountedText()
    ensures var B: seq<Text> := ["x", "  y", "  z"];
      && |B| == 3 && AllBlockText(B) && DW.Join(B) == "x\n  y\n  z"
      && Offset(B, 0, 0) == 0 && Offset(B, 2, 3) == 9
  {
    var B := ["x", "  y", "  z"];
    assert B[..2] == ["x", "  y"] && B[..2][1..] == ["  y"];
    assert B[1..] == ["  y", "  z"] && B[1..][1..] == ["  z"];
  }

  lemma SeparatorCountedAsWritten()
    ensures var r := DecreaseSelectionIndentAsWritten(Cursor("x\n  y\n  z", 9, 0), Spaces, 2);
      r.Some? && r.value.text == "x\n  y\nz"
  {
    SeparatorCountedState();
    assert IndentationString(Spaces, 2) == "  ";
    SeparatorCountedPass();
    AsWrittenFound(Cursor("x\n  y\n  z", 9, 0), Spaces, 2, SelectionState(0, 9, 0, 2, 3), Cursor("x\n  y\nz", 6, 7));
  }

  lemma SeparatorCountedState()
    ensures SelectionStateOf(Cursor("x\n  y\n  z", 9, 0)).0 == SelectionState(0, 9, 0, 2, 3)
  {
    SeparatorCountedText();
    SelectionBlocks(["x", "  y", "  z"], Cursor("x\n  y\n  z", 9, 0), 0, 0, 2, 3);
  }

  lemma SeparatorCountedPass()
    ensures DeindentPassAsWritten(Cursor("x\n  y\n  z", 9, 0), "  ", 2, 4) == (Cursor("x\n  y\nz", 6, 7), true)
  {
    SeparatorCounted1();
    SeparatorCountedRest();
  }

  lemma SeparatorCountedRest()
    ensures DeindentPassAsWritten(Cursor("x\n  y\n  z", 6, 6), "  ", 2, 3) == (Cursor("x\n  y\nz", 6, 7), true)
  {
    SeparatorCounted2();
    SeparatorCounted3();
  }

  lemma SeparatorCountedDocumented()
    ensures DecreaseSelectionIndent(Cursor("x\n  y\n  z", 9, 0), Spaces, 2).text == "x\ny\nz"
  {
    var c := Cursor("x\n  y\n  z", 9, 0);
    var B := ["x", "  y", "  z"];
    SeparatorCountedText();
    SelectionBlocks(B, c, 0, 0, 2, 3);
    assert IndentationString(Spaces, 2) == "  ";
    SeparatorCountedRange();
    DocumentedText(B, c, Spaces, 2, ["x", "y", "z"]);
  }

  lemma SeparatorCountedRange()
    ensures DecreasedRange(["x", "  y", "  z"], 0, 3, "  ", 2) == ["x", "y", "z"]
    ensures DW.Join(["x", "y", "z"]) == "x\ny\nz"
  {
    var B := ["x", "  y", "  z"];
    assert HasIndent(B[1], "  ") && B[1][2..] == "y" && B[2][2..] == "z";
    assert ["x", "y", "z"][1..] == ["y", "z"] && ["y", "z"][1..] == ["z"];
  }

  lemma SeparatorCounted1()
    ensures DeindentStepAsWritten(Cursor("x\n  y\n  z", 9, 0), "  ", 2) == (Cursor("x\n  y\n  z", 6, 6), false)
  {
    var t := "x\n  y\n  z";
    assert BlockStart(t, 0) == 0 && BlockEnd(t, 0) == 1;
    assert MoveNextCharacter(Cursor(t, 0, 0), KeepAnchor, 2) == Cursor(t, 0, 2);
    assert SelectedText(Cursor(t, 0, 2))[0] == 'x';
    assert BlockEnd(t, 2) == 5;
    assert MoveNextBlock(Cursor(t, 0, 2), MoveAnchor, 1) == Cursor(t, 6, 6);
  }

  lemma SeparatorCounted2()
    ensures DeindentStepAsWritten(Cursor("x\n  y\n  z", 6, 6), "  ", 2) == (Cursor("x\n  y\nz", 6, 6), true)
  {
    var t := "x\n  y\n  z";
    var u := "x\n  y\nz";
    assert BlockStart(t, 6) == 6 && BlockEnd(t, 6) == 9;
    assert MoveNextCharacter(Cursor(t, 6, 6), KeepAnchor, 2) == Cursor(t, 6, 8);
    assert SelectedText(Cursor(t, 6, 8)) == "  ";
    assert t[..6] + t[8..] == u;
    assert BlockEnd(u, 6) == 7;
  }

  lemma SeparatorCounted3()
    ensures DeindentPassAsWritten(Cursor("x\n  y\nz", 6, 6), "  ", 2, 2) == (Cursor("x\n  y\nz", 6, 7), false)
  {
    var u := "x\n  y\nz";
    assert BlockStart(u, 6) == 6 && BlockStart(u, 7) == 6 && BlockEnd(u, 6) == 7 && BlockEnd(u, 7) == 7;
    assert MoveNextCharacter(Cursor(u, 6, 6), KeepAnchor, 2) == Cursor(u, 6, 7);
    assert DeindentStepAsWritten(Cursor(u, 6, 6), "  ", 2) == (Cursor(u, 6, 7), false);
    assert DeindentStepAsWritten(Cursor(u, 6, 7), "  ", 2) == (Cursor(u, 6, 7), false);
  }
}
