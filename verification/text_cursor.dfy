/** A plain-text document and a text cursor over it, with the editing and
    movement primitives the editor algorithms are written against.

    The document is its plain text: blocks (paragraphs) separated by `\n`,
    so a document of `k` separators has `k + 1` blocks, the last possibly
    empty. A cursor position is an offset `0 ..= |text|` between characters;
    a cursor has a position and an anchor, and the text between the two is
    its selection. Block structure is described two ways: by scanning the
    flat text (`BlockStart`, `BlockEnd`, `BlockNumber`), which is how the
    primitives are defined, and as the sequence of block texts `B` whose
    `\n`-join is the document, which is how the algorithms' effects are
    stated. The bridge lemmas connect the two. */
module TextCursors {
  import DW = DocumentWriters

  type Text = seq<char>

  /** Text inside one block: no separator. */
  predicate IsBlockText(s: Text) {
    forall i | 0 <= i < |s| :: s[i] != '\n'
  }

  predicate AllBlockText(B: seq<Text>) {
    forall j | 0 <= j < |B| :: IsBlockText(B[j])
  }

  // ---------------------------------------------------------------------
  // Block structure of the flat text

  /** The number of block separators in `s`. */
  function Count(s: Text): nat
    decreases |s|
  {
    if |s| == 0 then 0 else Count(s[..|s| - 1]) + (if s[|s| - 1] == '\n' then 1 else 0)
  }

  lemma {:induction false} CountAppend(a: Text, b: Text)
    ensures Count(a + b) == Count(a) + Count(b)
    decreases |b|
  {
    if |b| == 0 {
      assert a + b == a;
    } else {
      assert (a + b)[..|a + b| - 1] == a + b[..|b| - 1];
      CountAppend(a, b[..|b| - 1]);
    }
  }

  lemma {:induction false} CountBlockText(s: Text)
    requires IsBlockText(s)
    ensures Count(s) == 0
    decreases |s|
  {
    if |s| > 0 {
      CountBlockText(s[..|s| - 1]);
    }
  }

  /** `QTextBlock::blockNumber` of the block holding offset `p`. */
  function BlockNumber(t: Text, p: nat): nat
    requires p <= |t|
  {
    Count(t[..p])
  }

  /** The number of the last block. */
  function LastBlock(t: Text): nat {
    Count(t)
  }

  /** The offset where the block holding `p` starts. */
  function BlockStart(t: Text, p: nat): (s: nat)
    requires p <= |t|
    ensures s <= p && (s == 0 || t[s - 1] == '\n')
    ensures forall k | s <= k < p :: t[k] != '\n'
    decreases p
  {
    if p == 0 || t[p - 1] == '\n' then p else BlockStart(t, p - 1)
  }

  /** The offset where the block holding `p` ends: its separator, or the
      end of the text. */
  function BlockEnd(t: Text, p: nat): (e: nat)
    requires p <= |t|
    ensures p <= e <= |t| && (e == |t| || t[e] == '\n')
    ensures forall k | p <= k < e :: t[k] != '\n'
    decreases |t| - p
  {
    if p == |t| || t[p] == '\n' then p else BlockEnd(t, p + 1)
  }

  /** A block start is the only offset at or before `q` that follows a
      separator (or is 0) with no separator up to `q`. */
  lemma BlockStartIs(t: Text, lo: nat, q: nat)
    requires lo <= q <= |t| && (lo == 0 || t[lo - 1] == '\n')
    requires forall k | lo <= k < q :: t[k] != '\n'
    ensures BlockStart(t, q) == lo
  {}

  lemma BlockEndIs(t: Text, q: nat, hi: nat)
    requires q <= hi <= |t| && (hi == |t| || t[hi] == '\n')
    requires forall k | q <= k < hi :: t[k] != '\n'
    ensures BlockEnd(t, q) == hi
  {}

  /** Offsets with no separator between them are in the same block. */
  lemma SameBlockNumber(t: Text, p: nat, q: nat)
    requires p <= q <= |t|
    requires forall k | p <= k < q :: t[k] != '\n'
    ensures BlockNumber(t, q) == BlockNumber(t, p)
  {
    assert t[..q] == t[..p] + t[p..q];
    CountAppend(t[..p], t[p..q]);
    CountBlockText(t[p..q]);
  }

  /** Passing a separator moves to the next block number. */
  lemma PastSeparator(t: Text, e: nat)
    requires e < |t| && t[e] == '\n'
    ensures BlockNumber(t, e + 1) == BlockNumber(t, e) + 1
  {
    assert t[..e + 1][..e] == t[..e];
  }

  /** Block numbers never decrease along the text. */
  lemma BlockNumberGrows(t: Text, p: nat, q: nat)
    requires p <= q <= |t|
    ensures BlockNumber(t, p) <= BlockNumber(t, q) <= LastBlock(t)
  {
    assert t[..q] == t[..p] + t[p..q];
    CountAppend(t[..p], t[p..q]);
    assert t == t[..q] + t[q..];
    CountAppend(t[..q], t[q..]);
  }

  /** The block of `p` is the last one exactly when it runs to the end of
      the text. */
  lemma LastBlockEnds(t: Text, p: nat)
    requires p <= |t|
    ensures BlockEnd(t, p) == |t| <==> BlockNumber(t, p) == LastBlock(t)
  {
    var e := BlockEnd(t, p);
    SameBlockNumber(t, p, e);
    assert t[..|t|] == t;
    if e < |t| {
      PastSeparator(t, e);
      BlockNumberGrows(t, e + 1, |t|);
    }
  }

  /** Distinct block starts have distinct block numbers. */
  lemma StartsDiffer(t: Text, s1: nat, s2: nat)
    requires s1 < s2 <= |t| && t[s2 - 1] == '\n'
    ensures BlockNumber(t, s1) < BlockNumber(t, s2)
  {
    BlockNumberGrows(t, s1, s2 - 1);
    PastSeparator(t, s2 - 1);
  }

  // ---------------------------------------------------------------------
  // The text as the join of its blocks

  /** The text of the blocks before block `j`, with the separator that ends
      each. */
  function Before(B: seq<Text>, j: nat): Text
    requires j < |B|
  {
    if j == 0 then [] else DW.Join(B[..j]) + "\n"
  }

  /** The text after block `j`, starting with its separator. */
  function After(B: seq<Text>, j: nat): Text
    requires j < |B|
  {
    if j == |B| - 1 then [] else "\n" + DW.Join(B[j + 1..])
  }

  /** The offset of column `col` of block `j`. */
  function Offset(B: seq<Text>, j: nat, col: nat): nat
    requires j < |B|
  {
    |Before(B, j)| + col
  }

  lemma {:induction false} JoinAppend(X: seq<Text>, Y: seq<Text>)
    requires |X| >= 1 && |Y| >= 1
    ensures DW.Join(X + Y) == DW.Join(X) + "\n" + DW.Join(Y)
    decreases |X|
  {
    if |X| == 1 {
      assert (X + Y)[1..] == Y;
    } else {
      assert (X + Y)[1..] == X[1..] + Y;
      JoinAppend(X[1..], Y);
    }
  }

  /** The blocks up to `j` are the text before block `j` and block `j`. */
  lemma JoinUpTo(B: seq<Text>, j: nat)
    requires j < |B|
    ensures DW.Join(B[..j + 1]) == Before(B, j) + B[j]
  {
    if j > 0 {
      assert B[..j + 1] == B[..j] + [B[j]];
      DW.JoinSnoc(B[..j], B[j]);
    } else {
      assert B[..1] == [B[0]];
    }
  }

  /** The text is the blocks before `j`, block `j`, and the blocks after. */
  lemma Decompose(B: seq<Text>, j: nat)
    requires j < |B|
    ensures DW.Join(B) == Before(B, j) + B[j] + After(B, j)
  {
    JoinUpTo(B, j);
    if j < |B| - 1 {
      DecomposeInner(B, j);
    } else {
      assert B == B[..j + 1];
    }
  }

  lemma DecomposeInner(B: seq<Text>, j: nat)
    requires j < |B| - 1
    requires DW.Join(B[..j + 1]) == Before(B, j) + B[j]
    ensures DW.Join(B) == Before(B, j) + B[j] + After(B, j)
  {
    var J := DW.Join(B[j + 1..]);
    assert B == B[..j + 1] + B[j + 1..];
    JoinAppend(B[..j + 1], B[j + 1..]);
    Regroup3(Before(B, j), B[j], J);
  }

  lemma {:induction false} CountJoin(B: seq<Text>)
    requires |B| >= 1 && AllBlockText(B)
    ensures Count(DW.Join(B)) == |B| - 1
    decreases |B|
  {
    CountBlockText(B[0]);
    if |B| > 1 {
      CountJoin(B[1..]);
      CountAppend(B[0], "\n");
      CountAppend(B[0] + "\n", DW.Join(B[1..]));
    }
  }

  lemma CountBefore(B: seq<Text>, j: nat)
    requires j < |B| && AllBlockText(B)
    ensures Count(Before(B, j)) == j
  {
    if j > 0 {
      CountJoin(B[..j]);
      CountAppend(DW.Join(B[..j]), "\n");
    }
  }

  /** Where block `j` sits in the text: after a separator (unless first),
      before one (unless last), with its characters in between. */
  lemma Placed(B: seq<Text>, j: nat)
    requires j < |B|
    ensures var t := DW.Join(B);
      var lo := Offset(B, j, 0);
      && lo + |B[j]| <= |t|
      && t[lo..lo + |B[j]|] == B[j]
      && (lo == 0 || t[lo - 1] == '\n')
      && (lo + |B[j]| == |t| || t[lo + |B[j]|] == '\n')
  {
    Decompose(B, j);
    var t := DW.Join(B);
    var lo := Offset(B, j, 0);
    assert t[lo..lo + |B[j]|] == B[j];
    if lo + |B[j]| < |t| {
      assert t[lo + |B[j]|] == After(B, j)[0];
    }
  }

  /** Column `col` of block `j` lies in block `j`: its block starts at column
      0 and ends after the block's text. */
  lemma LocatedEnds(B: seq<Text>, j: nat, col: nat)
    requires |B| >= 1 && AllBlockText(B) && j < |B| && col <= |B[j]|
    ensures var t := DW.Join(B);
      && Offset(B, j, |B[j]|) <= |t|
      && BlockStart(t, Offset(B, j, col)) == Offset(B, j, 0)
      && BlockEnd(t, Offset(B, j, col)) == Offset(B, j, |B[j]|)
  {
    Placed(B, j);
    assert IsBlockText(B[j]);
    LocatedStart(B, j, col);
    LocatedEnd(B, j, col);
  }

  lemma LocatedStart(B: seq<Text>, j: nat, col: nat)
    requires j < |B| && col <= |B[j]| && IsBlockText(B[j])
    requires var t := DW.Join(B);
      var lo := Offset(B, j, 0);
      && lo + |B[j]| <= |t|
      && t[lo..lo + |B[j]|] == B[j]
      && (lo == 0 || t[lo - 1] == '\n')
    ensures BlockStart(DW.Join(B), Offset(B, j, col)) == Offset(B, j, 0)
  {
    var lo := Offset(B, j, 0);
    SliceFree(DW.Join(B), lo, lo + |B[j]|, lo, lo + col);
    BlockStartIs(DW.Join(B), lo, lo + col);
  }

  lemma LocatedEnd(B: seq<Text>, j: nat, col: nat)
    requires j < |B| && col <= |B[j]| && IsBlockText(B[j])
    requires var t := DW.Join(B);
      var lo := Offset(B, j, 0);
      && lo + |B[j]| <= |t|
      && t[lo..lo + |B[j]|] == B[j]
      && (lo + |B[j]| == |t| || t[lo + |B[j]|] == '\n')
    ensures BlockEnd(DW.Join(B), Offset(B, j, col)) == Offset(B, j, |B[j]|)
  {
    var lo := Offset(B, j, 0);
    SliceFree(DW.Join(B), lo, lo + |B[j]|, lo + col, lo + |B[j]|);
    BlockEndIs(DW.Join(B), lo + col, lo + |B[j]|);
  }

  /** No separator lies inside a stretch of block text. */
  lemma SliceFree(t: Text, lo: nat, hi: nat, a: nat, b: nat)
    requires lo <= a <= b <= hi <= |t| && IsBlockText(t[lo..hi])
    ensures forall k | a <= k < b :: t[k] != '\n'
  {
    forall k | a <= k < b
      ensures t[k] != '\n'
    {
      assert t[k] == t[lo..hi][k - lo];
    }
  }

  /** Column `col` of block `j` is in block number `j`. */
  lemma LocatedNumber(B: seq<Text>, j: nat, col: nat)
    requires |B| >= 1 && AllBlockText(B) && j < |B| && col <= |B[j]|
    ensures Offset(B, j, col) <= |DW.Join(B)|
    ensures BlockNumber(DW.Join(B), Offset(B, j, col)) == j
  {
    var t := DW.Join(B);
    var pre := Before(B, j);
    Decompose(B, j);
    assert t[..Offset(B, j, col)] == pre + B[j][..col];
    CountBefore(B, j);
    CountAppend(pre, B[j][..col]);
    CountBlockText(B[j][..col]);
  }

  /** Column `col` of block `j` lies in block `j`: its block starts at column
      0, ends after the block's text, and is number `j` of `|B|`. */
  lemma Located(B: seq<Text>, j: nat, col: nat)
    requires |B| >= 1 && AllBlockText(B) && j < |B| && col <= |B[j]|
    ensures var t := DW.Join(B);
      && Offset(B, j, |B[j]|) <= |t|
      && BlockStart(t, Offset(B, j, col)) == Offset(B, j, 0)
      && BlockEnd(t, Offset(B, j, col)) == Offset(B, j, |B[j]|)
      && BlockNumber(t, Offset(B, j, col)) == j
      && LastBlock(t) == |B| - 1
      && t[Offset(B, j, 0)..Offset(B, j, |B[j]|)] == B[j]
  {
    LocatedEnds(B, j, col);
    LocatedNumber(B, j, col);
    CountJoin(B);
    Placed(B, j);
  }

  /** The only block start numbered `j` is the start of block `j`. */
  lemma NumberedStart(B: seq<Text>, j: nat, p: nat)
    requires |B| >= 1 && AllBlockText(B) && j < |B| && p <= |DW.Join(B)|
    requires BlockStart(DW.Join(B), p) == p && BlockNumber(DW.Join(B), p) == j
    ensures p == Offset(B, j, 0)
  {
    var t := DW.Join(B);
    var q := Offset(B, j, 0);
    LocatedEnds(B, j, 0);
    LocatedNumber(B, j, 0);
    if p < q {
      StartsDiffer(t, p, q);
    } else if q < p {
      StartsDiffer(t, q, p);
    }
  }

  /** The only block end numbered `j` is the end of block `j`. */
  lemma NumberedEnd(B: seq<Text>, j: nat, p: nat)
    requires |B| >= 1 && AllBlockText(B) && j < |B| && p <= |DW.Join(B)|
    requires BlockEnd(DW.Join(B), p) == p && BlockNumber(DW.Join(B), p) == j
    ensures p == Offset(B, j, |B[j]|)
  {
    var t := DW.Join(B);
    var q := Offset(B, j, |B[j]|);
    LocatedEnds(B, j, |B[j]|);
    LocatedNumber(B, j, |B[j]|);
    if p < q {
      EndsDiffer(t, p, q);
    } else if q < p {
      EndsDiffer(t, q, p);
    }
  }

  /** A block end has a smaller block number than any later offset. */
  lemma EndsDiffer(t: Text, e: nat, q: nat)
    requires e < q <= |t| && t[e] == '\n'
    ensures BlockNumber(t, e) < BlockNumber(t, q)
  {
    PastSeparator(t, e);
    BlockNumberGrows(t, e + 1, q);
  }

  /** Moving from block `j` to `j + 1` skips one separator. */
  lemma NextOffset(B: seq<Text>, j: nat)
    requires j + 1 < |B|
    ensures Offset(B, j + 1, 0) == Offset(B, j, |B[j]|) + 1
  {
    assert B[..j + 1] == B[..j] + [B[j]];
    if j > 0 {
      DW.JoinSnoc(B[..j], B[j]);
    } else {
      assert B[..1] == [B[0]];
    }
  }

  /** Offsets in block `j + 1` of `B` are offsets in block `j` of its tail,
      shifted past the first block and its separator. */
  lemma OffsetOfTail(B: seq<Text>, j: nat, col: nat)
    requires j + 1 < |B|
    ensures Offset(B, j + 1, col) == |B[0]| + 1 + Offset(B[1..], j, col)
  {
    assert B[..j + 1][1..] == B[1..][..j];
    if j == 0 {
      assert B[..1] == [B[0]];
    }
  }

  /** The block coordinates of an offset: every offset is some column of
      some block. */
  function Locate(B: seq<Text>, q: nat): (r: (nat, nat))
    requires |B| >= 1 && q <= |DW.Join(B)|
    ensures r.0 < |B| && r.1 <= |B[r.0]| && Offset(B, r.0, r.1) == q
    decreases |B|
  {
    if q <= |B[0]| then (0, q)
    else
      var r := Locate(B[1..], q - |B[0]| - 1);
      OffsetOfTail(B, r.0, r.1);
      (r.0 + 1, r.1)
  }

  /** Every offset's block is found from its coordinates. */
  lemma LocateBlock(B: seq<Text>, q: nat)
    requires |B| >= 1 && AllBlockText(B) && q <= |DW.Join(B)|
    ensures var r := Locate(B, q);
      BlockNumber(DW.Join(B), q) == r.0 && BlockStart(DW.Join(B), q) == Offset(B, r.0, 0)
  {
    var r := Locate(B, q);
    Located(B, r.0, r.1);
  }

  /** The text before column `col` of block `j`. */
  lemma HeadText(B: seq<Text>, j: nat, col: nat)
    requires j < |B| && col <= |B[j]|
    ensures Offset(B, j, col) <= |DW.Join(B)|
    ensures DW.Join(B)[..Offset(B, j, col)] == Before(B, j) + B[j][..col]
  {
    Decompose(B, j);
  }

  /** The text from column `col` of block `j` on. */
  lemma TailText(B: seq<Text>, j: nat, col: nat)
    requires j < |B| && col <= |B[j]|
    ensures Offset(B, j, col) <= |DW.Join(B)|
    ensures DW.Join(B)[Offset(B, j, col)..] == B[j][col..] + After(B, j)
  {
    var P := Before(B, j);
    var A := After(B, j);
    Decompose(B, j);
    SplitAt(B[j], col);
    assert DW.Join(B) == (P + B[j][..col]) + (B[j][col..] + A);
  }

  lemma SplitAt(a: Text, i: nat)
    requires i <= |a|
    ensures a == a[..i] + a[i..]
  {}

  /** Replacing block `j` leaves the text around it alone. */
  lemma SameSurroundings(B: seq<Text>, j: nat, x: Text)
    requires j < |B|
    ensures Before(B[j := x], j) == Before(B, j) && After(B[j := x], j) == After(B, j)
  {
    assert B[j := x][..j] == B[..j] && B[j := x][j + 1..] == B[j + 1..];
  }

  lemma ConcatBlockText(a: Text, b: Text)
    requires IsBlockText(a) && IsBlockText(b)
    ensures IsBlockText(a + b)
  {
    assert forall k | 0 <= k < |a + b| :: (a + b)[k] == if k < |a| then a[k] else b[k - |a|];
  }

  lemma SliceBlockText(a: Text, i: nat, k: nat)
    requires IsBlockText(a) && i <= k <= |a|
    ensures IsBlockText(a[i..k])
  {
    assert forall m | 0 <= m < k - i :: a[i..k][m] == a[i + m];
  }

  /** Replacing column `j`'s block by block text keeps every block block
      text. */
  lemma ReplaceBlockText(B: seq<Text>, j: nat, x: Text)
    requires AllBlockText(B) && IsBlockText(x) && j < |B|
    ensures AllBlockText(B[j := x])
  {}

  /** Replacing columns `c1 .. c2` of block `j` by block text `s` changes
      that block only. */
  lemma EditInBlock(B: seq<Text>, j: nat, c1: nat, c2: nat, s: Text)
    requires |B| >= 1 && AllBlockText(B) && IsBlockText(s)
    requires j < |B| && c1 <= c2 <= |B[j]|
    ensures var t := DW.Join(B);
      var B' := B[j := B[j][..c1] + s + B[j][c2..]];
      && Offset(B, j, c2) <= |t|
      && AllBlockText(B')
      && t[..Offset(B, j, c1)] + s + t[Offset(B, j, c2)..] == DW.Join(B')
      && Before(B', j) == Before(B, j)
  {
    var P := Before(B, j);
    var A := After(B, j);
    var h := B[j][..c1];
    var tl := B[j][c2..];
    var x := h + s + tl;
    HeadText(B, j, c1);
    TailText(B, j, c2);
    SameSurroundings(B, j, x);
    Decompose(B[j := x], j);
    Regroup5(P, h, s, tl, A);
    assert IsBlockText(B[j]);
    SliceBlockText(B[j], 0, c1);
    SliceBlockText(B[j], c2, |B[j]|);
    ConcatBlockText(h, s);
    ConcatBlockText(h + s, tl);
    ReplaceBlockText(B, j, x);
  }

  /** Replacing the text between a column of block `j1` and a column of
      block `j2` by a separator and block text `w` leaves the head of block
      `j1` as a block and starts the next one with `w`. */
  lemma BreakBetween(B: seq<Text>, j1: nat, c1: nat, j2: nat, c2: nat, w: Text)
    requires |B| >= 1 && AllBlockText(B) && IsBlockText(w)
    requires j1 <= j2 < |B| && c1 <= |B[j1]| && c2 <= |B[j2]|
    ensures var t := DW.Join(B);
      var B' := B[..j1] + [B[j1][..c1], w + B[j2][c2..]] + B[j2 + 1..];
      && Offset(B, j1, c1) <= |t| && Offset(B, j2, c2) <= |t|
      && AllBlockText(B')
      && t[..Offset(B, j1, c1)] + ("\n" + w) + t[Offset(B, j2, c2)..] == DW.Join(B')
  {
    var h := B[j1][..c1];
    var tl := B[j2][c2..];
    var B' := B[..j1] + [h, w + tl] + B[j2 + 1..];
    HeadText(B, j1, c1);
    TailText(B, j2, c2);
    BrokenSurroundings(B, j1, j2, h, w + tl);
    JoinUpTo(B', j1);
    Decompose(B', j1 + 1);
    Regroup(Before(B, j1), h, w, tl, After(B, j2));
    BrokenBlockText(B, j1, c1, j2, c2, w);
  }

  /** The text around the two blocks that replace blocks `j1 ..= j2`. */
  lemma BrokenSurroundings(B: seq<Text>, j1: nat, j2: nat, x: Text, y: Text)
    requires j1 <= j2 < |B|
    ensures var B' := B[..j1] + [x, y] + B[j2 + 1..];
      && |B'| == |B| - (j2 - j1) + 1
      && B'[j1] == x && B'[j1 + 1] == y
      && Before(B', j1) == Before(B, j1)
      && After(B', j1 + 1) == After(B, j2)
      && Before(B', j1 + 1) == DW.Join(B'[..j1 + 1]) + "\n"
  {
    var B' := B[..j1] + [x, y] + B[j2 + 1..];
    assert B'[..j1] == B[..j1];
    assert B'[j1 + 2..] == B[j2 + 1..];
  }

  lemma BrokenBlockText(B: seq<Text>, j1: nat, c1: nat, j2: nat, c2: nat, w: Text)
    requires AllBlockText(B) && IsBlockText(w)
    requires j1 <= j2 < |B| && c1 <= |B[j1]| && c2 <= |B[j2]|
    ensures AllBlockText(B[..j1] + [B[j1][..c1], w + B[j2][c2..]] + B[j2 + 1..])
  {
    assert IsBlockText(B[j1]) && IsBlockText(B[j2]);
    SliceBlockText(B[j1], 0, c1);
    SliceBlockText(B[j2], c2, |B[j2]|);
    ConcatBlockText(w, B[j2][c2..]);
    var B' := B[..j1] + [B[j1][..c1], w + B[j2][c2..]] + B[j2 + 1..];
    forall k | 0 <= k < |B'|
      ensures IsBlockText(B'[k])
    {
      if k > j1 + 1 {
        assert B'[k] == B[k - j1 - 2 + j2 + 1];
      }
    }
  }

  /** Inserting a separator and block text `w` at the end of block `j` adds
      a block after it. */
  lemma SplitAfter(B: seq<Text>, j: nat, w: Text)
    requires |B| >= 1 && AllBlockText(B) && IsBlockText(w) && j < |B|
    ensures var t := DW.Join(B);
      var B' := B[..j + 1] + [w] + B[j + 1..];
      && Offset(B, j, |B[j]|) <= |t|
      && AllBlockText(B')
      && t[..Offset(B, j, |B[j]|)] + ("\n" + w) + t[Offset(B, j, |B[j]|)..] == DW.Join(B')
  {
    BreakBetween(B, j, |B[j]|, j, |B[j]|, w);
    assert B[j][..|B[j]|] == B[j] && w + B[j][|B[j]|..] == w;
    InsertShape(B, j, w);
  }

  lemma Regroup3(p: Text, b: Text, j: Text)
    ensures (p + b) + "\n" + j == p + b + ("\n" + j)
  {}

  lemma Regroup5(p: Text, h: Text, s: Text, tl: Text, a: Text)
    ensures (p + h) + s + (tl + a) == p + (h + s + tl) + a
  {}

  lemma Regroup(p: Text, h: Text, w: Text, tl: Text, a: Text)
    ensures (p + h) + ("\n" + w) + (tl + a) == (p + h + "\n") + (w + tl) + a
  {}

  lemma InsertShape(B: seq<Text>, j: nat, w: Text)
    requires j < |B|
    ensures B[..j] + [B[j], w] + B[j + 1..] == B[..j + 1] + [w] + B[j + 1..]
  {
    assert B[..j + 1] == B[..j] + [B[j]];
  }

  /** Every text is the join of its blocks. */
  function Blocks(t: Text): (B: seq<Text>)
    ensures |B| >= 1 && AllBlockText(B) && DW.Join(B) == t
    decreases |t|
  {
    var e := BlockEnd(t, 0);
    assert IsBlockText(t[..e]);
    if e == |t| then
      assert t[..e] == t;
      [t]
    else
      var rest := Blocks(t[e + 1..]);
      var B := [t[..e]] + rest;
      assert B[1..] == rest;
      assert t == t[..e] + "\n" + t[e + 1..];
      B
  }

  /** `std::find_if_not(t.begin() + s, t.begin() + p, isSpace)`: where the
      run of whitespace starting at `s` ends, at `p` at the latest. */
  function SpaceRun(t: Text, s: nat, p: nat): (e: nat)
    requires s <= p <= |t|
    ensures s <= e <= p
    ensures forall k | s <= k < e :: DW.IsSpace(t[k])
    ensures e < p ==> !DW.IsSpace(t[e])
    decreases p - s
  {
    if s == p || !DW.IsSpace(t[s]) then s else SpaceRun(t, s + 1, p)
  }

  // ---------------------------------------------------------------------
  // The cursor

  datatype MoveMode = MoveAnchor | KeepAnchor

  datatype Cursor = Cursor(text: Text, anchor: nat, position: nat)

  predicate Valid(c: Cursor) {
    c.anchor <= |c.text| && c.position <= |c.text|
  }

  predicate HasSelection(c: Cursor) {
    c.anchor != c.position
  }

  function SelectionStart(c: Cursor): nat {
    if c.anchor <= c.position then c.anchor else c.position
  }

  function SelectionEnd(c: Cursor): nat {
    if c.anchor <= c.position then c.position else c.anchor
  }

  /** `QTextCursor::selectedText`. */
  function SelectedText(c: Cursor): Text
    requires Valid(c)
  {
    c.text[SelectionStart(c)..SelectionEnd(c)]
  }

  /** Moving the position to `p`; the anchor follows unless it is kept. */
  function MoveTo(c: Cursor, p: nat, mode: MoveMode): (r: Cursor)
    requires Valid(c) && p <= |c.text|
    ensures Valid(r) && r.text == c.text && r.position == p
  {
    if mode == MoveAnchor then Cursor(c.text, p, p) else Cursor(c.text, c.anchor, p)
  }

  /** `QTextCursor::setPosition`: an offset outside the document (past the
      final character) is refused and leaves the cursor as it was. */
  function SetPosition(c: Cursor, p: int, mode: MoveMode): (r: Cursor)
    requires Valid(c)
    ensures Valid(r) && r.text == c.text
    ensures 0 <= p <= |c.text| ==> r == MoveTo(c, p, mode)
    ensures !(0 <= p <= |c.text|) ==> r == c
  {
    if 0 <= p <= |c.text| then MoveTo(c, p, mode) else c
  }

  /** `movePosition(Start)`. */
  function MoveStart(c: Cursor, mode: MoveMode): (r: Cursor)
    requires Valid(c)
    ensures Valid(r) && r.text == c.text && r.position == 0
  {
    MoveTo(c, 0, mode)
  }

  /** `movePosition(StartOfBlock)`. */
  function MoveStartOfBlock(c: Cursor, mode: MoveMode): (r: Cursor)
    requires Valid(c)
    ensures Valid(r) && r.text == c.text
    ensures r.position == BlockStart(c.text, c.position)
  {
    MoveTo(c, BlockStart(c.text, c.position), mode)
  }

  /** `movePosition(EndOfBlock)`. */
  function MoveEndOfBlock(c: Cursor, mode: MoveMode): (r: Cursor)
    requires Valid(c)
    ensures Valid(r) && r.text == c.text
    ensures r.position == BlockEnd(c.text, c.position)
  {
    MoveTo(c, BlockEnd(c.text, c.position), mode)
  }

  /** `movePosition(NextBlock, mode, n)`: each step goes to the start of the
      next block; in the last block a step fails, which ends the
      repetition and leaves the cursor where it is. */
  function MoveNextBlock(c: Cursor, mode: MoveMode, n: nat): (r: Cursor)
    requires Valid(c)
    ensures Valid(r) && r.text == c.text
    ensures c.position <= r.position
    ensures r.position == c.position || c.text[r.position - 1] == '\n'
    ensures BlockEnd(c.text, c.position) == |c.text| ==> r == c
    ensures mode == KeepAnchor ==> r.anchor == c.anchor
    decreases n
  {
    if n == 0 then c
    else
      var e := BlockEnd(c.text, c.position);
      if e == |c.text| then c else MoveNextBlock(MoveTo(c, e + 1, mode), mode, n - 1)
  }

  /** `movePosition(NextCharacter, mode, n)`: each step moves one character
      on; at the end of the document a step fails and ends the repetition. */
  function MoveNextCharacter(c: Cursor, mode: MoveMode, n: nat): (r: Cursor)
    requires Valid(c)
    ensures Valid(r) && r.text == c.text
    ensures r.position == if c.position + n <= |c.text| then c.position + n else |c.text|
    ensures mode == KeepAnchor ==> r.anchor == c.anchor
    decreases n
  {
    if n == 0 || c.position == |c.text| then c
    else MoveNextCharacter(MoveTo(c, c.position + 1, mode), mode, n - 1)
  }

  /** `movePosition(Left, mode, n)`: each step moves one character back; at
      the start of the document a step fails and ends the repetition. */
  function MoveLeft(c: Cursor, mode: MoveMode, n: nat): (r: Cursor)
    requires Valid(c)
    ensures Valid(r) && r.text == c.text
    ensures r.position == if n <= c.position then c.position - n else 0
    ensures mode == KeepAnchor ==> r.anchor == c.anchor
    ensures mode == MoveAnchor && n > 0 && c.position > 0 ==> r.anchor == r.position
    decreases n
  {
    if n == 0 || c.position == 0 then c
    else MoveLeft(MoveTo(c, c.position - 1, mode), mode, n - 1)
  }

  /** `QTextCursor::insertText`: the selection, if any, is replaced by `s`,
      and the cursor ends after the inserted text with no selection. */
  function InsertText(c: Cursor, s: Text): (r: Cursor)
    requires Valid(c)
    ensures Valid(r)
    ensures r.text == c.text[..SelectionStart(c)] + s + c.text[SelectionEnd(c)..]
    ensures r.anchor == r.position == SelectionStart(c) + |s|
  {
    var lo := SelectionStart(c);
    var hi := SelectionEnd(c);
    Cursor(c.text[..lo] + s + c.text[hi..], lo + |s|, lo + |s|)
  }

  /** `QTextCursor::removeSelectedText`. */
  function RemoveSelectedText(c: Cursor): (r: Cursor)
    requires Valid(c)
    ensures Valid(r)
    ensures r.text == c.text[..SelectionStart(c)] + c.text[SelectionEnd(c)..]
    ensures r.anchor == r.position == SelectionStart(c)
  {
    if !HasSelection(c) then
      assert c.text[..c.position] + c.text[c.position..] == c.text;
      c
    else InsertText(c, [])
  }

  /** `QTextCursor::deleteChar`: the selection, or else the character after
      the cursor (nothing at the end of the document). */
  function DeleteChar(c: Cursor): (r: Cursor)
    requires Valid(c)
    ensures Valid(r) && r.anchor == r.position == SelectionStart(c)
    ensures HasSelection(c) ==> r == RemoveSelectedText(c)
    ensures !HasSelection(c) && c.position < |c.text| ==>
      r.text == c.text[..c.position] + c.text[c.position + 1..]
    ensures !HasSelection(c) && c.position == |c.text| ==> r == c
  {
    if HasSelection(c) then RemoveSelectedText(c)
    else if c.position < |c.text| then
      Cursor(c.text[..c.position] + c.text[c.position + 1..], c.position, c.position)
    else c
  }

  /** `QTextCursor::deletePreviousChar`: the selection, or else the
      character before the cursor (nothing at the start of the document). */
  function DeletePreviousChar(c: Cursor): (r: Cursor)
    requires Valid(c)
    ensures Valid(r) && r.anchor == r.position
    ensures HasSelection(c) ==> r == RemoveSelectedText(c)
    ensures !HasSelection(c) && c.position > 0 ==>
      r.text == c.text[..c.position - 1] + c.text[c.position..] && r.position == c.position - 1
    ensures !HasSelection(c) && c.position == 0 ==> r == c
  {
    if HasSelection(c) then RemoveSelectedText(c)
    else if c.position > 0 then
      Cursor(c.text[..c.position - 1] + c.text[c.position..], c.position - 1, c.position - 1)
    else c
  }

  /** Typing a character and deleting the one before the cursor gives back
      the cursor without a selection. */
  lemma DeletePreviousUndoesInsert(c: Cursor, ch: char)
    requires Valid(c) && !HasSelection(c)
    ensures DeletePreviousChar(InsertText(c, [ch])) == c
  {
    var t := c.text;
    var p := c.position;
    var r := InsertText(c, [ch]);
    assert r.text[..p] == t[..p];
    assert r.text[p + 1..] == t[p..];
    assert t[..p] + t[p..] == t;
  }

  /** Typing a character, stepping back over it and deleting the one after
      the cursor gives back the cursor without a selection. */
  lemma DeleteUndoesInsert(c: Cursor, ch: char)
    requires Valid(c) && !HasSelection(c)
    ensures DeleteChar(MoveLeft(InsertText(c, [ch]), MoveAnchor, 1)) == c
  {
    var t := c.text;
    var p := c.position;
    var r := MoveLeft(InsertText(c, [ch]), MoveAnchor, 1);
    assert r == Cursor(t[..p] + [ch] + t[p..], p, p);
    assert r.text[..p] == t[..p];
    assert r.text[p + 1..] == t[p..];
    assert t[..p] + t[p..] == t;
  }

  /** `block().text()`: the text of the cursor's block, without its
      separator. */
  function CurrentBlockText(c: Cursor): Text
    requires Valid(c)
  {
    c.text[BlockStart(c.text, c.position)..BlockEnd(c.text, c.position)]
  }

  /** `block().length()`: the block's text and its separator (the last
      block counts the document's closing separator). */
  function CurrentBlockLength(c: Cursor): nat
    requires Valid(c)
  {
    BlockEnd(c.text, c.position) - BlockStart(c.text, c.position) + 1
  }
}
