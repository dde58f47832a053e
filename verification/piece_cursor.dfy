/** The cursors of the document core: a position in a piece table that
    reads the document one code point at a time across its pieces, and the
    reversed view of it. A piece is modelled by the code points its two
    UTF-8 iterators span; a cursor by the index of its piece and the index
    of its code point inside that piece. The end cursor has piece index
    `|T|`; its position is whatever it was left holding. */
module PieceCursors {

  /** The code points one piece spans. */
  type Piece = seq<char>

  /** The document a table describes: its pieces, in list order. */
  function Concat(T: seq<Piece>): seq<char>
    decreases |T|
  {
    if |T| == 0 then [] else Concat(T[..|T| - 1]) + T[|T| - 1]
  }

  /** A table as its constructor builds it and its cursors assume it: at
      least one piece, and no piece empty (a cursor's position is always a
      code point of its piece, so an empty piece has no position). */
  predicate WellFormed(T: seq<Piece>) {
    |T| >= 1 && forall i | 0 <= i < |T| :: |T[i]| > 0
  }

  datatype Cursor = Cursor(piece: nat, position: nat)

  /** The state `operator++` asserts: the end cursor, or a position inside
      its piece. */
  predicate Valid(T: seq<Piece>, c: Cursor) {
    c.piece <= |T| && (c.piece < |T| ==> c.position < |T[c.piece]|)
  }

  predicate AtEnd(T: seq<Piece>, c: Cursor) {
    c.piece == |T|
  }

  /** `Cursor::operator==`: two end cursors are equal whatever their
      positions; otherwise piece and position must both agree. */
  predicate Equal(T: seq<Piece>, a: Cursor, b: Cursor) {
    (a.piece == |T| && b.piece == |T|) || (a.piece == b.piece && a.position == b.position)
  }

  /** The reference reading of a cursor: its offset in the document. */
  function Offset(T: seq<Piece>, c: Cursor): nat
    requires Valid(T, c)
  {
    |Concat(T[..c.piece])| + if c.piece < |T| then c.position else 0
  }

  /** `Cursor::operator*`: the code point under the cursor. */
  function Read(T: seq<Piece>, c: Cursor): char
    requires Valid(T, c) && !AtEnd(T, c)
  {
    T[c.piece][c.position]
  }

  /** `Cursor::operator++`: the end cursor stays put; otherwise one code
      point on, into the first position of the next piece when this one is
      used up, or to the end cursor after the last piece (whose position
      is reset, modelled as 0). */
  function Next(T: seq<Piece>, c: Cursor): (r: Cursor)
    requires Valid(T, c)
    ensures WellFormed(T) ==> Valid(T, r)
    ensures AtEnd(T, c) ==> r == c
  {
    if c.piece == |T| then c
    else if c.position + 1 == |T[c.piece]| then
      if c.piece + 1 == |T| then Cursor(|T|, 0) else Cursor(c.piece + 1, 0)
    else Cursor(c.piece, c.position + 1)
  }

  /** `Cursor::operator--`: the first position stays put; the end cursor
      and the first position of a piece move to the last position of the
      previous piece; otherwise one code point back. */
  function Prev(T: seq<Piece>, c: Cursor): (r: Cursor)
    requires WellFormed(T) && Valid(T, c)
    ensures Valid(T, r) && !AtEnd(T, r)
    ensures c.piece == 0 && c.position == 0 ==> r == c
  {
    if c.piece == 0 && c.position == 0 then c
    else if c.piece == |T| || c.position == 0 then Cursor(c.piece - 1, |T[c.piece - 1]| - 1)
    else Cursor(c.piece, c.position - 1)
  }

  /** `Cursor::operator++(int)`: the cursor before the step, and the
      stepped cursor. */
  function PostNext(T: seq<Piece>, c: Cursor): (r: (Cursor, Cursor))
    requires WellFormed(T) && Valid(T, c)
    ensures r.0 == c && Valid(T, r.1)
    ensures Offset(T, r.1) == if AtEnd(T, c) then Offset(T, c) else Offset(T, c) + 1
  {
    NextOffset(T, c);
    (c, Next(T, c))
  }

  /** `Cursor::operator--(int)`: the cursor before the step, and the
      stepped cursor. */
  function PostPrev(T: seq<Piece>, c: Cursor): (r: (Cursor, Cursor))
    requires WellFormed(T) && Valid(T, c)
    ensures r.0 == c && Valid(T, r.1)
    ensures Offset(T, r.1) == if Offset(T, c) == 0 then 0 else Offset(T, c) - 1
  {
    PrevOffset(T, c);
    (c, Prev(T, c))
  }

  // ---------------------------------------------------------------------------
  // Offsets

  lemma ConcatStep(T: seq<Piece>, p: nat)
    requires p < |T|
    ensures Concat(T[..p + 1]) == Concat(T[..p]) + T[p]
  {
    assert T[..p + 1][..p] == T[..p];
  }

  /** A shorter prefix of the table describes a prefix of the document. */
  lemma {:induction false} ConcatPrefix(T: seq<Piece>, p: nat, q: nat)
    requires p <= q <= |T|
    ensures |Concat(T[..p])| <= |Concat(T[..q])|
    ensures Concat(T[..q])[..|Concat(T[..p])|] == Concat(T[..p])
    decreases q
  {
    if p < q {
      ConcatPrefix(T, p, q - 1);
      ConcatStep(T, q - 1);
    }
  }

  /** Piece `p` sits in the document right after the pieces before it. */
  lemma PieceInDocument(T: seq<Piece>, p: nat)
    requires p < |T|
    ensures |Concat(T[..p])| + |T[p]| <= |Concat(T)|
    ensures forall k | 0 <= k < |T[p]| :: Concat(T)[|Concat(T[..p])| + k] == T[p][k]
  {
    var D := Concat(T);
    var P := Concat(T[..p + 1]);
    var h := |Concat(T[..p])|;
    assert T[..|T|] == T;
    ConcatPrefix(T, p + 1, |T|);
    assert D[..|P|] == P;
    ConcatStep(T, p);
    assert P == Concat(T[..p]) + T[p];
    forall k | 0 <= k < |T[p]|
      ensures D[h + k] == T[p][k]
    {
      assert D[h + k] == D[..|P|][h + k];
    }
  }

  /** `operator*` reads the code point of the document at the cursor's
      offset. */
  lemma ReadsDocument(T: seq<Piece>, c: Cursor)
    requires Valid(T, c) && !AtEnd(T, c)
    ensures Offset(T, c) < |Concat(T)|
    ensures Read(T, c) == Concat(T)[Offset(T, c)]
  {
    PieceInDocument(T, c.piece);
  }

  /** Every piece of a well-formed table adds at least one code point. */
  lemma {:induction false} PrefixGrows(T: seq<Piece>, p: nat, q: nat)
    requires WellFormed(T) && p < q <= |T|
    ensures |Concat(T[..p])| + |T[p]| <= |Concat(T[..q])|
    decreases q
  {
    ConcatStep(T, p);
    ConcatPrefix(T, p + 1, q);
  }

  /** The end cursor reads as the document's length, every other cursor
      as an offset inside the document. */
  lemma OffsetBounds(T: seq<Piece>, c: Cursor)
    requires Valid(T, c)
    ensures Offset(T, c) <= |Concat(T)|
    ensures Offset(T, c) == |Concat(T)| <==> AtEnd(T, c)
  {
    assert T[..|T|] == T;
    if c.piece < |T| {
      PieceInDocument(T, c.piece);
    }
  }

  /** `operator==` holds exactly when the two cursors are at the same
      offset of the document. */
  lemma EqualIffSameOffset(T: seq<Piece>, a: Cursor, b: Cursor)
    requires WellFormed(T) && Valid(T, a) && Valid(T, b)
    ensures Equal(T, a, b) <==> Offset(T, a) == Offset(T, b)
  {
    if a.piece < b.piece {
      PrefixGrows(T, a.piece, b.piece);
    } else if b.piece < a.piece {
      PrefixGrows(T, b.piece, a.piece);
    }
  }

  /** `operator++` moves one code point on, except at the end. */
  lemma NextOffset(T: seq<Piece>, c: Cursor)
    requires WellFormed(T) && Valid(T, c)
    ensures Offset(T, Next(T, c)) == if AtEnd(T, c) then Offset(T, c) else Offset(T, c) + 1
  {
    if c.piece < |T| && c.position + 1 == |T[c.piece]| {
      ConcatStep(T, c.piece);
      assert T[..|T|] == T;
    }
  }

  /** `operator--` moves one code point back, except at the beginning. */
  lemma PrevOffset(T: seq<Piece>, c: Cursor)
    requires WellFormed(T) && Valid(T, c)
    ensures Offset(T, Prev(T, c)) == if Offset(T, c) == 0 then 0 else Offset(T, c) - 1
  {
    if c.piece == 0 {
    } else if c.piece == |T| || c.position == 0 {
      ConcatStep(T, c.piece - 1);
      assert T[..|T|] == T;
    } else {
      PrefixGrows(T, 0, c.piece);
    }
  }

  /** Stepping forward from anything but the end and back again returns to
      the same cursor. */
  lemma PrevUndoesNext(T: seq<Piece>, c: Cursor)
    requires WellFormed(T) && Valid(T, c) && !AtEnd(T, c)
    ensures Prev(T, Next(T, c)) == c
  {
  }

  /** Stepping back from anything but the first position and forward again
      returns to a cursor equal to the first. */
  lemma NextUndoesPrev(T: seq<Piece>, c: Cursor)
    requires WellFormed(T) && Valid(T, c) && Offset(T, c) > 0
    ensures Equal(T, Next(T, Prev(T, c)), c)
  {
    PrevOffset(T, c);
    NextOffset(T, Prev(T, c));
    EqualIffSameOffset(T, Next(T, Prev(T, c)), c);
  }

  /** Reading every position from the first one onwards visits the
      document in order: the cursor `k` steps from the first position reads
      code point `k`. */
  lemma {:induction false} WalkReadsDocument(T: seq<Piece>, k: nat)
    requires WellFormed(T) && k < |Concat(T)|
    ensures Valid(T, Walk(T, k)) && !AtEnd(T, Walk(T, k))
    ensures Offset(T, Walk(T, k)) == k
    ensures Read(T, Walk(T, k)) == Concat(T)[k]
    decreases k
  {
    if k > 0 {
      WalkReadsDocument(T, k - 1);
      NextOffset(T, Walk(T, k - 1));
      OffsetBounds(T, Walk(T, k));
    } else {
      assert T[..0] == [];
      OffsetBounds(T, Cursor(0, 0));
    }
    ReadsDocument(T, Walk(T, k));
  }

  /** The cursor `k` steps of `operator++` from the first position. */
  function Walk(T: seq<Piece>, k: nat): (r: Cursor)
    requires WellFormed(T)
    ensures Valid(T, r)
  {
    if k == 0 then Cursor(0, 0) else Next(T, Walk(T, k - 1))
  }

  // ---------------------------------------------------------------------------
  // The reverse cursor

  /** `ReverseCursor`: a cursor read backwards, and whether it has stepped
      off the front. */
  datatype ReverseCursor = ReverseCursor(preBegin: bool, cursor: Cursor)

  /** A reverse cursor reads the code point under its cursor; once it has
      stepped off the front its cursor stays at the first position. */
  predicate RevValid(T: seq<Piece>, r: ReverseCursor) {
    Valid(T, r.cursor) && !AtEnd(T, r.cursor) && (r.preBegin ==> Offset(T, r.cursor) == 0)
  }

  /** The offset a reverse cursor reads, `-1` once it is off the front. */
  function RevOffset(T: seq<Piece>, r: ReverseCursor): int
    requires Valid(T, r.cursor)
  {
    if r.preBegin then -1 else Offset(T, r.cursor)
  }

  /** `ReverseCursor::operator==`. */
  predicate RevEqual(T: seq<Piece>, a: ReverseCursor, b: ReverseCursor) {
    Equal(T, a.cursor, b.cursor) && a.preBegin == b.preBegin
  }

  /** `ReverseCursor::operator++`: step the cursor back; if it could not
      move, the reverse cursor is off the front. */
  function RevNext(T: seq<Piece>, r: ReverseCursor): (r': ReverseCursor)
    requires WellFormed(T) && Valid(T, r.cursor)
    ensures Valid(T, r'.cursor) && !AtEnd(T, r'.cursor)
  {
    var c := Prev(T, r.cursor);
    ReverseCursor(r.preBegin || Equal(T, c, r.cursor), c)
  }

  /** `ReverseCursor(Cursor const &)`: the reversed view of `o`, one step
      taken, so that it reads the code point before `o`. */
  function FromCursor(T: seq<Piece>, o: Cursor): (r: ReverseCursor)
    requires WellFormed(T) && Valid(T, o)
    ensures RevValid(T, r)
    ensures RevOffset(T, r) == Offset(T, o) - 1
  {
    RevNextOffset(T, ReverseCursor(false, o));
    RevNext(T, ReverseCursor(false, o))
  }

  /** `ReverseCursor::operator--` as written: step the cursor forward and
      leave the off-the-front flag as it is. */
  function RevPrevAsWritten(T: seq<Piece>, r: ReverseCursor): (r': ReverseCursor)
    requires Valid(T, r.cursor)
    ensures r'.preBegin == r.preBegin
  {
    ReverseCursor(r.preBegin, Next(T, r.cursor))
  }

  /** `ReverseCursor::operator--` as a bidirectional iterator needs it: off
      the front, come back onto the first position; otherwise step the
      cursor forward. */
  function RevPrev(T: seq<Piece>, r: ReverseCursor): (r': ReverseCursor)
    requires Valid(T, r.cursor)
    ensures !r'.preBegin
  {
    if r.preBegin then ReverseCursor(false, r.cursor) else ReverseCursor(false, Next(T, r.cursor))
  }

  /** `ReverseCursor::operator*`. */
  function RevRead(T: seq<Piece>, r: ReverseCursor): char
    requires Valid(T, r.cursor) && !AtEnd(T, r.cursor)
  {
    Read(T, r.cursor)
  }

  /** A reverse cursor still on the document reads the code point at its
      offset. */
  lemma RevReadsDocument(T: seq<Piece>, r: ReverseCursor)
    requires RevValid(T, r) && !r.preBegin
    ensures 0 <= RevOffset(T, r) < |Concat(T)|
    ensures RevRead(T, r) == Concat(T)[RevOffset(T, r)]
  {
    ReadsDocument(T, r.cursor);
  }

  /** `operator++` of a reverse cursor moves one code point back, and from
      the first code point off the front, where it stays. */
  lemma RevNextOffset(T: seq<Piece>, r: ReverseCursor)
    requires WellFormed(T) && Valid(T, r.cursor)
    requires r.preBegin ==> Offset(T, r.cursor) == 0
    ensures RevValid(T, RevNext(T, r))
    ensures RevOffset(T, RevNext(T, r)) == if RevOffset(T, r) <= 0 then -1 else RevOffset(T, r) - 1
  {
    var c := Prev(T, r.cursor);
    PrevOffset(T, r.cursor);
    EqualIffSameOffset(T, c, r.cursor);
  }

  /** Two valid reverse cursors compare equal exactly when they read the
      same offset. */
  lemma RevEqualIffSameOffset(T: seq<Piece>, a: ReverseCursor, b: ReverseCursor)
    requires WellFormed(T) && RevValid(T, a) && RevValid(T, b)
    ensures RevEqual(T, a, b) <==> RevOffset(T, a) == RevOffset(T, b)
  {
    EqualIffSameOffset(T, a.cursor, b.cursor);
  }

  /** The corrected `operator--` undoes `operator++` on any reverse cursor
      that is still on the document. */
  lemma RevPrevUndoesRevNext(T: seq<Piece>, r: ReverseCursor)
    requires WellFormed(T) && RevValid(T, r) && !r.preBegin
    ensures RevPrev(T, RevNext(T, r)) == r
  {
    var c := Prev(T, r.cursor);
    if !Equal(T, c, r.cursor) {
      PrevUndoesNext(T, c);
      assert c.piece < |T|;
      assert Equal(T, Next(T, c), r.cursor) by {
        PrevOffset(T, r.cursor);
        NextOffset(T, c);
        EqualIffSameOffset(T, Next(T, c), r.cursor);
      }
    }
  }

  /** `operator++` undoes the corrected `operator--` on any reverse cursor
      short of the last code point. */
  lemma RevNextUndoesRevPrev(T: seq<Piece>, r: ReverseCursor)
    requires WellFormed(T) && RevValid(T, r) && RevOffset(T, r) < |Concat(T)| - 1
    ensures RevValid(T, RevPrev(T, r))
    ensures RevEqual(T, RevNext(T, RevPrev(T, r)), r)
  {
    var p := RevPrev(T, r);
    NextOffset(T, r.cursor);
    OffsetBounds(T, Next(T, r.cursor));
    RevNextOffset(T, p);
    RevEqualIffSameOffset(T, RevNext(T, p), r);
  }

  /** As written, `operator--` never brings a reverse cursor back from off
      the front: in the one-piece document "a", the reverse cursor that
      stepped past the first code point comes back as the end cursor with
      the flag still set, not as the reverse cursor reading "a". */
  lemma RevPrevAsWrittenStaysOff()
    ensures var T := ["a"];
      var rend := RevNext(T, FromCursor(T, Cursor(1, 0)));
      rend == ReverseCursor(true, Cursor(0, 0))
      && RevPrevAsWritten(T, rend) == ReverseCursor(true, Cursor(1, 0))
      && !RevValid(T, RevPrevAsWritten(T, rend))
      && RevPrev(T, rend) == FromCursor(T, Cursor(1, 0))
  {
    var T := ["a"];
    assert WellFormed(T);
  }
}
