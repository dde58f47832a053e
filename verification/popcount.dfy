/** The branch-free population count (`opop`) that both hotkey classes use
    to score a match, proved against a bit-by-bit count. */
module Popcount {

  // Byte lanes of a 64-bit word.
  function Lane0(v: bv64): bv64 {
    v & 0xFF
  }

  function Lane1(v: bv64): bv64 {
    (v >> 8) & 0xFF
  }

  function Lane2(v: bv64): bv64 {
    (v >> 16) & 0xFF
  }

  function Lane3(v: bv64): bv64 {
    (v >> 24) & 0xFF
  }

  /** Sums are built with one shared function so that facts about equal
      summands carry over to equal sums without unfolding any arithmetic. */
  function Sum4(a: bv64, b: bv64, c: bv64, d: bv64): bv64 {
    a + b + c + d
  }

  /** The reference count for one byte lane: its eight bits added one by one. */
  function ByteCount(b: bv64): bv64 {
    (b & 1) + ((b >> 1) & 1) + ((b >> 2) & 1) + ((b >> 3) & 1) +
    ((b >> 4) & 1) + ((b >> 5) & 1) + ((b >> 6) & 1) + ((b >> 7) & 1)
  }

  /** The reference count: the number of one bits of a 32-bit word. */
  function BitCount(x: bv32): bv64 {
    var v := x as bv64;
    Sum4(ByteCount(Lane0(v)), ByteCount(Lane1(v)), ByteCount(Lane2(v)), ByteCount(Lane3(v)))
  }

  /** The first three steps of `opop`: counts per bit pair, then per nibble,
      then per byte lane. */
  function LaneCounts(v0: bv64): bv64 {
    var v1 := v0 - ((v0 >> 1) & 0x5555555555555555);
    var v2 := (v1 & 0x3333333333333333) + ((v1 >> 2) & 0x3333333333333333);
    (v2 + (v2 >> 4)) & 0x0F0F0F0F0F0F0F0F
  }

  /** The last step of `opop`: the multiplication adds every byte lane into
      the top byte. */
  function Spread(w: bv64): bv64 {
    w * 0x0101010101010101
  }

  /** `opop`: 64-bit arithmetic throughout, wrapping on overflow. */
  function Opop(v: bv64): bv64 {
    Spread(LaneCounts(v)) >> 56
  }

  // The first three steps never carry from one byte lane into the next:
  // lane k of the result counts the bits of lane k of the input. One lemma
  // per lane keeps each bit-level proof small.

  lemma LaneCount0(x: bv32)
    ensures Lane0(LaneCounts(x as bv64)) <= 8
    ensures Lane0(LaneCounts(x as bv64)) == ByteCount(Lane0(x as bv64))
  {}

  lemma LaneCount1(x: bv32)
    ensures Lane1(LaneCounts(x as bv64)) <= 8
    ensures Lane1(LaneCounts(x as bv64)) == ByteCount(Lane1(x as bv64))
  {}

  lemma LaneCount2(x: bv32)
    ensures Lane2(LaneCounts(x as bv64)) <= 8
    ensures Lane2(LaneCounts(x as bv64)) == ByteCount(Lane2(x as bv64))
  {}

  lemma LaneCount3(x: bv32)
    ensures Lane3(LaneCounts(x as bv64)) <= 8
    ensures Lane3(LaneCounts(x as bv64)) == ByteCount(Lane3(x as bv64))
  {}

  lemma UpperHalfEmpty(x: bv32)
    ensures LaneCounts(x as bv64) & 0xFFFFFFFF00000000 == 0
  {}

  /** `w` holds, lane by lane, the bit counts of the four bytes of `x`, and
      nothing in its upper half. */
  predicate CountsLanes(w: bv64, x: bv32) {
    w & 0xFFFFFFFF00000000 == 0 &&
    Lane0(w) <= 8 && Lane0(w) == ByteCount(Lane0(x as bv64)) &&
    Lane1(w) <= 8 && Lane1(w) == ByteCount(Lane1(x as bv64)) &&
    Lane2(w) <= 8 && Lane2(w) == ByteCount(Lane2(x as bv64)) &&
    Lane3(w) <= 8 && Lane3(w) == ByteCount(Lane3(x as bv64))
  }

  lemma LanesOfCounts(x: bv32)
    ensures CountsLanes(LaneCounts(x as bv64), x)
  {
    LaneCount0(x); LaneCount1(x); LaneCount2(x); LaneCount3(x);
    UpperHalfEmpty(x);
  }

  /** Four small lanes in the low half: the multiplication leaves their sum,
      without carries, in the top byte. */
  lemma LowProduct(w: bv64)
    requires w & 0xFFFFFFFF00000000 == 0
    requires Lane0(w) <= 8 && Lane1(w) <= 8 && Lane2(w) <= 8 && Lane3(w) <= 8
    ensures Spread(w) >> 56 == Sum4(Lane0(w), Lane1(w), Lane2(w), Lane3(w))
  {}

  lemma TopByteCounts(w: bv64, x: bv32)
    ensures CountsLanes(w, x) ==> Spread(w) >> 56 == BitCount(x)
  {
    if CountsLanes(w, x) {
      LowProduct(w);
    }
  }

  lemma OpopUnfold(v: bv64)
    ensures Opop(v) == Spread(LaneCounts(v)) >> 56
  {}

  /** `opop` of a zero-extended 32-bit word is the number of its one bits. Every
      call from the hotkey matchers passes such a word, since Qt's modifier
      flags are 32 bits wide. */
  lemma OpopIsBitCount(x: bv32)
    ensures Opop(x as bv64) == BitCount(x)
  {
    LanesOfCounts(x);
    TopByteCounts(LaneCounts(x as bv64), x);
    OpopUnfold(x as bv64);
  }

  // Zero bits, zero count.

  lemma ByteCountZero(b: bv64)
    ensures ByteCount(b) <= 8
    ensures ByteCount(b) == 0 <==> b & 0xFF == 0
  {}

  lemma LanesMasked(v: bv64)
    ensures Lane0(v) & 0xFF == Lane0(v) && Lane1(v) & 0xFF == Lane1(v)
    ensures Lane2(v) & 0xFF == Lane2(v) && Lane3(v) & 0xFF == Lane3(v)
  {}

  lemma SmallSumZero(a: bv64, b: bv64, c: bv64, d: bv64)
    requires a <= 8 && b <= 8 && c <= 8 && d <= 8
    ensures Sum4(a, b, c, d) == 0 <==> a == 0 && b == 0 && c == 0 && d == 0
  {}

  lemma LanesZero(x: bv32)
    ensures x == 0 <==>
      Lane0(x as bv64) == 0 && Lane1(x as bv64) == 0 && Lane2(x as bv64) == 0 && Lane3(x as bv64) == 0
  {}

  /** A word has no one bits exactly when it is zero. */
  lemma BitCountZero(x: bv32)
    ensures BitCount(x) == 0 <==> x == 0
  {
    var v := x as bv64;
    ByteCountZero(Lane0(v)); ByteCountZero(Lane1(v));
    ByteCountZero(Lane2(v)); ByteCountZero(Lane3(v));
    LanesMasked(v);
    SmallSumZero(ByteCount(Lane0(v)), ByteCount(Lane1(v)), ByteCount(Lane2(v)), ByteCount(Lane3(v)));
    LanesZero(x);
  }
}
