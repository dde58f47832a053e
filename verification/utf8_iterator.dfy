/** The validating UTF-8 decoder and the bidirectional code-point iterator of
    the core string library. Positions are byte offsets into one buffer:
    `0` is `begin`, `|bytes|` is `end`, and `-1` is the "before begin"
    pointer the backward step produces. */
module Utf8Iterator {
  import opened Wrappers

  // ---------------------------------------------------------------------------
  // Bit lengths and the leading-zero count

  function Pow2(k: nat): (p: nat)
    ensures p >= 1
  {
    if k == 0 then 1 else 2 * Pow2(k - 1)
  }

  /** The number of significant bits of `x` (0 for 0). */
  function BitLength(x: nat): nat {
    if x == 0 then 0 else 1 + BitLength(x / 2)
  }

  lemma {:induction false} BitLengthBounds(x: nat)
    ensures x < Pow2(BitLength(x))
    ensures x > 0 ==> Pow2(BitLength(x) - 1) <= x
    decreases x
  {
    if x > 0 {
      BitLengthBounds(x / 2);
    }
  }

  lemma {:induction false} Pow2Monotone(a: nat, b: nat)
    requires a <= b
    ensures Pow2(a) <= Pow2(b)
    decreases b
  {
    if a < b {
      Pow2Monotone(a, b - 1);
    }
  }

  lemma DivIsZero(x: nat, p: nat)
    requires p >= 1
    ensures x / p == 0 <==> x < p
  {
    var q := x / p;
    assert x == p * q + x % p;
    if q >= 1 {
      assert p * q >= p;
    }
  }

  /** `x >> s == 0` exactly when `x` has at most `s` significant bits. */
  lemma ShiftRightZero(x: nat, s: nat)
    ensures x / Pow2(s) == 0 <==> BitLength(x) <= s
  {
    BitLengthBounds(x);
    DivIsZero(x, Pow2(s));
    if BitLength(x) <= s {
      Pow2Monotone(BitLength(x), s);
    } else {
      Pow2Monotone(s, BitLength(x) - 1);
    }
  }

  lemma {:induction false} BitLengthShiftLeft(x: nat, k: nat)
    requires x > 0
    ensures BitLength(x * Pow2(k)) == BitLength(x) + k
    decreases k
  {
    if k > 0 {
      BitLengthShiftLeft(x, k - 1);
      var y := x * Pow2(k - 1);
      assert x * Pow2(k) == 2 * y;
      assert (2 * y) / 2 == y;
    }
  }

  /** The number of leading zero bits of `x` in a `width`-bit word. */
  function LeadingZeros(x: nat, width: nat): nat
    requires BitLength(x) <= width
  {
    width - BitLength(x)
  }

  lemma ModOfSmall(a: nat, p: nat)
    requires a < p
    ensures a % p == a
  {
    DivIsZero(a, p);
    assert a == p * (a / p) + a % p;
  }

  /** Shifting a value with room to spare left by `k` bits inside a
      `width`-bit word loses nothing. */
  lemma ShiftLeftFits(x: nat, k: nat, width: nat)
    requires x > 0 && BitLength(x) + k <= width
    ensures x * Pow2(k) < Pow2(width)
    ensures (x * Pow2(k)) % Pow2(width) == x * Pow2(k)
    ensures BitLength(x * Pow2(k)) == BitLength(x) + k
  {
    var y := x * Pow2(k);
    BitLengthShiftLeft(x, k);
    assert y < Pow2(width) by {
      BitLengthBounds(y);
      Pow2Monotone(BitLength(y), width);
    }
    ModOfSmall(y, Pow2(width));
  }

  lemma DivIsOne(x: nat, p: nat)
    requires p >= 1 && p <= x < 2 * p
    ensures x / p == 1
  {
    assert x == p * (x / p) + x % p;
  }

  /** The top bit of a nonzero `width`-bit word with at least `width - 1`
      significant bits. */
  lemma TopBit(x: nat, width: nat)
    requires width >= 1 && x < Pow2(width) && BitLength(x) >= width - 1
    ensures BitLength(x) <= width
    ensures x / Pow2(width - 1) == if BitLength(x) == width then 1 else 0
  {
    DivIsZero(x, Pow2(width));
    ShiftRightZero(x, width);
    assert BitLength(x) <= width;
    if BitLength(x) == width {
      var p := Pow2(width - 1);
      assert Pow2(width) == 2 * p;
      BitLengthBounds(x);
      DivIsOne(x, p);
      assert x / Pow2(width - 1) == 1;
    } else {
      ShiftRightZero(x, width - 1);
      assert x / Pow2(width - 1) == 0;
    }
  }

  /** What the binary search keeps: `x` is `x0` shifted left by `n - 1`
      bits without loss, and the bits above `2 * shift - width` are known. */
  ghost predicate SearchState(x0: nat, x: nat, n: nat, shift: nat, width: nat) {
    && width / 2 <= shift <= width - 1
    && 0 < x < Pow2(width)
    && n >= 1 && BitLength(x) == BitLength(x0) + (n - 1)
    && 2 * shift - width < BitLength(x) <= width
  }

  /** One round of the search keeps the state. */
  lemma SearchStep(x0: nat, x: nat, n: nat, shift: nat, width: nat)
    requires width >= 2 && shift < width - 1
    requires SearchState(x0, x, n, shift, width)
    ensures var shift' := shift + (width - shift) / 2;
            if x / Pow2(shift) == 0 then
              SearchState(x0, (x * Pow2(width - shift)) % Pow2(width), n + (width - shift), shift', width)
            else
              SearchState(x0, x, n, shift', width)
  {
    ShiftRightZero(x, shift);
    if x / Pow2(shift) == 0 {
      ShiftLeftFits(x, width - shift, width);
    }
  }

  /** `numberOfLeadingZeros<UIntT>`: a binary search that shifts the value
      left while its upper part is empty. The word width is 8 or 32 bits. */
  method NumberOfLeadingZeros(x0: nat, width: nat) returns (n: nat)
    requires width == 8 || width == 32
    requires x0 < Pow2(width)
    ensures BitLength(x0) <= width
    ensures n == LeadingZeros(x0, width)
    ensures x0 == 0 ==> n == width
  {
    ShiftRightZero(x0, width);
    DivIsZero(x0, Pow2(width));
    if x0 == 0 {
      return width;
    }
    var x: nat := x0;
    n := 1;
    var shift: nat := width / 2;
    while shift < width - 1
      invariant SearchState(x0, x, n, shift, width)
      decreases width - shift
    {
      SearchStep(x0, x, n, shift, width);
      if x / Pow2(shift) == 0 {
        n := n + (width - shift);
        x := (x * Pow2(width - shift)) % Pow2(width);
      }
      shift := shift + (width - shift) / 2;
    }
    TopBit(x, width);
    n := n - x / Pow2(width - 1);
  }

  /** Exactly `k` significant bits. */
  lemma BitLengthOf(x: nat, k: nat)
    requires k >= 1 && Pow2(k - 1) <= x < Pow2(k)
    ensures BitLength(x) == k
  {
    BitLengthBounds(x);
    if BitLength(x) < k {
      Pow2Monotone(BitLength(x), k - 1);
    } else if BitLength(x) > k {
      Pow2Monotone(k, BitLength(x) - 1);
    }
  }

  lemma WordBitLength(x: nat, width: nat)
    requires x < Pow2(width)
    ensures BitLength(x) <= width
  {
    DivIsZero(x, Pow2(width));
    ShiftRightZero(x, width);
  }

  lemma {:induction false} Pow2Add(a: nat, b: nat)
    ensures Pow2(a + b) == Pow2(a) * Pow2(b)
    decreases a
  {
    if a > 0 {
      Pow2Add(a - 1, b);
    }
  }

  lemma Pow2Small()
    ensures Pow2(1) == 2 && Pow2(2) == 4 && Pow2(3) == 8 && Pow2(4) == 16
    ensures Pow2(5) == 32 && Pow2(6) == 64 && Pow2(7) == 128 && Pow2(8) == 256
  {
  }

  // ---------------------------------------------------------------------------
  // Bytes and the bit operations the decoder applies to them

  /** A `uint8_t` of the buffer, held as its value. The decoder's bit
      operations on bytes are written arithmetically below; `ByteReadings`
      and `LowMaskReading` show that each reading agrees with the operation
      on an 8-bit word. */
  type Byte = b: nat | b < 256

  /** `~b`, `(b & 0xC0) == 0x80` and `b & 0x3F` on an 8-bit word are a
      subtraction, a range test and a remainder. */
  lemma ByteReadings(b: bv8)
    ensures !b == 255 - b
    ensures (b & 0xC0 == 0x80) <==> 0x80 <= b < 0xC0
    ensures b & 0x3F == b % 64
  {
  }

  /** `b & getUtf8FirstByteMask(b)` for each mask `(1 << k) - 1` a lead byte
      can use (k = 7, 5, 4, 3, 2, 1) keeps the low `k` bits, that is
      `b % 2^k`. */
  lemma LowMaskReading(b: bv8)
    ensures b & 0x7F == b % 0x80 && b & 0x1F == b % 0x20 && b & 0x0F == b % 0x10
    ensures b & 0x07 == b % 0x08 && b & 0x03 == b % 0x04 && b & 0x01 == b % 0x02
  {
  }

  // ---------------------------------------------------------------------------
  // The lead byte

  /** The leading-zero count of the complement `~b`, that is, the number of
      leading one bits of `b`. */
  function LeadingOnes(b: Byte): (n: nat)
    ensures n <= 8
  {
    WordBitLength(255 - b, 8);
    LeadingZeros(255 - b, 8)
  }

  lemma LeadingOnesTable(b: Byte)
    ensures LeadingOnes(b) ==
      if b < 0x80 then 0 else if b < 0xC0 then 1 else if b < 0xE0 then 2
      else if b < 0xF0 then 3 else if b < 0xF8 then 4 else if b < 0xFC then 5
      else if b < 0xFE then 6 else if b == 0xFE then 7 else 8
  {
    var x := 255 - b;
    Pow2Small();
    assert Pow2(0) == 1;
    if b < 0x80 { BitLengthOf(x, 8); }
    else if b < 0xC0 { BitLengthOf(x, 7); }
    else if b < 0xE0 { BitLengthOf(x, 6); }
    else if b < 0xF0 { BitLengthOf(x, 5); }
    else if b < 0xF8 { BitLengthOf(x, 4); }
    else if b < 0xFC { BitLengthOf(x, 3); }
    else if b < 0xFE { BitLengthOf(x, 2); }
    else if b == 0xFE { BitLengthOf(x, 1); }
  }

  /** `NLZ_TO_BYTE_LENGTH_MAP`: leading ones to sequence length, 0 marking a
      continuation byte. */
  const LENGTH_BY_LEADING_ONES: seq<nat> := [1, 0, 2, 3, 4, 5, 6]

  /** `getUtf8CharByteLength`: the length of the sequence a lead byte
      starts, read from its leading ones, or `None` for a continuation
      byte, 0xFE and 0xFF. */
  function NlzByteLength(b: Byte): (r: Option<nat>)
    ensures r.Some? ==> 1 <= r.value <= 6
  {
    var nlz := LeadingOnes(b);
    if nlz >= |LENGTH_BY_LEADING_ONES| then None
    else if LENGTH_BY_LEADING_ONES[nlz] == 0 then None
    else Some(LENGTH_BY_LEADING_ONES[nlz])
  }

  /** The lead-byte classes: 0xxxxxxx, 110xxxxx, 1110xxxx, 11110xxx,
      111110xx and 1111110x start sequences of 1 to 6 bytes; 10xxxxxx,
      0xFE and 0xFF start none. The decoder below reads lengths through
      this table; `NlzByteLengthIsByteLength` shows the leading-ones
      computation of the code gives the same answers. */
  function ByteLength(b: Byte): (r: Option<nat>)
    ensures r.Some? ==> 1 <= r.value <= 6
  {
    if b < 0x80 then Some(1)
    else if b < 0xC0 then None
    else if b < 0xE0 then Some(2)
    else if b < 0xF0 then Some(3)
    else if b < 0xF8 then Some(4)
    else if b < 0xFC then Some(5)
    else if b < 0xFE then Some(6)
    else None
  }

  lemma NlzByteLengthIsByteLength(b: Byte)
    ensures NlzByteLength(b) == ByteLength(b)
  {
    LeadingOnesTable(b);
  }

  /** The fixed marker bits of a lead byte starting a sequence of `len`
      bytes. */
  function LeadMarker(len: nat): nat
    requires 1 <= len <= 6
  {
    [0x00, 0xC0, 0xE0, 0xF0, 0xF8, 0xFC][len - 1]
  }

  /** How many payload bits a lead byte of a `len`-byte sequence carries. */
  function PayloadBits(len: nat): nat
    requires 1 <= len <= 6
  {
    [7, 5, 4, 3, 2, 1][len - 1]
  }

  /** `getUtf8FirstByteMask`: `(1 << (8 - nlz - 1)) - 1`. */
  function FirstByteMask(b: Byte): (m: nat)
    requires ByteLength(b).Some?
  {
    Pow2(7 - LeadingOnes(b)) - 1
  }

  /** The payload bits of a lead byte: the low bits its length leaves free. */
  function LeadPayload(b: Byte): nat
    requires ByteLength(b).Some?
  {
    b % Pow2(PayloadBits(ByteLength(b).value))
  }

  /** `b & getUtf8FirstByteMask(b)`: the mask is `2^k - 1` for exactly the
      payload bits of the sequence length, so the and keeps the payload. */
  lemma MaskKeepsPayloadBits(b: Byte)
    requires ByteLength(b).Some?
    ensures FirstByteMask(b) + 1 == Pow2(PayloadBits(ByteLength(b).value))
    ensures b % (FirstByteMask(b) + 1) == LeadPayload(b)
  {
    LeadingOnesTable(b);
  }

  /** Masking a lead byte removes exactly its marker bits, and what is left
      is the payload. */
  lemma LeadByteSplit(b: Byte)
    requires ByteLength(b).Some?
    ensures b == LeadMarker(ByteLength(b).value) + LeadPayload(b)
    ensures LeadPayload(b) < Pow2(PayloadBits(ByteLength(b).value))
  {
    var len := ByteLength(b).value;
    var p := Pow2(PayloadBits(len));
    var marker := LeadMarker(len);
    assert 0 < p && marker <= b < marker + p && marker % p == 0 by {
      Pow2Small();
    }
    ModAboveMultiple(b, marker, p);
  }

  /** Above a multiple of `p` and below the next one, the remainder is the
      distance from it. */
  lemma ModAboveMultiple(b: nat, marker: nat, p: nat)
    requires 0 < p && marker <= b < marker + p && marker % p == 0
    ensures b % p == b - marker
  {
    var q := marker / p;
    assert marker == p * q + marker % p;
    var d := b / p - q;
    assert b == p * (b / p) + b % p;
    assert p * d == p * (b / p) - p * q;
    SmallMultipleIsZero(p, d);
  }

  lemma SmallMultipleIsZero(p: int, d: int)
    requires 0 < p && -p < p * d < p
    ensures d == 0
  {
  }

  // ---------------------------------------------------------------------------
  // Continuation bytes

  /** `(b & 0xC0) == 0x80`: the byte has the form 10xxxxxx. */
  predicate IsContinuation(b: Byte) {
    0x80 <= b < 0xC0
  }

  /** `b & 0x3F`: the six payload bits of a continuation byte. */
  function Low6(b: Byte): (r: nat)
    ensures r < 64
  {
    b % 64
  }

  /** The decoding loop over the continuation bytes: the accumulator is
      shifted left six bits and the next byte's payload is or-ed into the
      cleared low bits, which adds it. `None` is the first byte not of the
      form 10xxxxxx. */
  function Continue(bs: seq<Byte>, acc: nat): Option<nat> {
    if |bs| == 0 then Some(acc)
    else if !IsContinuation(bs[0]) then None
    else Continue(bs[1..], acc * 64 + Low6(bs[0]))
  }

  /** The loop fails exactly on a byte not of the form 10xxxxxx. */
  lemma {:induction false} ContinueFailsOnBadByte(bs: seq<Byte>, acc: nat)
    ensures Continue(bs, acc).Some? <==> forall i :: 0 <= i < |bs| ==> IsContinuation(bs[i])
    decreases |bs|
  {
    if |bs| > 0 && IsContinuation(bs[0]) {
      ContinueFailsOnBadByte(bs[1..], acc * 64 + Low6(bs[0]));
      assert forall i :: 1 <= i < |bs| ==> bs[i] == bs[1..][i - 1];
    }
  }

  /** One more byte at the end of the loop's input is one more round. */
  lemma {:induction false} ContinueSnoc(bs: seq<Byte>, b: Byte, acc: nat)
    ensures Continue(bs + [b], acc) ==
              if Continue(bs, acc).Some? && IsContinuation(b)
              then Some(Continue(bs, acc).value * 64 + Low6(b))
              else None
    decreases |bs|
  {
    if |bs| == 0 {
      assert bs + [b] == [b];
      assert [b][1..] == [];
    } else {
      assert (bs + [b])[0] == bs[0];
      assert (bs + [b])[1..] == bs[1..] + [b];
      if IsContinuation(bs[0]) {
        ContinueSnoc(bs[1..], b, acc * 64 + Low6(bs[0]));
      }
    }
  }

  lemma {:induction false} Pow2Sextet(n: nat)
    ensures Pow2(n + 6) == 64 * Pow2(n)
    decreases n
  {
    if n == 0 {
      Pow2Small();
    } else {
      Pow2Sextet(n - 1);
    }
  }

  /** Six more bits per continuation byte. */
  lemma {:induction false} ContinueBound(bs: seq<Byte>, acc: nat, a: nat)
    requires acc < Pow2(a) && Continue(bs, acc).Some?
    ensures Continue(bs, acc).value < Pow2(a + 6 * |bs|)
    decreases |bs|
  {
    if |bs| > 0 {
      var init := bs[..|bs| - 1];
      assert bs == init + [bs[|bs| - 1]];
      ContinueSnoc(init, bs[|bs| - 1], acc);
      ContinueBound(init, acc, a);
      Pow2Sextet(a + 6 * |init|);
    }
  }

  // ---------------------------------------------------------------------------
  // Code point checks

  /** `BITS_AVAILABLE_IN_BYTES`: the payload bits of a `k`-byte sequence. */
  const BITS_AVAILABLE: seq<nat> := [0, 7, 11, 16, 21, 26, 31]

  /** The lead byte's payload and six bits per continuation byte add up to
      the table entry. */
  lemma PayloadTotal(len: nat)
    requires 1 <= len <= 6
    ensures PayloadBits(len) + 6 * (len - 1) == BITS_AVAILABLE[len]
  {
  }

  /** The search loop of `isOverlongUtf8Character`: the first byte count
      from `k` on whose payload holds `bits` bits. */
  function FewestBytesFrom(bits: nat, k: nat): (r: nat)
    requires 1 <= k <= 6 && bits <= 31
    ensures k <= r <= 6 && BITS_AVAILABLE[r] >= bits
    ensures forall j :: k <= j < r ==> BITS_AVAILABLE[j] < bits
    decreases 6 - k
  {
    if BITS_AVAILABLE[k] >= bits then k else FewestBytesFrom(bits, k + 1)
  }

  function FewestBytes(bits: nat): (r: nat)
    requires bits <= 31
    ensures 1 <= r <= 6 && BITS_AVAILABLE[r] >= bits
    ensures forall j :: 1 <= j < r ==> BITS_AVAILABLE[j] < bits
  {
    FewestBytesFrom(bits, 1)
  }

  /** `isOverlongUtf8Character`: `c` fits in fewer bytes than were used.
      Its bit count `32 - numberOfLeadingZeros<uint32_t>(c)` is `BitLength(c)`. */
  predicate IsOverlong(c: nat, used: nat)
    requires c < Pow2(31)
  {
    WordBitLength(c, 31);
    FewestBytes(BitLength(c)) < used
  }

  /** A value is overlong exactly when a shorter sequence has room for its
      bits; so every multi-byte encoding of NUL is overlong. */
  lemma OverlongMeans(c: nat, used: nat)
    requires c < Pow2(31) && 1 <= used <= 6
    ensures IsOverlong(c, used) <==> used >= 2 && BitLength(c) <= BITS_AVAILABLE[used - 1]
  {
    WordBitLength(c, 31);
    var r := FewestBytes(BitLength(c));
    if r < used {
      BitsAvailableMonotone(r, used - 1);
    }
  }

  lemma BitsAvailableMonotone(i: nat, j: nat)
    requires i <= j <= 6
    ensures BITS_AVAILABLE[i] <= BITS_AVAILABLE[j]
  {
  }

  /** `isUtf16SurrogateCharacter`. */
  predicate IsSurrogate(c: nat) {
    0xD800 <= c <= 0xDFFF
  }

  /** The plane loop of `isUtf8Noncharacter`, from plane index `j` on. The
      low 16 bits of `j * 0x10000` are zero, so or-ing in 0xFFFE adds it. */
  predicate PlaneNoncharacterFrom(c: nat, j: nat)
    decreases 0x11 - j
  {
    if j > 0x10 then false
    else c == j * 0x10000 + 0xFFFE || c == j * 0x10000 + 0xFFFF || PlaneNoncharacterFrom(c, j + 1)
  }

  /** `isUtf8Noncharacter`. */
  predicate IsNoncharacter(c: nat) {
    (0xFDD0 <= c <= 0xFDEF) || c == 0xFFFE || c == 0xFFFF || PlaneNoncharacterFrom(c, 0)
  }

  lemma {:induction false} PlaneNoncharacterFromMeans(c: nat, j: nat)
    ensures PlaneNoncharacterFrom(c, j) <==> j <= c / 0x10000 <= 0x10 && c % 0x10000 >= 0xFFFE
    decreases 0x11 - j
  {
    if j <= 0x10 {
      PlaneNoncharacterFromMeans(c, j + 1);
      assert c == j * 0x10000 + 0xFFFE || c == j * 0x10000 + 0xFFFF <==>
             c / 0x10000 == j && c % 0x10000 >= 0xFFFE;
    }
  }

  /** The noncharacters are U+FDD0..U+FDEF and the last two code points of
      each of the 17 planes. */
  lemma NoncharacterMeans(c: nat)
    ensures IsNoncharacter(c) <==> (0xFDD0 <= c <= 0xFDEF) || (c <= 0x10FFFF && c % 0x10000 >= 0xFFFE)
  {
    PlaneNoncharacterFromMeans(c, 0);
  }

  /** What the decoder accepts as a value: 31 bits, no surrogate, no
      noncharacter. Values above U+10FFFF are accepted. */
  predicate IsAcceptedValue(c: nat) {
    c < Pow2(31) && !IsSurrogate(c) && !IsNoncharacter(c)
  }

  // ---------------------------------------------------------------------------
  // Decoding one code point

  /** `Utf8DecodeResult`: the value and the span `[current, currentEnd)` it
      was decoded from. Positions are byte offsets and may lie outside the
      buffer. */
  datatype Decoded = Decoded(value: nat, current: int, currentEnd: int)

  /** The runtime errors `decodeUtf8` throws, one per message. */
  datatype DecodeError =
    | InvalidStartByte
    | Truncated
    | InvalidContinuation
    | Overlong
    | Surrogate
    | Noncharacter

  /** `isEndPointer`: before `begin` or at or after `end`. */
  predicate IsEndPosition(bytes: seq<Byte>, current: int) {
    current < 0 || current >= |bytes|
  }

  /** The decoded value fits in the payload bits of its length, so in 31
      bits: the `uint32_t` accumulator never wraps. */
  lemma SequenceValueBound(lead: Byte, len: nat, rest: seq<Byte>)
    requires ByteLength(lead) == Some(len) && |rest| == len - 1
    requires Continue(rest, LeadPayload(lead)).Some?
    ensures Continue(rest, LeadPayload(lead)).value < Pow2(BITS_AVAILABLE[len])
    ensures Continue(rest, LeadPayload(lead)).value < Pow2(31)
  {
    var h := LeadPayload(lead);
    var a := PayloadBits(len);
    assert h < Pow2(a) by {
      LeadByteSplit(lead);
    }
    assert a + 6 * |rest| == BITS_AVAILABLE[len] by {
      PayloadTotal(len);
    }
    ContinueBound(rest, h, a);
    Pow2Monotone(BITS_AVAILABLE[len], 31);
  }

  /** The part of `decodeUtf8` after the length check: fold in the
      continuation bytes, then reject overlong forms, surrogates and
      noncharacters, in that order. */
  function DecodeSequence(lead: Byte, len: nat, rest: seq<Byte>): (r: Result<nat, DecodeError>)
    requires ByteLength(lead) == Some(len) && |rest| == len - 1
  {
    match Continue(rest, LeadPayload(lead))
    case None => Err(InvalidContinuation)
    case Some(value) =>
      SequenceValueBound(lead, len, rest);
      ValueChecks(value, len)
  }

  /** The checks on the folded value, in the order `decodeUtf8` makes them:
      the value passes exactly when it is accepted and not overlong, and a
      failure is one of the three value errors. */
  function ValueChecks(value: nat, len: nat): (r: Result<nat, DecodeError>)
    requires value < Pow2(31)
    ensures r.Ok? <==> IsAcceptedValue(value) && !IsOverlong(value, len)
    ensures r.Ok? ==> r.value == value
    ensures r.Err? ==> r.error == Overlong || r.error == Surrogate || r.error == Noncharacter
  {
    if IsOverlong(value, len) then Err(Overlong)
    else if IsSurrogate(value) then Err(Surrogate)
    else if IsNoncharacter(value) then Err(Noncharacter)
    else Ok(value)
  }

  /** `decodeUtf8`: decode the code point starting at byte offset `current`. */
  function Decode(bytes: seq<Byte>, current: int): Result<Decoded, DecodeError> {
    if IsEndPosition(bytes, current) then Ok(Decoded(0, current, current))
    else
      var lead := bytes[current];
      match ByteLength(lead)
      case None => Err(InvalidStartByte)
      case Some(len) =>
        if current + len > |bytes| then Err(Truncated)
        else
          match DecodeSequence(lead, len, bytes[current + 1..current + len])
          case Err(e) => Err(e)
          case Ok(value) => Ok(Decoded(value, current, current + len))
  }

  /** The outcomes of `decodeUtf8` that do not depend on the continuation
      bytes: a zero result with an empty span at an end position, an invalid
      start byte, a sequence cut off by the end of the buffer, and otherwise
      a span of exactly the length the lead byte announces. */
  lemma DecodeOutcomes(bytes: seq<Byte>, current: int)
    ensures IsEndPosition(bytes, current) ==> Decode(bytes, current) == Ok(Decoded(0, current, current))
    ensures Decode(bytes, current) == Err(InvalidStartByte) <==>
              !IsEndPosition(bytes, current) && ByteLength(bytes[current]).None?
    ensures Decode(bytes, current) == Err(Truncated) <==>
              !IsEndPosition(bytes, current) && ByteLength(bytes[current]).Some? &&
              current + ByteLength(bytes[current]).value > |bytes|
    ensures Decode(bytes, current).Ok? && !IsEndPosition(bytes, current) ==>
              && ByteLength(bytes[current]).Some?
              && Decode(bytes, current).value.current == current
              && Decode(bytes, current).value.currentEnd == current + ByteLength(bytes[current]).value <= |bytes|
  {
  }

  /** A decoded span is as long as its lead byte announces. */
  lemma DecodedLength(bytes: seq<Byte>, current: int)
    requires Decode(bytes, current).Ok? && !IsEndPosition(bytes, current)
    ensures ByteLength(bytes[current]) == Some(Decode(bytes, current).value.currentEnd - current)
  {
    DecodeOutcomes(bytes, current);
  }

  lemma DecodeSequenceInvalid(lead: Byte, len: nat, rest: seq<Byte>)
    requires ByteLength(lead) == Some(len) && |rest| == len - 1
    ensures DecodeSequence(lead, len, rest) == Err(InvalidContinuation) <==>
              exists i :: 0 <= i < |rest| && !IsContinuation(rest[i])
  {
    ContinueFailsOnBadByte(rest, LeadPayload(lead));
    if Continue(rest, LeadPayload(lead)).Some? {
      SequenceValueBound(lead, len, rest);
    }
  }

  /** A bad continuation byte is reported exactly when one of the bytes
      after the lead byte lacks the 10xxxxxx form. */
  lemma DecodeInvalidContinuation(bytes: seq<Byte>, current: int)
    requires !IsEndPosition(bytes, current) && ByteLength(bytes[current]).Some?
    requires current + ByteLength(bytes[current]).value <= |bytes|
    ensures Decode(bytes, current) == Err(InvalidContinuation) <==>
              exists i :: current < i < current + ByteLength(bytes[current]).value && !IsContinuation(bytes[i])
  {
    var lead := bytes[current];
    var len := ByteLength(lead).value;
    var rest := bytes[current + 1..current + len];
    DecodeInside(bytes, current, len, DecodeSequence(lead, len, rest));
    DecodeSequenceInvalid(lead, len, rest);
    SpanBadByte(bytes, current, len, rest);
  }

  /** A bad byte among the bytes after the lead byte is a bad byte of the
      span, and the other way round. */
  lemma SpanBadByte(bytes: seq<Byte>, current: int, len: nat, rest: seq<Byte>)
    requires 0 <= current && 1 <= len && current + len <= |bytes|
    requires rest == bytes[current + 1..current + len]
    ensures (exists i :: 0 <= i < |rest| && !IsContinuation(rest[i])) <==>
            (exists i :: current < i < current + len && !IsContinuation(bytes[i]))
  {
    if exists j :: 0 <= j < |rest| && !IsContinuation(rest[j]) {
      var j :| 0 <= j < |rest| && !IsContinuation(rest[j]);
      assert !IsContinuation(bytes[current + 1 + j]);
    }
    if exists i :: current < i < current + len && !IsContinuation(bytes[i]) {
      var i :| current < i < current + len && !IsContinuation(bytes[i]);
      assert !IsContinuation(rest[i - current - 1]);
    }
  }

  // ---------------------------------------------------------------------------
  // Encoding: the inverse the decoder is checked against

  /** The lead byte of a `len`-byte sequence with payload `h`. */
  function LeadByte(len: nat, h: nat): Byte
    requires 1 <= len <= 6 && h < Pow2(PayloadBits(len))
  {
    Pow2Small();
    LeadMarker(len) + h
  }

  lemma LeadByteParts(len: nat, h: nat)
    requires 1 <= len <= 6 && h < Pow2(PayloadBits(len))
    ensures ByteLength(LeadByte(len, h)) == Some(len)
    ensures LeadPayload(LeadByte(len, h)) == h
  {
    var b := LeadByte(len, h);
    Pow2Small();
    LeadByteSplit(b);
  }

  /** A `total`-byte sequence for `v` with `k` continuation bytes, the last
      carrying the low six bits. */
  function Build(v: nat, total: nat, k: nat): (r: seq<Byte>)
    requires 1 <= total <= 6 && v < Pow2(PayloadBits(total) + 6 * k)
    ensures |r| == k + 1
    decreases k
  {
    if k == 0 then [LeadByte(total, v)]
    else
      Pow2Sextet(PayloadBits(total) + 6 * (k - 1));
      Build(v / 64, total, k - 1) + [0x80 + v % 64]
  }

  /** The `len`-byte encoding of `v`. */
  function Encode(v: nat, len: nat): (r: seq<Byte>)
    requires 1 <= len <= 6 && v < Pow2(BITS_AVAILABLE[len])
    ensures |r| == len
  {
    PayloadTotal(len);
    Build(v, len, len - 1)
  }

  lemma BuildStep(v: nat, total: nat, k: nat)
    requires 1 <= total <= 6 && v < Pow2(PayloadBits(total) + 6 * k) && k >= 1
    ensures v / 64 < Pow2(PayloadBits(total) + 6 * (k - 1))
    ensures Build(v, total, k) == Build(v / 64, total, k - 1) + [0x80 + v % 64]
  {
    Pow2Sextet(PayloadBits(total) + 6 * (k - 1));
  }

  /** Appending a continuation byte to a sequence appends six bits to its
      value. */
  lemma AppendContinuation(s: seq<Byte>, c: Byte, q: nat, total: nat)
    requires |s| >= 1 && ByteLength(s[0]) == Some(total)
    requires Continue(s[1..], LeadPayload(s[0])) == Some(q) && IsContinuation(c)
    ensures (s + [c])[0] == s[0]
    ensures Continue((s + [c])[1..], LeadPayload(s[0])) == Some(q * 64 + Low6(c))
  {
    assert (s + [c])[1..] == s[1..] + [c];
    ContinueSnoc(s[1..], c, LeadPayload(s[0]));
  }

  lemma EncodeIsBuild(v: nat, len: nat)
    requires 1 <= len <= 6 && v < Pow2(BITS_AVAILABLE[len])
    ensures v < Pow2(PayloadBits(len) + 6 * (len - 1))
    ensures Encode(v, len) == Build(v, len, len - 1)
  {
    PayloadTotal(len);
    assert v < Pow2(PayloadBits(len) + 6 * (len - 1));
  }

  /** Decoding a built sequence's bytes gives back its value. */
  lemma {:induction false} BuildDecodes(v: nat, total: nat, k: nat)
    requires 1 <= total <= 6 && v < Pow2(PayloadBits(total) + 6 * k)
    ensures var r := Build(v, total, k);
            && ByteLength(r[0]) == Some(total)
            && Continue(r[1..], LeadPayload(r[0])) == Some(v)
    decreases k
  {
    if k == 0 {
      LeadByteParts(total, v);
      assert Build(v, total, k)[1..] == [];
    } else {
      BuildStep(v, total, k);
      var q := v / 64;
      var m := v % 64;
      assert q * 64 + m == v;
      var c: Byte := 0x80 + m;
      assert Low6(c) == m;
      var s := Build(q, total, k - 1);
      BuildDecodes(q, total, k - 1);
      AppendContinuation(s, c, q, total);
      var r := Build(v, total, k);
      assert r == s + [c];
      assert r[0] == s[0] && r[1..] == (s + [c])[1..];
    }
  }

  lemma BuildSnoc(w: nat, total: nat, k: nat, prefix: seq<Byte>, c: Byte)
    requires 1 <= total <= 6 && k >= 1 && IsContinuation(c)
    requires w * 64 + Low6(c) < Pow2(PayloadBits(total) + 6 * k)
    requires w < Pow2(PayloadBits(total) + 6 * (k - 1)) && Build(w, total, k - 1) == prefix
    ensures Build(w * 64 + Low6(c), total, k) == prefix + [c]
  {
    var l := Low6(c);
    var v := w * 64 + l;
    assert v / 64 == w && v % 64 == l;
    BuildStep(v, total, k);
    assert c == 0x80 + l;
  }

  /** The loop's input without its last byte still folds. */
  lemma ContinueInit(bs: seq<Byte>, acc: nat)
    requires |bs| > 0 && Continue(bs, acc).Some?
    ensures Continue(bs[..|bs| - 1], acc).Some?
    ensures IsContinuation(bs[|bs| - 1])
    ensures Continue(bs, acc).value == Continue(bs[..|bs| - 1], acc).value * 64 + Low6(bs[|bs| - 1])
  {
    assert bs == bs[..|bs| - 1] + [bs[|bs| - 1]];
    ContinueSnoc(bs[..|bs| - 1], bs[|bs| - 1], acc);
  }

  /** The value decoded from `lead` and `bs` fits in their payload bits. */
  lemma DecodedBound(lead: Byte, bs: seq<Byte>, total: nat)
    requires ByteLength(lead) == Some(total) && Continue(bs, LeadPayload(lead)).Some?
    ensures Continue(bs, LeadPayload(lead)).value < Pow2(PayloadBits(total) + 6 * |bs|)
  {
    assert LeadPayload(lead) < Pow2(PayloadBits(total)) by {
      LeadByteSplit(lead);
    }
    ContinueBound(bs, LeadPayload(lead), PayloadBits(total));
  }

  /** A lead byte alone is the build of its payload. */
  lemma LeadAloneIsBuild(lead: Byte, total: nat)
    requires ByteLength(lead) == Some(total)
    ensures LeadPayload(lead) < Pow2(PayloadBits(total))
    ensures Build(LeadPayload(lead), total, 0) == [lead]
  {
    LeadByteSplit(lead);
  }

  /** One more continuation byte, given the build of the bytes before it. */
  lemma BuildSnocLead(lead: Byte, init: seq<Byte>, c: Byte, total: nat, w: nat)
    requires 1 <= total <= 6 && IsContinuation(c)
    requires w * 64 + Low6(c) < Pow2(PayloadBits(total) + 6 * (|init| + 1))
    requires w < Pow2(PayloadBits(total) + 6 * |init|) && Build(w, total, |init|) == [lead] + init
    ensures Build(w * 64 + Low6(c), total, |init| + 1) == [lead] + (init + [c])
  {
    BuildSnoc(w, total, |init| + 1, [lead] + init, c);
    assert ([lead] + init) + [c] == [lead] + (init + [c]);
  }

  /** A well-formed sequence is the build of the value it decodes to. */
  lemma {:induction false} DecodedIsBuild(lead: Byte, bs: seq<Byte>, total: nat)
    requires ByteLength(lead) == Some(total) && Continue(bs, LeadPayload(lead)).Some?
    ensures Continue(bs, LeadPayload(lead)).value < Pow2(PayloadBits(total) + 6 * |bs|)
    ensures Build(Continue(bs, LeadPayload(lead)).value, total, |bs|) == [lead] + bs
    decreases |bs|
  {
    DecodedBound(lead, bs, total);
    if |bs| == 0 {
      LeadAloneIsBuild(lead, total);
    } else {
      var h := LeadPayload(lead);
      var init := bs[..|bs| - 1];
      var c := bs[|bs| - 1];
      ContinueInit(bs, h);
      DecodedIsBuild(lead, init, total);
      BuildSnocLead(lead, init, c, total, Continue(init, h).value);
      assert init + [c] == bs;
    }
  }

  /** The shortest length whose payload holds `v`. */
  function EncodedLength(v: nat): (len: nat)
    requires v < Pow2(31)
    ensures 1 <= len <= 6 && v < Pow2(BITS_AVAILABLE[len])
  {
    WordBitLength(v, 31);
    var len := FewestBytes(BitLength(v));
    BitLengthBounds(v);
    Pow2Monotone(BitLength(v), BITS_AVAILABLE[len]);
    len
  }

  /** The shortest encoding of `v`. */
  function Encoding(v: nat): (r: seq<Byte>)
    requires v < Pow2(31)
    ensures |r| == EncodedLength(v)
  {
    Encode(v, EncodedLength(v))
  }

  /** For a length with room for `v`, "not overlong" means "shortest". */
  lemma NotOverlongIsShortest(v: nat, len: nat)
    requires 1 <= len <= 6 && v < Pow2(BITS_AVAILABLE[len]) && v < Pow2(31)
    ensures !IsOverlong(v, len) <==> len == EncodedLength(v)
  {
    ShiftRightZero(v, BITS_AVAILABLE[len]);
    DivIsZero(v, Pow2(BITS_AVAILABLE[len]));
    WordBitLength(v, 31);
  }

  /** `decodeUtf8` on a lead byte whose sequence fits in the buffer. */
  lemma DecodeInside(bytes: seq<Byte>, current: int, len: nat, r: Result<nat, DecodeError>)
    requires !IsEndPosition(bytes, current) && ByteLength(bytes[current]) == Some(len)
    requires current + len <= |bytes|
    requires DecodeSequence(bytes[current], len, bytes[current + 1..current + len]) == r
    ensures Decode(bytes, current) ==
              if r.Ok? then Ok(Decoded(r.value, current, current + len)) else Err(r.error)
  {
  }

  /** The sequence checks pass for an accepted value in its shortest form. */
  lemma SequenceAccepted(lead: Byte, len: nat, rest: seq<Byte>, v: nat)
    requires ByteLength(lead) == Some(len) && |rest| == len - 1
    requires Continue(rest, LeadPayload(lead)) == Some(v)
    requires IsAcceptedValue(v) && !IsOverlong(v, len)
    ensures DecodeSequence(lead, len, rest) == Ok(v)
  {
  }

  /** The shortest encoding of an accepted value passes every sequence
      check and yields the value. */
  lemma EncodingPassesChecks(v: nat)
    requires IsAcceptedValue(v)
    ensures ByteLength(Encoding(v)[0]) == Some(EncodedLength(v))
    ensures DecodeSequence(Encoding(v)[0], EncodedLength(v), Encoding(v)[1..]) == Ok(v)
  {
    var len := EncodedLength(v);
    var e := Encoding(v);
    EncodeDecodes(v, len);
    assert !IsOverlong(v, len) by {
      NotOverlongIsShortest(v, len);
    }
    SequenceAccepted(e[0], len, e[1..], v);
  }

  /** The bytes of a `len`-byte encoding fold back into `v`. */
  lemma EncodeDecodes(v: nat, len: nat)
    requires 1 <= len <= 6 && v < Pow2(BITS_AVAILABLE[len])
    ensures ByteLength(Encode(v, len)[0]) == Some(len)
    ensures Continue(Encode(v, len)[1..], LeadPayload(Encode(v, len)[0])) == Some(v)
  {
    var k := len - 1;
    assert v < Pow2(PayloadBits(len) + 6 * k) && Encode(v, len) == Build(v, len, k) by {
      EncodeIsBuild(v, len);
    }
    var r := Build(v, len, k);
    BuildDecodes(v, len, k);
    assert Encode(v, len) == r;
    assert ByteLength(r[0]) == Some(len);
  }

  /** A span of the buffer is its first byte followed by the rest. */
  lemma SpanParts(bytes: seq<Byte>, current: int, len: nat)
    requires 0 <= current && 1 <= len && current + len <= |bytes|
    ensures bytes[current..current + len] == [bytes[current]] + bytes[current + 1..current + len]
  {
  }

  lemma SequenceOverlong(lead: Byte, len: nat, rest: seq<Byte>, v: nat)
    requires ByteLength(lead) == Some(len) && |rest| == len - 1
    requires Continue(rest, LeadPayload(lead)) == Some(v)
    requires v < Pow2(31) && IsOverlong(v, len)
    ensures DecodeSequence(lead, len, rest) == Err(Overlong)
  {
  }

  /** Round trip: the shortest encoding of an accepted value decodes back
      to it, with the span covering exactly the encoding. */
  lemma DecodeEncoding(bytes: seq<Byte>, current: int, v: nat)
    requires IsAcceptedValue(v)
    requires 0 <= current && current + EncodedLength(v) <= |bytes|
    requires forall i :: 0 <= i < EncodedLength(v) ==> bytes[current + i] == Encoding(v)[i]
    ensures Decode(bytes, current) == Ok(Decoded(v, current, current + EncodedLength(v)))
  {
    var len := EncodedLength(v);
    assert ByteLength(bytes[current]) == Some(len) &&
           DecodeSequence(bytes[current], len, bytes[current + 1..current + len]) == Ok(v) by {
      EncodingInBuffer(bytes, current, v);
    }
    DecodeInside(bytes, current, len, Ok(v));
  }

  /** The shortest encoding, found in a buffer, passes the sequence checks there. */
  lemma EncodingInBuffer(bytes: seq<Byte>, current: int, v: nat)
    requires IsAcceptedValue(v)
    requires 0 <= current && current + EncodedLength(v) <= |bytes|
    requires forall i :: 0 <= i < EncodedLength(v) ==> bytes[current + i] == Encoding(v)[i]
    ensures ByteLength(bytes[current]) == Some(EncodedLength(v))
    ensures DecodeSequence(bytes[current], EncodedLength(v), bytes[current + 1..current + EncodedLength(v)]) == Ok(v)
  {
    var e := Encoding(v);
    SpanOf(bytes, current, e);
    EncodingPassesChecks(v);
  }

  /** Bytes that agree with `e` from `current` on hold its first byte at
      `current` and the rest of it after. */
  lemma SpanOf(bytes: seq<Byte>, current: int, e: seq<Byte>)
    requires 0 <= current && 1 <= |e| && current + |e| <= |bytes|
    requires forall i :: 0 <= i < |e| ==> bytes[current + i] == e[i]
    ensures bytes[current] == e[0] && bytes[current + 1..current + |e|] == e[1..]
  {
    assert bytes[current] == e[0];
  }

  /** Every sequence that passes the checks is the shortest encoding of an
      accepted value. */
  lemma PassingSequenceIsEncoding(lead: Byte, len: nat, rest: seq<Byte>)
    requires ByteLength(lead) == Some(len) && |rest| == len - 1
    requires DecodeSequence(lead, len, rest).Ok?
    ensures var v := DecodeSequence(lead, len, rest).value;
            IsAcceptedValue(v) && len == EncodedLength(v) && Encoding(v) == [lead] + rest
  {
    var h := LeadPayload(lead);
    ContinueFailsOnBadByte(rest, h);
    var v := Continue(rest, h).value;
    SequenceValueBound(lead, len, rest);
    DecodedIsBuild(lead, rest, len);
    NotOverlongIsShortest(v, len);
    EncodeIsBuild(v, len);
  }

  /** The other direction: whatever decodes is the shortest encoding of an
      accepted value. */
  lemma DecodedIsEncoding(bytes: seq<Byte>, current: int)
    requires Decode(bytes, current).Ok? && !IsEndPosition(bytes, current)
    ensures var d := Decode(bytes, current).value;
            && IsAcceptedValue(d.value)
            && d.current == current
            && d.currentEnd == current + EncodedLength(d.value)
            && bytes[current..d.currentEnd] == Encoding(d.value)
  {
    var len := ByteLength(bytes[current]).value;
    var rest := bytes[current + 1..current + len];
    var r := DecodeSequence(bytes[current], len, rest);
    DecodeInside(bytes, current, len, r);
    PassingSequenceIsEncoding(bytes[current], len, rest);
    SpanParts(bytes, current, len);
  }

  lemma PairTail(a: Byte, b: Byte)
    ensures [a, b][1..2] == [b]
  {
  }

  /** The two-byte form C0 80 of NUL is rejected as overlong. */
  lemma OverlongNulRejected()
    ensures Decode([0xC0, 0x80], 0) == Err(Overlong)
  {
    var data: seq<Byte> := [0xC0, 0x80];
    assert data[1..2] == [0x80] by {
      PairTail(0xC0, 0x80);
    }
    NulSequenceOverlong();
    DecodeInside(data, 0, 2, Err(Overlong));
  }

  lemma NulSequenceOverlong()
    ensures ByteLength(0xC0) == Some(2)
    ensures DecodeSequence(0xC0, 2, [0x80]) == Err(Overlong)
  {
    assert LeadPayload(0xC0) == 0 && Continue([0x80], 0) == Some(0) by {
      LeadByteSplit(0xC0);
    }
    assert IsOverlong(0, 2) by {
      assert BitLength(0) == 0;
    }
    SequenceOverlong(0xC0, 2, [0x80], 0);
  }


  /** Any longer-than-shortest encoding is rejected as overlong, whatever
      the value. */
  lemma LongerEncodingIsOverlong(bytes: seq<Byte>, current: int, v: nat, len: nat)
    requires v < Pow2(31) && 1 <= len <= 6 && v < Pow2(BITS_AVAILABLE[len])
    requires len != EncodedLength(v)
    requires 0 <= current && current + len <= |bytes|
    requires bytes[current..current + len] == Encode(v, len)
    ensures Decode(bytes, current) == Err(Overlong)
  {
    LongerSequenceIsOverlong(v, len);
    SpanParts(bytes, current, len);
    DecodeInside(bytes, current, len, Err(Overlong));
  }

  lemma LongerSequenceIsOverlong(v: nat, len: nat)
    requires v < Pow2(31) && 1 <= len <= 6 && v < Pow2(BITS_AVAILABLE[len])
    requires len != EncodedLength(v)
    ensures ByteLength(Encode(v, len)[0]) == Some(len)
    ensures DecodeSequence(Encode(v, len)[0], len, Encode(v, len)[1..]) == Err(Overlong)
  {
    var e := Encode(v, len);
    EncodeDecodes(v, len);
    assert IsOverlong(v, len) by {
      NotOverlongIsShortest(v, len);
    }
    SequenceOverlong(e[0], len, e[1..], v);
  }

  // ---------------------------------------------------------------------
  // Stepping backwards

  /** The backward scan of `findPrevious`: the last offset at or below `i`
      holding a byte with a valid length, or -1. */
  function ScanBack(bytes: seq<Byte>, i: int): (r: int)
    requires -1 <= i < |bytes|
    ensures -1 <= r <= i
    ensures r >= 0 ==> ByteLength(bytes[r]).Some?
    ensures forall j :: r < j <= i ==> ByteLength(bytes[j]).None?
    decreases i + 1
  {
    if i < 0 then -1
    else if ByteLength(bytes[i]).Some? then i
    else ScanBack(bytes, i - 1)
  }

  /** `findPrevious`: the start of the code point strictly before
      `current` (clamped to the end), or -1 (`begin - 1`) when there is
      none. */
  function FindPrevious(bytes: seq<Byte>, current: int): (r: int)
    ensures current <= 0 ==> r == -1
    ensures -1 <= r && (current > 0 ==> r < current) && r < |bytes|
    ensures r >= 0 ==> ByteLength(bytes[r]).Some?
    ensures forall j :: r < j < current && j < |bytes| ==> ByteLength(bytes[j]).None?
  {
    if current <= 0 then -1
    else
      var limit := if current > |bytes| then |bytes| else current;
      ScanBack(bytes, limit - 1)
  }

  /** The lead byte nearest below `current`, with only bytes of no length
      in between, is what `findPrevious` returns. */
  lemma FindPreviousIsNearestLead(bytes: seq<Byte>, current: int, q: nat)
    requires q < current <= |bytes|
    requires ByteLength(bytes[q]).Some?
    requires forall j :: q < j < current ==> ByteLength(bytes[j]).None?
    ensures FindPrevious(bytes, current) == q
  {
  }

  // ---------------------------------------------------------------------
  // Iterators

  /** A `Utf8Iterator`: the buffer, the address of its first byte
      (iterators compare positions as addresses), and the code point under
      the iterator with its span. */
  datatype Iterator = Iterator(base: int, bytes: seq<Byte>, decoded: Decoded)

  /** An iterator whose decoded value is what decoding at its position
      gives; every iterator the operations below produce is one. */
  predicate Valid(it: Iterator) {
    Decode(it.bytes, it.decoded.current) == Ok(it.decoded)
  }

  /** Wrap a decoding result as an iterator over the buffer. */
  function At(base: int, bytes: seq<Byte>, current: int): (r: Result<Iterator, DecodeError>)
    ensures r.Ok? <==> Decode(bytes, current).Ok?
    ensures r.Ok? ==> Valid(r.value) && r.value.bytes == bytes && r.value.base == base
                      && r.value.decoded.current == current
  {
    match Decode(bytes, current)
    case Err(e) => Err(e)
    case Ok(d) => Ok(Iterator(base, bytes, d))
  }

  /** The constructor: decode at `c`, or at the beginning when `c` is
      null. */
  function MakeIterator(base: int, bytes: seq<Byte>, c: Option<int>): (r: Result<Iterator, DecodeError>)
    ensures r.Ok? ==> Valid(r.value) && r.value.decoded.current == (if c.Some? then c.value else 0)
    ensures |bytes| == 0 ==> r.Ok? && r.value.decoded.value == 0
  {
    At(base, bytes, if c.Some? then c.value else 0)
  }

  /** `begin()` and `end()` of a buffer. */
  function Begin(base: int, bytes: seq<Byte>): Result<Iterator, DecodeError> {
    MakeIterator(base, bytes, None)
  }

  function End(base: int, bytes: seq<Byte>): (r: Result<Iterator, DecodeError>)
    ensures r.Ok? && r.value.decoded == Decoded(0, |bytes|, |bytes|)
  {
    MakeIterator(base, bytes, Some(|bytes|))
  }

  predicate IsEnd(it: Iterator) {
    IsEndPosition(it.bytes, it.decoded.current)
  }

  /** `operator==`: end iterators of any ranges are equal; otherwise the
      positions are compared as addresses. */
  predicate Equal(a: Iterator, b: Iterator) {
    (IsEnd(a) && IsEnd(b)) || a.base + a.decoded.current == b.base + b.decoded.current
  }

  /** `operator*`. */
  function Value(it: Iterator): nat {
    it.decoded.value
  }

  /** Prefix `++`: decode again at the end of the current span. */
  function Next(it: Iterator): (r: Result<Iterator, DecodeError>)
    ensures r.Ok? ==> Valid(r.value) && r.value.bytes == it.bytes && r.value.base == it.base
  {
    At(it.base, it.bytes, it.decoded.currentEnd)
  }

  /** Prefix `--`: decode again at `findPrevious` of the position. */
  function Prev(it: Iterator): (r: Result<Iterator, DecodeError>)
    ensures r.Ok? ==> Valid(r.value) && r.value.bytes == it.bytes && r.value.base == it.base
  {
    At(it.base, it.bytes, FindPrevious(it.bytes, it.decoded.current))
  }

  /** Equality is reflexive and symmetric. */
  lemma EqualReflexiveSymmetric(a: Iterator, b: Iterator)
    ensures Equal(a, a)
    ensures Equal(a, b) <==> Equal(b, a)
  {
  }

  /** Comparing an iterator of a buffer against that buffer's `end()`
      detects exactly the end positions: the loop test `it != end()`. */
  lemma EqualEndIffEnd(it: Iterator)
    requires End(it.base, it.bytes).Ok?
    ensures Equal(it, End(it.base, it.bytes).value) <==> IsEnd(it)
  {
  }

  /** `++` moves a valid iterator off its position to the end of its span:
      strictly forward unless it is already at an end. */
  lemma NextAdvances(it: Iterator)
    requires Valid(it) && !IsEnd(it) && Next(it).Ok?
    ensures Next(it).value.decoded.current == it.decoded.currentEnd > it.decoded.current
    ensures IsAcceptedValue(Value(it))
    ensures it.bytes[it.decoded.current..it.decoded.currentEnd] == Encoding(Value(it))
  {
    DecodedIsEncoding(it.bytes, it.decoded.current);
  }

  /** `--` undoes `++`: stepping back from the successor of a valid
      iterator returns to the same code point. */
  lemma PrevUndoesNext(it: Iterator)
    requires Valid(it) && !IsEnd(it) && Next(it).Ok?
    ensures Prev(Next(it).value) == Ok(it)
  {
    var p := it.decoded.current;
    SpanTailHasNoLength(it.bytes, p);
    FindPreviousIsNearestLead(it.bytes, it.decoded.currentEnd, p);
  }

  /** Inside a decoded span only the first byte has a length. */
  lemma SpanTailHasNoLength(bytes: seq<Byte>, p: int)
    requires Decode(bytes, p).Ok? && !IsEndPosition(bytes, p)
    ensures var e := Decode(bytes, p).value.currentEnd;
            p < e <= |bytes| && ByteLength(bytes[p]).Some? &&
            forall j :: p < j < e ==> ByteLength(bytes[j]).None?
  {
    DecodeOutcomes(bytes, p);
    var lead := bytes[p];
    var len := ByteLength(lead).value;
    var rest := bytes[p + 1..p + len];
    assert Continue(rest, LeadPayload(lead)).Some?;
    ContinueFailsOnBadByte(rest, LeadPayload(lead));
    forall j | p < j < p + len
      ensures ByteLength(bytes[j]).None?
    {
      assert bytes[j] == rest[j - p - 1];
    }
  }

  /** In a shortest encoding only the first byte has a length; all others
      are continuation bytes. */
  lemma EncodingShape(v: nat)
    requires IsAcceptedValue(v)
    ensures ByteLength(Encoding(v)[0]).Some?
    ensures forall i :: 1 <= i < |Encoding(v)| ==> IsContinuation(Encoding(v)[i])
  {
    var len := EncodedLength(v);
    EncodingPassesChecks(v);
    var rest := Encoding(v)[1..];
    ContinueFailsOnBadByte(rest, LeadPayload(Encoding(v)[0]));
    forall i | 1 <= i < |Encoding(v)|
      ensures IsContinuation(Encoding(v)[i])
    {
      assert Encoding(v)[i] == rest[i - 1];
    }
  }

  // ---------------------------------------------------------------------
  // Postfix forms

  /** `operator++(int)` as written: it steps and then returns a copy of
      the iterator after the step. The pair is (new state, returned copy). */
  function PostNext(it: Iterator): (r: Result<(Iterator, Iterator), DecodeError>)
    ensures r.Ok? <==> Next(it).Ok?
    ensures r.Ok? ==> r.value.0 == Next(it).value && r.value.1 == r.value.0
  {
    match Next(it)
    case Err(e) => Err(e)
    case Ok(n) => Ok((n, n))
  }

  /** The copy returned by `it++` on a valid iterator that is not at an
      end does not compare equal to the iterator before the step. */
  lemma PostNextReturnsSteppedCopy(it: Iterator)
    requires Valid(it) && !IsEnd(it) && PostNext(it).Ok?
    ensures !Equal(PostNext(it).value.1, it)
  {
    NextAdvances(it);
  }

  /** Postfix `++` with the usual meaning: step, and return the iterator as
      it was before the step. */
  function PostNextIntended(it: Iterator): (r: Result<(Iterator, Iterator), DecodeError>)
    ensures r.Ok? <==> Next(it).Ok?
    ensures r.Ok? ==> r.value.0 == Next(it).value
  {
    match Next(it)
    case Err(e) => Err(e)
    case Ok(n) => Ok((n, it))
  }

  /** The corrected form returns the iterator from before the step, which
      compares equal to it; the new state has moved on. */
  lemma PostNextIntendedReturnsOriginal(it: Iterator)
    requires Valid(it) && !IsEnd(it) && PostNextIntended(it).Ok?
    ensures Equal(PostNextIntended(it).value.1, it)
    ensures !Equal(PostNextIntended(it).value.0, it)
  {
    NextAdvances(it);
  }

  /** `operator--(int)`: steps back and returns the iterator after the
      step, like `operator++(int)`. */
  function PostPrev(it: Iterator): (r: Result<(Iterator, Iterator), DecodeError>)
    ensures r.Ok? <==> Prev(it).Ok?
    ensures r.Ok? ==> r.value.0 == Prev(it).value && r.value.1 == r.value.0
  {
    match Prev(it)
    case Err(e) => Err(e)
    case Ok(n) => Ok((n, n))
  }

  /** `--` moves an iterator that is not at an end strictly back, to the
      position before `begin` when it was on the first code point. */
  lemma PrevRetreats(it: Iterator)
    requires !IsEnd(it) && Prev(it).Ok?
    ensures Prev(it).value.decoded.current < it.decoded.current
    ensures !Equal(Prev(it).value, it)
  {
  }

  /** The copy returned by `it--` on an iterator that is not at an end
      does not compare equal to the iterator before the step. */
  lemma PostPrevReturnsSteppedCopy(it: Iterator)
    requires !IsEnd(it) && PostPrev(it).Ok?
    ensures !Equal(PostPrev(it).value.1, it)
  {
    PrevRetreats(it);
  }

  /** Postfix `--` with the usual meaning: step back, and return the
      iterator as it was before the step. */
  function PostPrevIntended(it: Iterator): (r: Result<(Iterator, Iterator), DecodeError>)
    ensures r.Ok? <==> Prev(it).Ok?
    ensures r.Ok? ==> r.value.0 == Prev(it).value && r.value.1 == it
  {
    match Prev(it)
    case Err(e) => Err(e)
    case Ok(n) => Ok((n, it))
  }

  /** The corrected form returns an iterator equal to the one before the
      step, while the iterator itself has moved back. */
  lemma PostPrevIntendedReturnsOriginal(it: Iterator)
    requires !IsEnd(it) && PostPrevIntended(it).Ok?
    ensures Equal(PostPrevIntended(it).value.1, it)
    ensures !Equal(PostPrevIntended(it).value.0, it)
  {
    PrevRetreats(it);
  }

  // ---------------------------------------------------------------------
  // Reverse iterators

  /** `Utf8ReverseIterator`: a forward iterator one code point ahead in
      reading order, with the directions swapped. */
  datatype ReverseIterator = ReverseIterator(inner: Iterator)

  /** The constructor from a forward iterator steps it back once. */
  function MakeReverse(it: Iterator): (r: Result<ReverseIterator, DecodeError>)
    ensures r.Ok? <==> Prev(it).Ok?
    ensures r.Ok? ==> Valid(r.value.inner) && r.value.inner.bytes == it.bytes
                      && r.value.inner.base == it.base
  {
    match Prev(it)
    case Err(e) => Err(e)
    case Ok(p) => Ok(ReverseIterator(p))
  }

  /** Reverse `++` is forward `--`; reverse `--` is forward `++`. */
  function ReverseNext(r: ReverseIterator): Result<ReverseIterator, DecodeError> {
    MakeReverse(r.inner)
  }

  function ReversePrev(r: ReverseIterator): Result<ReverseIterator, DecodeError> {
    match Next(r.inner)
    case Err(e) => Err(e)
    case Ok(n) => Ok(ReverseIterator(n))
  }

  predicate ReverseEqual(a: ReverseIterator, b: ReverseIterator) {
    Equal(a.inner, b.inner)
  }

  /** Reverse `operator++(int)` as written: it applies postfix `--` to the
      inner iterator and returns a reference to itself, so the result is
      the stepped iterator. The pair is (new state, returned value). */
  function ReversePostNext(r: ReverseIterator): (p: Result<(ReverseIterator, ReverseIterator), DecodeError>)
    ensures p.Ok? <==> ReverseNext(r).Ok?
    ensures p.Ok? ==> p.value.0 == ReverseNext(r).value && p.value.1 == p.value.0
  {
    match PostPrev(r.inner)
    case Err(e) => Err(e)
    case Ok((n, _)) => Ok((ReverseIterator(n), ReverseIterator(n)))
  }

  /** Reverse `operator--(int)` as written: postfix `++` on the inner
      iterator, returning a reference to itself. */
  function ReversePostPrev(r: ReverseIterator): (p: Result<(ReverseIterator, ReverseIterator), DecodeError>)
    ensures p.Ok? <==> ReversePrev(r).Ok?
    ensures p.Ok? ==> p.value.0 == ReversePrev(r).value && p.value.1 == p.value.0
  {
    match PostNext(r.inner)
    case Err(e) => Err(e)
    case Ok((n, _)) => Ok((ReverseIterator(n), ReverseIterator(n)))
  }

  /** What either reverse postfix operator as written returns does not
      compare equal to the reverse iterator before the step. */
  lemma ReversePostfixReturnsStepped(r: ReverseIterator)
    requires Valid(r.inner) && !IsEnd(r.inner)
    ensures ReversePostNext(r).Ok? ==> !ReverseEqual(ReversePostNext(r).value.1, r)
    ensures ReversePostPrev(r).Ok? ==> !ReverseEqual(ReversePostPrev(r).value.1, r)
  {
    if ReversePostNext(r).Ok? {
      PrevRetreats(r.inner);
    }
    if ReversePostPrev(r).Ok? {
      NextAdvances(r.inner);
    }
  }

  /** Reverse postfix `++` and `--` with the usual meaning: step, and
      return the reverse iterator as it was. */
  function ReversePostNextIntended(r: ReverseIterator): (p: Result<(ReverseIterator, ReverseIterator), DecodeError>)
    ensures p.Ok? <==> ReverseNext(r).Ok?
    ensures p.Ok? ==> p.value.0 == ReverseNext(r).value && p.value.1 == r
  {
    match ReverseNext(r)
    case Err(e) => Err(e)
    case Ok(n) => Ok((n, r))
  }

  function ReversePostPrevIntended(r: ReverseIterator): (p: Result<(ReverseIterator, ReverseIterator), DecodeError>)
    ensures p.Ok? <==> ReversePrev(r).Ok?
    ensures p.Ok? ==> p.value.0 == ReversePrev(r).value && p.value.1 == r
  {
    match ReversePrev(r)
    case Err(e) => Err(e)
    case Ok(n) => Ok((n, r))
  }

  /** The corrected reverse postfix operators return a reverse iterator
      equal to the one before the step, while the state has moved. */
  lemma ReversePostfixIntendedReturnsOriginal(r: ReverseIterator)
    requires Valid(r.inner) && !IsEnd(r.inner)
    ensures ReversePostNextIntended(r).Ok? ==>
      ReverseEqual(ReversePostNextIntended(r).value.1, r) && !ReverseEqual(ReversePostNextIntended(r).value.0, r)
    ensures ReversePostPrevIntended(r).Ok? ==>
      ReverseEqual(ReversePostPrevIntended(r).value.1, r) && !ReverseEqual(ReversePostPrevIntended(r).value.0, r)
  {
    if ReversePostNextIntended(r).Ok? {
      PrevRetreats(r.inner);
    }
    if ReversePostPrevIntended(r).Ok? {
      NextAdvances(r.inner);
    }
  }

  function ReverseValue(r: ReverseIterator): nat {
    Value(r.inner)
  }

  /** `rbegin()` and `rend()` of a buffer: reverse iterators built from
      `end()` and `begin()`. */
  function ReverseBegin(base: int, bytes: seq<Byte>): Result<ReverseIterator, DecodeError> {
    MakeReverse(End(base, bytes).value)
  }

  function ReverseEnd(base: int, bytes: seq<Byte>): (r: Result<ReverseIterator, DecodeError>)
    ensures r.Ok? <==> Begin(base, bytes).Ok?
    ensures r.Ok? ==> IsEnd(r.value.inner)
  {
    match Begin(base, bytes)
    case Err(e) => Err(e)
    case Ok(b) => MakeReverse(b)
  }

  /** Comparing against `rend()` detects exactly the reverse iterators
      whose inner iterator is at an end. */
  lemma ReverseEqualEndIffEnd(r: ReverseIterator)
    requires ReverseEnd(r.inner.base, r.inner.bytes).Ok?
    ensures ReverseEqual(r, ReverseEnd(r.inner.base, r.inner.bytes).value) <==> IsEnd(r.inner)
  {
  }

  // ---------------------------------------------------------------------
  // Whole-buffer iteration

  /** The code points the loop `for (; it != end(); ++it)` visits, or the
      error of the first step that throws. */
  function Walk(it: Iterator): Result<seq<nat>, DecodeError>
    requires Valid(it)
    decreases |it.bytes| - it.decoded.current
  {
    if IsEnd(it) then Ok([])
    else
      match Next(it)
      case Err(e) => Err(e)
      case Ok(n) =>
        match Walk(n)
        case Err(e) => Err(e)
        case Ok(vs) => Ok([Value(it)] + vs)
  }

  /** Forward iteration over a whole buffer, from `begin()` to `end()`. */
  function Forward(base: int, bytes: seq<Byte>): Result<seq<nat>, DecodeError> {
    match Begin(base, bytes)
    case Err(e) => Err(e)
    case Ok(it) => Walk(it)
  }

  /** The code points the loop `for (; rit != rend(); ++rit)` visits. */
  function ReverseWalk(r: ReverseIterator): Result<seq<nat>, DecodeError>
    requires Valid(r.inner)
    decreases r.inner.decoded.current + 1
  {
    if IsEnd(r.inner) then Ok([])
    else
      match ReverseNext(r)
      case Err(e) => Err(e)
      case Ok(n) =>
        match ReverseWalk(n)
        case Err(e) => Err(e)
        case Ok(vs) => Ok([ReverseValue(r)] + vs)
  }

  /** Reverse iteration over a whole buffer, from `rbegin()` to `rend()`. */
  function Backward(base: int, bytes: seq<Byte>): Result<seq<nat>, DecodeError> {
    match ReverseBegin(base, bytes)
    case Err(e) => Err(e)
    case Ok(r) =>
      match ReverseEnd(base, bytes)
      case Err(e) => Err(e)
      case Ok(_) => ReverseWalk(r)
  }

  /** Forward iteration as a walk over byte offsets: decode at `p`, then
      continue at the end of the span. */
  function WalkFrom(bytes: seq<Byte>, p: int): Result<seq<nat>, DecodeError>
    decreases |bytes| - p
  {
    if IsEndPosition(bytes, p) then Ok([])
    else
      match Decode(bytes, p)
      case Err(e) => Err(e)
      case Ok(d) =>
        match WalkFrom(bytes, d.currentEnd)
        case Err(e) => Err(e)
        case Ok(vs) => Ok([d.value] + vs)
  }

  /** Reverse iteration as a walk over byte offsets: decode at the start of
      the code point before `q`, and continue from there. */
  function BackFrom(bytes: seq<Byte>, q: int): Result<seq<nat>, DecodeError>
    decreases q + 1
  {
    var p := FindPrevious(bytes, q);
    if p < 0 then Ok([])
    else
      match Decode(bytes, p)
      case Err(e) => Err(e)
      case Ok(d) =>
        match BackFrom(bytes, p)
        case Err(e) => Err(e)
        case Ok(vs) => Ok([d.value] + vs)
  }

  /** One step of the offset walk, read forwards and backwards. */
  lemma WalkFromCons(bytes: seq<Byte>, p: int, d: Decoded, vs: seq<nat>)
    requires !IsEndPosition(bytes, p) && Decode(bytes, p) == Ok(d)
    ensures WalkFrom(bytes, d.currentEnd) == Ok(vs) ==> WalkFrom(bytes, p) == Ok([d.value] + vs)
    ensures WalkFrom(bytes, p) == Ok([d.value] + vs) ==> WalkFrom(bytes, d.currentEnd) == Ok(vs)
  {
    if WalkFrom(bytes, p) == Ok([d.value] + vs) {
      assert ([d.value] + vs)[1..] == vs;
    }
  }

  lemma {:induction false} WalkIsWalkFrom(it: Iterator)
    requires Valid(it)
    ensures Walk(it) == WalkFrom(it.bytes, it.decoded.current)
    decreases |it.bytes| - it.decoded.current
  {
    if !IsEnd(it) && Next(it).Ok? {
      WalkIsWalkFrom(Next(it).value);
    }
  }

  /** The iterator loop from `begin()` to `end()` is the offset walk from 0. */
  lemma ForwardIsWalkFrom(base: int, bytes: seq<Byte>)
    ensures Forward(base, bytes) == WalkFrom(bytes, 0)
  {
    if Begin(base, bytes).Ok? {
      WalkIsWalkFrom(Begin(base, bytes).value);
    }
  }

  lemma {:induction false} ReverseWalkIsBackFrom(it: Iterator)
    requires MakeReverse(it).Ok?
    ensures ReverseWalk(MakeReverse(it).value) == BackFrom(it.bytes, it.decoded.current)
    decreases it.decoded.current + 1
  {
    var r := MakeReverse(it).value;
    if !IsEnd(r.inner) && MakeReverse(r.inner).Ok? {
      ReverseWalkIsBackFrom(r.inner);
    }
  }

  /** The reverse iterator loop from `rbegin()` to `rend()` is the offset
      walk back from the end, once `rend()` can be built. */
  lemma BackwardIsBackFrom(base: int, bytes: seq<Byte>)
    requires Begin(base, bytes).Ok?
    ensures Backward(base, bytes) == BackFrom(bytes, |bytes|)
  {
    if ReverseBegin(base, bytes).Ok? {
      ReverseWalkIsBackFrom(End(base, bytes).value);
    }
  }

  /** The sequence in reverse order. */
  function Reversed(s: seq<nat>): (r: seq<nat>)
    ensures |r| == |s|
    ensures forall i :: 0 <= i < |s| ==> r[i] == s[|s| - 1 - i]
  {
    if |s| == 0 then [] else Reversed(s[1..]) + [s[0]]
  }

  /** `xs` in front of a successful result; errors pass through. */
  function Prepend(xs: seq<nat>, r: Result<seq<nat>, DecodeError>): Result<seq<nat>, DecodeError> {
    if r.Ok? then Ok(xs + r.value) else r
  }

  /** Stepping back from the end of a decoded span lands on its start. */
  lemma BackFromStep(bytes: seq<Byte>, p: int)
    requires Decode(bytes, p).Ok? && !IsEndPosition(bytes, p)
    ensures BackFrom(bytes, Decode(bytes, p).value.currentEnd) ==
            Prepend([Decode(bytes, p).value.value], BackFrom(bytes, p))
  {
    SpanTailHasNoLength(bytes, p);
    FindPreviousIsNearestLead(bytes, Decode(bytes, p).value.currentEnd, p);
  }

  lemma PrependTwice(xs: seq<nat>, ys: seq<nat>, r: Result<seq<nat>, DecodeError>)
    ensures Prepend(xs, Prepend(ys, r)) == Prepend(xs + ys, r)
  {
    if r.Ok? {
      assert xs + (ys + r.value) == (xs + ys) + r.value;
    }
  }

  lemma PrependNothing(r: Result<seq<nat>, DecodeError>)
    ensures Prepend([], r) == r
  {
    if r.Ok? {
      assert [] + r.value == r.value;
    }
  }

  lemma ReversedCons(s: seq<nat>)
    requires |s| > 0
    ensures Reversed(s) == Reversed(s[1..]) + [s[0]]
  {
  }

  /** Walking back from the end of the buffer retraces, in reverse, every
      forward walk that reaches the end, then goes on from where that walk
      started. */
  lemma {:induction false} BackFromAfterWalk(bytes: seq<Byte>, p: int, cps: seq<nat>)
    requires 0 <= p <= |bytes| && WalkFrom(bytes, p) == Ok(cps)
    ensures BackFrom(bytes, |bytes|) == Prepend(Reversed(cps), BackFrom(bytes, p))
    decreases |bytes| - p
  {
    if p < |bytes| {
      var d := Decode(bytes, p).value;
      var vs := WalkFrom(bytes, d.currentEnd).value;
      assert cps == [d.value] + vs;
      BackFromAfterWalk(bytes, d.currentEnd, vs);
      BackFromStep(bytes, p);
      PrependTwice(Reversed(vs), [d.value], BackFrom(bytes, p));
      ReversedCons(cps);
    } else {
      assert cps == [];
      PrependNothing(BackFrom(bytes, p));
    }
  }

  /** Reverse iteration yields exactly the reverse of what forward
      iteration yields, whenever forward iteration gets through. */
  lemma BackwardReversesForward(base: int, bytes: seq<Byte>, cps: seq<nat>)
    requires Forward(base, bytes) == Ok(cps)
    ensures Backward(base, bytes) == Ok(Reversed(cps))
  {
    ForwardIsWalkFrom(base, bytes);
    BackFromAfterWalk(bytes, 0, cps);
    BackwardIsBackFrom(base, bytes);
    assert Reversed(cps) + [] == Reversed(cps);
  }

  // ---------------------------------------------------------------------
  // Buffers of encoded code points

  /** Every code point is one `decodeUtf8` accepts. */
  predicate AllAccepted(cps: seq<nat>) {
    |cps| == 0 || (IsAcceptedValue(cps[0]) && AllAccepted(cps[1..]))
  }

  /** The shortest encodings of the code points, one after another. */
  function EncodeAll(cps: seq<nat>): (r: seq<Byte>)
    requires AllAccepted(cps)
    ensures |r| == 0 <==> |cps| == 0
  {
    if |cps| == 0 then [] else Encoding(cps[0]) + EncodeAll(cps[1..])
  }

  /** An encoding placed between any bytes decodes to its value. */
  lemma DecodeBetween(bytes: seq<Byte>, pre: seq<Byte>, v: nat, post: seq<Byte>)
    requires IsAcceptedValue(v) && bytes == pre + (Encoding(v) + post)
    ensures Decode(bytes, |pre|) == Ok(Decoded(v, |pre|, |pre| + |Encoding(v)|))
  {
    var e := Encoding(v);
    assert forall i :: 0 <= i < |e| ==> bytes[|pre| + i] == e[i] by {
      SliceBetween(pre, e, post);
    }
    DecodeEncoding(bytes, |pre|, v);
  }

  lemma SliceBetween(pre: seq<Byte>, mid: seq<Byte>, post: seq<Byte>)
    ensures (pre + (mid + post))[|pre|..|pre| + |mid|] == mid
  {
    assert pre + (mid + post) == (pre + mid) + post;
  }

  lemma Associate<T>(a: seq<T>, b: seq<T>, c: seq<T>)
    ensures a + (b + c) == (a + b) + c
  {
  }

  lemma Uncons<T>(s: seq<T>)
    requires |s| > 0
    ensures s == [s[0]] + s[1..]
  {
  }

  lemma {:induction false} WalkFromEncodeAll(bytes: seq<Byte>, pre: seq<Byte>, cps: seq<nat>)
    requires AllAccepted(cps) && bytes == pre + EncodeAll(cps)
    ensures WalkFrom(bytes, |pre|) == Ok(cps)
    decreases |cps|
  {
    if |cps| == 0 {
      assert bytes == pre && cps == [];
    } else {
      var enc, post := Encoding(cps[0]), EncodeAll(cps[1..]);
      Associate(pre, enc, post);
      DecodeBetween(bytes, pre, cps[0], post);
      var d := Decode(bytes, |pre|).value;
      assert d.currentEnd == |pre + enc|;
      WalkFromEncodeAll(bytes, pre + enc, cps[1..]);
      assert WalkFrom(bytes, d.currentEnd) == Ok(cps[1..]);
      WalkFromCons(bytes, |pre|, d, cps[1..]);
      assert WalkFrom(bytes, |pre|) == Ok([d.value] + cps[1..]);
      Uncons(cps);
    }
  }

  /** Forward iteration over the encodings of accepted code points yields
      exactly those code points. */
  lemma ForwardEncodeAll(base: int, cps: seq<nat>)
    requires AllAccepted(cps)
    ensures Forward(base, EncodeAll(cps)) == Ok(cps)
  {
    ForwardIsWalkFrom(base, EncodeAll(cps));
    WalkFromEncodeAll(EncodeAll(cps), [], cps);
  }

  lemma SliceChain(bytes: seq<Byte>, p: nat, e: nat)
    requires p <= e <= |bytes|
    ensures bytes[p..] == bytes[p..e] + bytes[e..]
  {
  }

  lemma {:induction false} WalkFromIsEncodeAll(bytes: seq<Byte>, p: nat, cps: seq<nat>)
    requires p <= |bytes| && WalkFrom(bytes, p) == Ok(cps)
    ensures AllAccepted(cps) && bytes[p..] == EncodeAll(cps)
    decreases |bytes| - p
  {
    if p < |bytes| {
      var d := Decode(bytes, p).value;
      DecodedIsEncoding(bytes, p);
      WalkFromIsEncodeAll(bytes, d.currentEnd, cps[1..]);
      SliceChain(bytes, p, d.currentEnd);
    }
  }

  /** Conversely, a buffer that forward iteration gets through is the
      concatenation of the shortest encodings of what it yields. */
  lemma ForwardIsEncodeAll(base: int, bytes: seq<Byte>, cps: seq<nat>)
    requires Forward(base, bytes) == Ok(cps)
    ensures AllAccepted(cps) && bytes == EncodeAll(cps)
  {
    ForwardIsWalkFrom(base, bytes);
    WalkFromIsEncodeAll(bytes, 0, cps);
  }

  /** Reverse iteration over the encodings of accepted code points yields
      them in reverse order. */
  lemma BackwardEncodeAll(base: int, cps: seq<nat>)
    requires AllAccepted(cps)
    ensures Backward(base, EncodeAll(cps)) == Ok(Reversed(cps))
  {
    ForwardEncodeAll(base, cps);
    BackwardReversesForward(base, EncodeAll(cps), cps);
  }
}
