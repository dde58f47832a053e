/** The Linux I/O priority encoding: a priority class in the bits above 13
    and class-specific data in the low 13 bits of a C `int`. The bit
    operations are written arithmetically on the two's-complement value. */
module IoPriority {

  /** A C `int`. */
  type Int32 = x: int | -0x8000_0000 <= x < 0x8000_0000

  /** The priority classes, with the values of their enumerators. */
  datatype PrioClass = None | RealTime | BestEffort | Idle

  function ClassCode(c: PrioClass): (n: int)
    ensures 0 <= n <= 3
  {
    match c
    case None => 0
    case RealTime => 1
    case BestEffort => 2
    case Idle => 3
  }

  /** The number of data bits below the class. */
  const CLASS_SHIFT := 13

  /** `1 << 13`: one more than the mask of the data bits. */
  const DATA_RANGE := 0x2000

  /** The number of best-effort levels and the fallback best-effort level. */
  const BE_LEVELS := 8
  const NORMAL_LEVEL := 4

  /** `ioprioPrioClass`: `>>` on a signed `int` rounds toward minus
      infinity, which is Dafny's division by a positive divisor; the
      enumeration is a plain cast, so any integer can come out. */
  function PrioClassOf(v: Int32): (c: int)
    ensures -0x4_0000 <= c < 0x4_0000
    ensures c == 0 <==> 0 <= v < DATA_RANGE
  {
    v / DATA_RANGE
  }

  /** `ioprioPrioData`: the low 13 bits, which for a two's-complement value
      is its remainder modulo 8192, never negative. */
  function PrioData(v: Int32): (d: int)
    ensures 0 <= d < DATA_RANGE
    ensures (v - d) % DATA_RANGE == 0
  {
    v % DATA_RANGE
  }

  /** Or of two 2-bit values, bit by bit. */
  function Or2(a: int, b: int): (r: int)
    requires 0 <= a <= 3 && 0 <= b <= 3
    ensures 0 <= r <= 3
    ensures r == 0 <==> a == 0 && b == 0
  {
    (if a % 2 == 1 || b % 2 == 1 then 1 else 0) + (if a / 2 == 1 || b / 2 == 1 then 2 else 0)
  }

  /** Bits 13 and 14 of a value: where a class code lands after `<< 13`. */
  function ClassBits(v: Int32): (b: int)
    ensures 0 <= b <= 3
  {
    (v / DATA_RANGE) % 4
  }

  /** `ioprioPrioValue`: the class code shifted into bits 13 and 14 and or-ed
      with the data, which may have bits of its own there or above. */
  function PrioValue(c: PrioClass, data: Int32): (v: Int32)
    ensures PrioData(v) == PrioData(data)
    ensures (v / DATA_RANGE) / 4 == (data / DATA_RANGE) / 4
    ensures ClassBits(v) == Or2(ClassBits(data), ClassCode(c))
  {
    var mid := ClassBits(data);
    var m := Or2(mid, ClassCode(c));
    SameBlock(data, mid, m);
    data + (m - mid) * DATA_RANGE
  }

  /** Replacing bits 13 and 14 keeps a value inside its 32768-aligned block,
      and so inside the range of an `int`. */
  lemma SameBlock(data: Int32, mid: int, m: int)
    requires mid == (data / DATA_RANGE) % 4 && 0 <= m <= 3
    ensures var r := data + (m - mid) * DATA_RANGE;
      && -0x8000_0000 <= r < 0x8000_0000
      && r % DATA_RANGE == data % DATA_RANGE
      && (r / DATA_RANGE) / 4 == (data / DATA_RANGE) / 4
      && (r / DATA_RANGE) % 4 == m
  {
    var q := data / DATA_RANGE;
    var r := data + (m - mid) * DATA_RANGE;
    ShiftQuotient(data, m - mid);
    assert r / DATA_RANGE == q + (m - mid);
    assert q == (q / 4) * 4 + mid;
    ReplaceLowDigits(q, mid, m);
    assert -0x4_0000 <= q < 0x4_0000;
  }

  /** Adding `k` multiples of 8192 adds `k` to the quotient and keeps the
      remainder. */
  lemma ShiftQuotient(x: int, k: int)
    ensures (x + k * DATA_RANGE) / DATA_RANGE == x / DATA_RANGE + k
    ensures (x + k * DATA_RANGE) % DATA_RANGE == x % DATA_RANGE
  {}

  /** Replacing the last base-4 digit of `q` by `m` keeps the other digits. */
  lemma ReplaceLowDigits(q: int, mid: int, m: int)
    requires mid == q % 4 && 0 <= m <= 3
    ensures (q + (m - mid)) / 4 == q / 4
    ensures (q + (m - mid)) % 4 == m
    ensures -0x4_0000 <= q < 0x4_0000 ==> -0x4_0000 <= q + (m - mid) < 0x4_0000
  {}

  /** `ioprioValid`: the class part is not `None`. */
  predicate Valid(v: Int32) {
    PrioClassOf(v) != ClassCode(None)
  }

  /** A value is valid exactly when it lies outside `0 .. 8191`. */
  lemma ValidIffOutsideData(v: Int32)
    ensures Valid(v) <==> !(0 <= v < DATA_RANGE)
  {}

  /** Data that fits in 13 bits survives the encoding, and so does the class. */
  lemma ValueRoundTrip(c: PrioClass, data: Int32)
    requires 0 <= data < DATA_RANGE
    ensures PrioValue(c, data) == ClassCode(c) * DATA_RANGE + data
    ensures PrioClassOf(PrioValue(c, data)) == ClassCode(c)
    ensures PrioData(PrioValue(c, data)) == data
  {
    assert ClassBits(data) == 0;
  }

  /** Only `None` yields an invalid value from 13-bit data. */
  lemma NoneIsInvalid(c: PrioClass, data: Int32)
    requires 0 <= data < DATA_RANGE
    ensures Valid(PrioValue(c, data)) <==> c != None
  {
    ValueRoundTrip(c, data);
  }

  /** The idle class with data 0 is `3 << 13`; best effort at the fallback
      level is `(2 << 13) | 4`. */
  lemma ClassValues()
    ensures PrioValue(Idle, 0) == 0x6000
    ensures PrioValue(BestEffort, NORMAL_LEVEL) == 0x4004
    ensures PrioValue(None, 0) == 0 && !Valid(0)
  {
    ValueRoundTrip(Idle, 0);
    ValueRoundTrip(BestEffort, NORMAL_LEVEL);
    ValueRoundTrip(None, 0);
  }
}
