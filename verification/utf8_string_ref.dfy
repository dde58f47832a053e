/** `Utf8StringRef`: a non-owning view of a UTF-8 byte range. The range is
    modelled by its address and contents; the null view is the empty range
    at address 0. */
module Utf8StringRefs {
  import opened Wrappers
  import opened Utf8Iterator
  import StdAlgorithm

  datatype Utf8StringRef = Utf8StringRef(base: int, data: seq<Byte>)

  /** What `at` throws: a decoding error or `std::out_of_range`. */
  datatype AccessError = Malformed(cause: DecodeError) | OutOfRange

  /** The default constructor and `clear()` both leave `(nullptr, nullptr)`. */
  function Null(): (r: Utf8StringRef)
    ensures IsEmpty(r)
  {
    Utf8StringRef(0, [])
  }

  function Clear(r: Utf8StringRef): (c: Utf8StringRef)
    ensures IsEmpty(c) && Size(c) == Ok(0)
  {
    Null()
  }

  /** `empty()`: the two pointers coincide. */
  predicate IsEmpty(r: Utf8StringRef) {
    |r.data| == 0
  }

  /** `operator==`: equal byte lengths, then `std::equal` over the bytes. */
  predicate RefEqual(a: Utf8StringRef, b: Utf8StringRef) {
    |a.data| == |b.data| && StdAlgorithm.EqualRange(a.data, b.data)
  }

  predicate RefNotEqual(a: Utf8StringRef, b: Utf8StringRef) {
    !RefEqual(a, b)
  }

  /** `dataSize()` and `dataLength()`: the byte count. */
  function DataSize(r: Utf8StringRef): (n: nat)
    ensures n == 0 <==> IsEmpty(r)
  {
    |r.data|
  }

  /** `size()`, `length()` and `max_size()`: `std::distance(begin(), end())`,
      the number of `++` steps from `begin()` to `end()`. */
  function Size(r: Utf8StringRef): Result<nat, DecodeError> {
    match Forward(r.base, r.data)
    case Err(e) => Err(e)
    case Ok(cps) => Ok(|cps|)
  }

  /** `std::advance(it, n)` on a bidirectional iterator: `n` prefix `++`. */
  function Advance(it: Iterator, n: nat): (r: Result<Iterator, DecodeError>)
    ensures r.Ok? ==> r.value.base == it.base && r.value.bytes == it.bytes
    ensures r.Ok? && Valid(it) ==> Valid(r.value)
    decreases n
  {
    if n == 0 then Ok(it)
    else
      match Next(it)
      case Err(e) => Err(e)
      case Ok(m) => Advance(m, n - 1)
  }

  /** `at(pos)`: advance from `begin()` and throw when the result equals
      `end()`. */
  function CodePointAt(r: Utf8StringRef, pos: nat): Result<nat, AccessError> {
    match Begin(r.base, r.data)
    case Err(e) => Err(Malformed(e))
    case Ok(b) =>
      match Advance(b, pos)
      case Err(e) => Err(Malformed(e))
      case Ok(it) => if Equal(it, End(r.base, r.data).value) then Err(OutOfRange) else Ok(Value(it))
  }

  /** `operator[]`: the same walk without the bounds test. */
  function Subscript(r: Utf8StringRef, pos: nat): Result<nat, DecodeError> {
    match Begin(r.base, r.data)
    case Err(e) => Err(e)
    case Ok(b) =>
      match Advance(b, pos)
      case Err(e) => Err(e)
      case Ok(it) => Ok(Value(it))
  }

  /** `front()`: the value under `cbegin()`. */
  function Front(r: Utf8StringRef): Result<nat, DecodeError> {
    match Begin(r.base, r.data)
    case Err(e) => Err(e)
    case Ok(b) => Ok(Value(b))
  }

  /** `back()` as written: the value under `crbegin()`, which this class
      builds from `cbegin()`, so it steps back to before the first byte. */
  function Back(r: Utf8StringRef): Result<nat, DecodeError> {
    match Begin(r.base, r.data)
    case Err(e) => Err(e)
    case Ok(b) =>
      match MakeReverse(b)
      case Err(e) => Err(e)
      case Ok(rb) => Ok(ReverseValue(rb))
  }

  /** `back()` with `crbegin()` built from `cend()`, as `Utf8String` builds
      `rbegin()`. */
  function BackCorrected(r: Utf8StringRef): Result<nat, DecodeError> {
    match ReverseBegin(r.base, r.data)
    case Err(e) => Err(e)
    case Ok(rb) => Ok(ReverseValue(rb))
  }

  /** Two views are equal exactly when they hold the same bytes, wherever
      they point; `!=` is the negation. */
  lemma EqualIffSameBytes(a: Utf8StringRef, b: Utf8StringRef)
    ensures RefEqual(a, b) <==> a.data == b.data
    ensures RefNotEqual(a, b) <==> a.data != b.data
  {
    if |a.data| == |b.data| {
      StdAlgorithm.EqualRangeIsPrefix(a.data, b.data);
      assert b.data[..|a.data|] == b.data;
    }
  }

  /** Every shortest encoding takes at least one byte. */
  lemma {:induction false} EncodeAllLength(cps: seq<nat>)
    requires AllAccepted(cps)
    ensures |EncodeAll(cps)| >= |cps|
    decreases |cps|
  {
    if |cps| > 0 {
      EncodeAllLength(cps[1..]);
    }
  }

  /** `size()` counts the code points forward iteration yields; it is at
      most the byte count, and zero exactly for the empty view. */
  lemma SizeCountsCodePoints(r: Utf8StringRef, cps: seq<nat>)
    requires Forward(r.base, r.data) == Ok(cps)
    ensures Size(r) == Ok(|cps|)
    ensures |cps| <= DataSize(r)
    ensures IsEmpty(r) <==> |cps| == 0
  {
    ForwardIsEncodeAll(r.base, r.data, cps);
    EncodeAllLength(cps);
  }

  /** `++` on an end iterator leaves it where it is. */
  lemma EndStaysPut(it: Iterator)
    requires Valid(it) && IsEnd(it)
    ensures Next(it) == Ok(it)
  {
  }

  /** One step of a walk: it is empty exactly at an end, and otherwise
      starts with the current value and continues from the successor. */
  lemma WalkHead(it: Iterator, cps: seq<nat>)
    requires Valid(it) && Walk(it) == Ok(cps)
    ensures |cps| == 0 <==> IsEnd(it)
    ensures |cps| > 0 ==> cps[0] == Value(it) && Next(it).Ok? && Walk(Next(it).value) == Ok(cps[1..])
  {
  }

  /** `n` steps from a valid iterator whose walk yields `cps` land on
      `cps[n]` while the walk lasts ... */
  lemma {:induction false} AdvanceWithin(it: Iterator, cps: seq<nat>, n: nat)
    requires Valid(it) && Walk(it) == Ok(cps) && n < |cps|
    ensures Advance(it, n).Ok? && !IsEnd(Advance(it, n).value)
    ensures Value(Advance(it, n).value) == cps[n]
    decreases n
  {
    if n == 0 {
      AdvanceNone(it, cps);
    } else {
      var m := WalkStep(it, cps);
      var tail := cps[1..];
      assert tail[n - 1] == cps[n];
      AdvanceWithin(m, tail, n - 1);
      AdvanceUnfold(it, m, n - 1);
    }
  }

  /** No step at all: the first value of the walk. */
  lemma AdvanceNone(it: Iterator, cps: seq<nat>)
    requires Valid(it) && Walk(it) == Ok(cps) && 0 < |cps|
    ensures Advance(it, 0) == Ok(it) && !IsEnd(it) && Value(it) == cps[0]
  {
    WalkHead(it, cps);
  }

  /** A walk that is not over continues from the successor. */
  lemma WalkStep(it: Iterator, cps: seq<nat>) returns (m: Iterator)
    requires Valid(it) && Walk(it) == Ok(cps) && 0 < |cps|
    ensures Next(it) == Ok(m) && Valid(m) && Walk(m) == Ok(cps[1..])
  {
    WalkHead(it, cps);
    m := Next(it).value;
  }

  /** The first of `n > 0` steps. */
  lemma AdvanceUnfold(it: Iterator, m: Iterator, k: nat)
    requires Next(it) == Ok(m)
    ensures Advance(it, k + 1) == Advance(m, k)
  {
  }

  /** ... and on an end once it is exhausted. */
  lemma {:induction false} AdvancePast(it: Iterator, cps: seq<nat>, n: nat)
    requires Valid(it) && Walk(it) == Ok(cps) && n >= |cps|
    ensures Advance(it, n).Ok? && IsEnd(Advance(it, n).value)
    decreases n
  {
    WalkHead(it, cps);
    if IsEnd(it) {
      if n > 0 {
        EndStaysPut(it);
        assert Advance(it, n) == Advance(it, n - 1);
        AdvancePast(it, cps, n - 1);
      }
    } else {
      var m := Next(it).value;
      assert Advance(it, n) == Advance(m, n - 1);
      AdvancePast(m, cps[1..], n - 1);
    }
  }

  /** `at(pos)` is the `pos`-th code point, and `out_of_range` from `size()`
      on. */
  lemma AtIsNth(r: Utf8StringRef, cps: seq<nat>, pos: nat)
    requires Forward(r.base, r.data) == Ok(cps)
    ensures pos < |cps| ==> CodePointAt(r, pos) == Ok(cps[pos])
    ensures pos >= |cps| ==> CodePointAt(r, pos) == Err(OutOfRange)
  {
    var b := Begin(r.base, r.data).value;
    if pos < |cps| {
      AdvanceWithin(b, cps, pos);
    } else {
      AdvancePast(b, cps, pos);
    }
    EqualEndIffEnd(Advance(b, pos).value);
  }

  /** `operator[]` agrees with `at` within bounds and, unchecked, reads the
      end iterator's 0 beyond them. */
  lemma SubscriptIsNth(r: Utf8StringRef, cps: seq<nat>, pos: nat)
    requires Forward(r.base, r.data) == Ok(cps)
    ensures Subscript(r, pos) == (if pos < |cps| then Ok(cps[pos]) else Ok(0))
  {
    var b := Begin(r.base, r.data).value;
    if pos < |cps| {
      AdvanceWithin(b, cps, pos);
    } else {
      AdvancePast(b, cps, pos);
    }
  }

  /** `front()` is the first code point. */
  lemma FrontIsFirst(r: Utf8StringRef, cps: seq<nat>)
    requires Forward(r.base, r.data) == Ok(cps) && |cps| > 0
    ensures Front(r) == Ok(cps[0])
  {
    AdvanceWithin(Begin(r.base, r.data).value, cps, 0);
  }

  /** As written, `back()` never reads the data: whenever `cbegin()` can be
      built it yields the before-begin iterator's value 0. */
  lemma BackIsAlwaysZero(r: Utf8StringRef)
    requires Begin(r.base, r.data).Ok?
    ensures Back(r) == Ok(0)
  {
  }

  /** On the encoding of any code points whose last one is not NUL,
      `back()` as written misses that last code point. */
  lemma BackMissesLastCodePoint(base: int, cps: seq<nat>)
    requires AllAccepted(cps) && |cps| > 0 && cps[|cps| - 1] != 0
    ensures Back(Utf8StringRef(base, EncodeAll(cps))) == Ok(0)
    ensures BackCorrected(Utf8StringRef(base, EncodeAll(cps))) == Ok(cps[|cps| - 1])
  {
    ForwardEncodeAll(base, cps);
    BackCorrectedIsLast(Utf8StringRef(base, EncodeAll(cps)), cps);
  }

  /** The concrete witness: the view of the encoding of "A". */
  lemma BackOfLetterA()
    ensures AllAccepted([0x41])
    ensures Back(Utf8StringRef(0, EncodeAll([0x41]))) == Ok(0)
    ensures BackCorrected(Utf8StringRef(0, EncodeAll([0x41]))) == Ok(0x41)
  {
    NoncharacterMeans(0x41);
    Pow2Small();
    assert IsAcceptedValue(0x41);
    assert AllAccepted([0x41]) by {
      assert [0x41][1..] == [];
    }
    BackMissesLastCodePoint(0, [0x41]);
  }

  /** Built from `cend()`, `back()` is the last code point. */
  lemma BackCorrectedIsLast(r: Utf8StringRef, cps: seq<nat>)
    requires Forward(r.base, r.data) == Ok(cps) && |cps| > 0
    ensures BackCorrected(r) == Ok(cps[|cps| - 1])
  {
    BackwardReversesForward(r.base, r.data, cps);
    assert Reversed(cps)[0] == cps[|cps| - 1];
  }
}
