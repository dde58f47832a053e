/** `Utf8String`: an owned UTF-8 buffer whose code-point length is counted
    once, when it is built. The iterators are those of `Utf8Iterator` over
    the stored bytes. */
module Utf8Strings {
  import opened Wrappers
  import opened Utf8Iterator

  /** The UTF-8 byte order mark. */
  const BOM: seq<Byte> := [0xEF, 0xBB, 0xBF]

  /** `getRealUtf8BeginPointer`: where the content starts, past a leading
      byte order mark when at least three bytes are present. */
  function ContentStart(raw: seq<Byte>): (n: nat)
    ensures n <= |raw|
    ensures n == 3 <==> |raw| >= 3 && raw[..3] == BOM
    ensures n != 3 ==> n == 0
  {
    if |raw| >= 3 && raw[0] == 0xEF && raw[1] == 0xBB && raw[2] == 0xBF then 3 else 0
  }

  /** The stored bytes and the code-point count computed at construction. */
  datatype Utf8String = Utf8String(bytes: seq<Byte>, characterLength: nat)

  /** Iteration over the stored bytes; the buffer's address plays no part
      within one string. */
  function CodePoints(s: Utf8String): Result<seq<nat>, DecodeError> {
    Forward(0, s.bytes)
  }

  /** What every constructor establishes: the stored bytes decode, and the
      stored length is the number of code points they hold. */
  predicate WellFormed(s: Utf8String) {
    CodePoints(s).Ok? && |CodePoints(s).value| == s.characterLength
  }

  /** The default constructor. */
  function Default(): (s: Utf8String)
    ensures WellFormed(s)
  {
    Utf8String([], 0)
  }

  /** The constructor from a byte range: drop the byte order mark, then
      count the code points with `std::distance(begin(), end())`, which
      throws on malformed input. */
  function FromBytes(raw: seq<Byte>): (r: Result<Utf8String, DecodeError>)
    ensures r.Ok? ==> WellFormed(r.value) && r.value.bytes == raw[ContentStart(raw)..]
  {
    var stored := raw[ContentStart(raw)..];
    match Forward(0, stored)
    case Err(e) => Err(e)
    case Ok(cps) => Ok(Utf8String(stored, |cps|))
  }

  predicate IsEmpty(s: Utf8String) {
    |s.bytes| == 0
  }

  function Length(s: Utf8String): nat {
    s.characterLength
  }

  function Size(s: Utf8String): nat {
    Length(s)
  }

  function StringBegin(s: Utf8String): Result<Iterator, DecodeError> {
    Begin(0, s.bytes)
  }

  function StringEnd(s: Utf8String): Result<Iterator, DecodeError> {
    End(0, s.bytes)
  }

  /** `rbegin()` is built from `end()` and `rend()` from `begin()`. */
  function StringRBegin(s: Utf8String): Result<ReverseIterator, DecodeError> {
    ReverseBegin(0, s.bytes)
  }

  function StringREnd(s: Utf8String): Result<ReverseIterator, DecodeError> {
    ReverseEnd(0, s.bytes)
  }

  /** Construction succeeds exactly on buffers that are, after the byte
      order mark, shortest encodings of accepted code points, and then
      stores those bytes and their count. */
  lemma FromBytesDecodes(raw: seq<Byte>, cps: seq<nat>)
    ensures FromBytes(raw).Ok? <==> Forward(0, raw[ContentStart(raw)..]).Ok?
    ensures Forward(0, raw[ContentStart(raw)..]) == Ok(cps) ==>
              && AllAccepted(cps)
              && raw[ContentStart(raw)..] == EncodeAll(cps)
              && FromBytes(raw) == Ok(Utf8String(EncodeAll(cps), |cps|))
  {
    if Forward(0, raw[ContentStart(raw)..]) == Ok(cps) {
      ForwardIsEncodeAll(0, raw[ContentStart(raw)..], cps);
    }
  }

  /** A byte order mark followed by the encodings of accepted code points
      builds the string of exactly those code points. */
  lemma FromBomAndEncodings(cps: seq<nat>)
    requires AllAccepted(cps)
    ensures FromBytes(BOM + EncodeAll(cps)) == Ok(Utf8String(EncodeAll(cps), |cps|))
  {
    var raw := BOM + EncodeAll(cps);
    assert raw[..3] == BOM;
    assert raw[3..] == EncodeAll(cps);
    ForwardEncodeAll(0, cps);
  }

  /** A buffer holding only a byte order mark builds the empty string. */
  lemma BomOnlyIsEmpty()
    ensures FromBytes(BOM) == Ok(Default())
    ensures IsEmpty(Default()) && Length(Default()) == 0
  {
    FromBomAndEncodings([]);
    assert BOM + EncodeAll([]) == BOM;
  }

  /** A string is empty exactly when it holds no code points, and `size()`
      is its length. */
  lemma EmptyIffLengthZero(s: Utf8String)
    requires WellFormed(s)
    ensures IsEmpty(s) <==> Length(s) == 0
    ensures Size(s) == Length(s)
  {
    ForwardIsEncodeAll(0, s.bytes, CodePoints(s).value);
  }

  /** The default string is empty, has length 0, and `begin() == end()`. */
  lemma DefaultIsEmpty()
    ensures IsEmpty(Default()) && Length(Default()) == 0
    ensures StringBegin(Default()).Ok? && StringEnd(Default()).Ok?
    ensures Equal(StringBegin(Default()).value, StringEnd(Default()).value)
  {
  }

  /** Forward iteration yields as many code points as the stored length,
      and iteration from `rbegin()` to `rend()` yields them reversed. */
  lemma IterationBothWays(s: Utf8String)
    requires WellFormed(s)
    ensures |CodePoints(s).value| == Length(s)
    ensures StringRBegin(s).Ok? && StringREnd(s).Ok?
    ensures Backward(0, s.bytes) == Ok(Reversed(CodePoints(s).value))
  {
    BackwardReversesForward(0, s.bytes, CodePoints(s).value);
  }
}
