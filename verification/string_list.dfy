/** The string-list deserializer: a stored list is a run of records, each an
    8-byte length in the machine's (little-endian) byte order followed by
    that many bytes of payload. */
module StringLists {
  import opened Wrappers
  import opened Deserializers

  /** One more than the largest `uint64_t`. */
  const U64_LIMIT: nat := 0x1_0000_0000_0000_0000

  /** The width of a record's length field. */
  const LengthWidth: nat := 8

  /** What one `istream::read` of `n` bytes delivers: the bytes it got, and
      whether it ran into the end of the input first. */
  datatype StreamRead = StreamRead(data: Bytes, eof: bool)

  function Read(s: Bytes, n: nat): (r: StreamRead)
    ensures r.eof <==> |s| < n
    ensures r.data <= s
    ensures r.eof ==> r.data == s
    ensures !r.eof ==> |r.data| == n
  {
    if |s| < n then StreamRead(s, true) else StreamRead(s[..n], false)
  }

  /** The value of a byte. */
  function ByteValue(b: bv8): (v: nat)
    ensures v < 256
  {
    b as nat
  }

  /** The byte of a value below 256, counted up from zero. */
  function ByteOf(v: nat): bv8
    requires v < 256
  {
    if v == 0 then 0 else ByteOf(v - 1) + 1
  }

  /** Below the top, adding one to a byte adds one to its value. */
  lemma StepUp(x: bv8)
    requires ByteValue(x) < 255
    ensures ByteValue(x + 1) == ByteValue(x) + 1
  {}

  lemma {:induction false} ValueOfByte(v: nat)
    requires v < 256
    ensures ByteValue(ByteOf(v)) == v
    decreases v
  {
    if v > 0 {
      ValueOfByte(v - 1);
      StepUp(ByteOf(v - 1));
    }
  }

  /** Bytes of the same value are the same byte. */
  lemma SameValue(a: bv8, b: bv8)
    requires ByteValue(a) == ByteValue(b)
    ensures a == b
  {}

  lemma ByteOfValue(b: bv8)
    ensures ByteOf(ByteValue(b)) == b
  {
    ValueOfByte(ByteValue(b));
    SameValue(ByteOf(ByteValue(b)), b);
  }

  /** The number whose little-endian bytes are `b`. */
  function Le(b: Bytes): nat
    decreases |b|
  {
    if |b| == 0 then 0 else ByteValue(b[0]) + 256 * Le(b[1..])
  }

  function Pow256(k: nat): (p: nat)
    ensures p >= 1
  {
    if k == 0 then 1 else 256 * Pow256(k - 1)
  }

  /** The low `k` bytes of `n`, least significant first. */
  function LeBytes(n: nat, k: nat): (b: Bytes)
    ensures |b| == k
    decreases k
  {
    if k == 0 then [] else [ByteOf(n % 256)] + LeBytes(n / 256, k - 1)
  }

  /** `k` bytes hold any number below 256 to the `k`, and give it back. */
  lemma {:induction false} LeOfLeBytes(n: nat, k: nat)
    requires n < Pow256(k)
    ensures Le(LeBytes(n, k)) == n
    decreases k
  {
    if k > 0 {
      var b := LeBytes(n, k);
      LeOfLeBytes(n / 256, k - 1);
      ValueOfByte(n % 256);
      assert b[1..] == LeBytes(n / 256, k - 1);
    }
  }

  /** Bytes read as a number and written back in as many bytes are the same
      bytes. */
  lemma {:induction false} LeBytesOfLe(b: Bytes)
    ensures LeBytes(Le(b), |b|) == b
    decreases |b|
  {
    if |b| > 0 {
      var n := Le(b);
      var lo := ByteValue(b[0]);
      LowByte(lo, Le(b[1..]));
      LeBytesOfLe(b[1..]);
      ByteOfValue(b[0]);
      assert LeBytes(n, |b|) == [b[0]] + b[1..];
    }
  }

  lemma LowByte(lo: nat, hi: nat)
    requires lo < 256
    ensures (lo + 256 * hi) % 256 == lo && (lo + 256 * hi) / 256 == hi
  {}

  /** `Deserializer<std::vector<std::string>>`: while the stream is good,
      read an 8-byte length and stop if that runs into the end of the input;
      then read that many bytes, failing if fewer are left, and append
      them. */
  function DeserializeStrings(s: Bytes): (r: Result<seq<Bytes>, DeserializeError>)
    ensures |s| < LengthWidth ==> r == Ok([])
    ensures r != Err(LengthFailed)
    ensures r.Err? ==> r.error == PayloadFailed
    decreases |s|
  {
    var head := Read(s, LengthWidth);
    if head.eof then Ok([])
    else if |head.data| != LengthWidth then Err(LengthFailed)
    else
      var l := Le(head.data);
      var body := s[LengthWidth..];
      var payload := Read(body, l);
      if |payload.data| != l then Err(PayloadFailed)
      else
        match DeserializeStrings(body[l..])
        case Err(e) => Err(e)
        case Ok(more) => Ok([payload.data] + more)
  }

  /** Every string's length fits the length field. */
  predicate Encodable(v: seq<Bytes>) {
    forall i | 0 <= i < |v| :: |v[i]| < U64_LIMIT
  }

  /** The stored form of a string list: each string after its length. */
  function SerializeStrings(v: seq<Bytes>): Bytes
    requires Encodable(v)
    decreases |v|
  {
    if |v| == 0 then [] else LeBytes(|v[0]|, LengthWidth) + v[0] + SerializeStrings(v[1..])
  }

  /** One record, then anything: the record's payload is read, and the rest
      of the list is read from what follows it. */
  lemma RecordStep(x: Bytes, tail: Bytes)
    requires |x| < U64_LIMIT
    ensures var s := LeBytes(|x|, LengthWidth) + (x + tail);
      DeserializeStrings(s) ==
        match DeserializeStrings(tail)
        case Err(e) => Err(e)
        case Ok(more) => Ok([x] + more)
  {
    var h := LeBytes(|x|, LengthWidth);
    var s := h + (x + tail);
    assert Pow256(LengthWidth) == U64_LIMIT;
    LeOfLeBytes(|x|, LengthWidth);
    assert s[..LengthWidth] == h;
    assert s[LengthWidth..] == x + tail;
    assert (x + tail)[..|x|] == x;
    assert (x + tail)[|x|..] == tail;
  }

  /** Reading back a stored list gives it back, whatever fragment shorter
      than a length field follows it. */
  lemma {:induction false} StringsRoundTrip(v: seq<Bytes>, f: Bytes)
    requires Encodable(v) && |f| < LengthWidth
    ensures DeserializeStrings(SerializeStrings(v) + f) == Ok(v)
    decreases |v|
  {
    if |v| == 0 {
      assert SerializeStrings(v) + f == f;
    } else {
      var x := v[0];
      var more := v[1..];
      assert v == [x] + more;
      StringsRoundTrip(more, f);
      SerializeCons(x, more, f);
      RecordStep(x, SerializeStrings(more) + f);
    }
  }

  /** Everything an accepted input holds is accounted for: it is the stored
      form of the list read from it, followed by fewer bytes than a length
      field. */
  lemma {:induction false} StringsAccountForInput(s: Bytes)
    ensures var r := DeserializeStrings(s);
      r.Ok? ==>
        Encodable(r.value) && exists f: Bytes | |f| < LengthWidth :: s == SerializeStrings(r.value) + f
    decreases |s|
  {
    if DeserializeStrings(s).Ok? {
      if |s| < LengthWidth {
        assert s == SerializeStrings([]) + s;
      } else {
        AcceptedRecordFits(s);
        var l := Le(s[..LengthWidth]);
        RecordSplit(s);
        var x := s[LengthWidth..LengthWidth + l];
        var tail := s[LengthWidth + l..];
        RecordStep(x, tail);
        StringsAccountForInput(tail);
        var more := DeserializeStrings(tail).value;
        var f: Bytes :| |f| < LengthWidth && tail == SerializeStrings(more) + f;
        SerializeCons(x, more, f);
      }
    }
  }

  /** An accepted input holds the whole payload its first length promises. */
  lemma AcceptedRecordFits(s: Bytes)
    requires |s| >= LengthWidth && DeserializeStrings(s).Ok?
    ensures Le(s[..LengthWidth]) <= |s| - LengthWidth
  {}

  /** An input holding a whole first record is that record's length field,
      its payload and what follows. */
  lemma RecordSplit(s: Bytes)
    requires |s| >= LengthWidth && Le(s[..LengthWidth]) <= |s| - LengthWidth
    ensures var l := Le(s[..LengthWidth]);
      && l < U64_LIMIT
      && s == LeBytes(l, LengthWidth) + (s[LengthWidth..LengthWidth + l] + s[LengthWidth + l..])
  {
    var h := s[..LengthWidth];
    var l := Le(h);
    LeBound(h);
    assert Pow256(LengthWidth) == U64_LIMIT;
    LeBytesOfLe(h);
    assert s == h + (s[LengthWidth..LengthWidth + l] + s[LengthWidth + l..]);
  }

  /** The stored form of a list with a first string. */
  lemma SerializeCons(x: Bytes, more: seq<Bytes>, f: Bytes)
    requires |x| < U64_LIMIT && Encodable(more)
    ensures Encodable([x] + more)
    ensures SerializeStrings([x] + more) + f == LeBytes(|x|, LengthWidth) + (x + (SerializeStrings(more) + f))
  {
    var v := [x] + more;
    assert v[0] == x && v[1..] == more;
  }

  /** A little-endian number is below 256 to the power of its width. */
  lemma {:induction false} LeBound(b: Bytes)
    ensures Le(b) < Pow256(|b|)
    decreases |b|
  {
    if |b| > 0 {
      LeBound(b[1..]);
    }
  }

  /** A length field promising more bytes than follow fails the whole
      list. */
  lemma ShortPayload(n: nat, x: Bytes)
    requires |x| < n < U64_LIMIT
    ensures DeserializeStrings(LeBytes(n, LengthWidth) + x) == Err(PayloadFailed)
  {
    var s := LeBytes(n, LengthWidth) + x;
    assert Pow256(LengthWidth) == U64_LIMIT;
    LeOfLeBytes(n, LengthWidth);
    assert s[..LengthWidth] == LeBytes(n, LengthWidth);
    assert s[LengthWidth..] == x;
  }
}
