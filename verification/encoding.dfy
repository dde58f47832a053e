/** `detectTextCodec`: guess a file's text encoding from a byte order mark,
    or from whether its bytes have the structure of UTF-8. The file's
    contents are a parameter: `None` stands for a file that could not be
    opened or mapped. */
module EncodingDetection {
  import opened Wrappers
  import opened Utf8Iterator
  import StdAlgorithm

  datatype Codec = Utf32BE | Utf32LE | Utf8 | Utf16BE | Utf16LE

  /** The names Qt knows the codecs by. */
  function CodecName(c: Codec): string {
    match c
    case Utf32BE => "UTF-32BE"
    case Utf32LE => "UTF-32LE"
    case Utf8 => "UTF-8"
    case Utf16BE => "UTF-16BE"
    case Utf16LE => "UTF-16LE"
  }

  /** `BOM_TYPES`, in the order they are tried: the UTF-32 marks come
      before the UTF-16 marks they start with. */
  const BOM_TYPES: seq<(Codec, seq<Byte>)> := [
    (Utf32BE, [0x00, 0x00, 0xFE, 0xFF]),
    (Utf32LE, [0xFF, 0xFE, 0x00, 0x00]),
    (Utf8, [0xEF, 0xBB, 0xBF]),
    (Utf16BE, [0xFE, 0xFF]),
    (Utf16LE, [0xFF, 0xFE])
  ]

  /** `bomPresent`: false when the data is shorter than the mark, otherwise
      a byte-by-byte comparison of the data's front. */
  function BomPresent(bom: seq<Byte>, data: seq<Byte>): (r: bool)
    ensures r <==> |bom| <= |data| && data[..|bom|] == bom
  {
    if |data| < |bom| then false
    else
      StdAlgorithm.EqualRangeIsPrefix(bom, data);
      StdAlgorithm.EqualRange(bom, data)
  }

  /** The loop over `BOM_TYPES` from entry `i` on: the index of the first
      mark present. */
  function FirstBom(data: seq<Byte>, i: nat): (r: Option<nat>)
    requires i <= |BOM_TYPES|
    ensures r.Some? ==> i <= r.value < |BOM_TYPES| && BomPresent(BOM_TYPES[r.value].1, data)
    ensures r.Some? ==> forall j :: i <= j < r.value ==> !BomPresent(BOM_TYPES[j].1, data)
    ensures r.None? ==> forall j :: i <= j < |BOM_TYPES| ==> !BomPresent(BOM_TYPES[j].1, data)
    decreases |BOM_TYPES| - i
  {
    if i == |BOM_TYPES| then None
    else if BomPresent(BOM_TYPES[i].1, data) then Some(i)
    else FirstBom(data, i + 1)
  }

  // ---------------------------------------------------------------------
  // The structural UTF-8 test

  /** The lead-byte tests of `isValidUTF8`, on the 8-bit word: the total
      length of the sequence the byte starts, or `None`. */
  function LeadClass(b: Byte): Option<nat> {
    var w := b as bv8;
    if w & 0x80 == 0x00 then Some(1)
    else if w & 0xE0 == 0xC0 then Some(2)
    else if w & 0xF0 == 0xE0 then Some(3)
    else if w & 0xF8 == 0xF0 then Some(4)
    else if w & 0xFC == 0xF8 then Some(5)
    else if w & 0xFE == 0xFC then Some(6)
    else None
  }

  /** `(b & 0xC0) != 0x80` over the continuation bytes `data[from..to]`:
      the first one that is not of the form 10xxxxxx fails the run. */
  predicate ContinuationRun(data: seq<Byte>, from: nat, to: nat)
    requires from <= to <= |data|
    decreases (to as int) - (from as int)
  {
    from == to || ((data[from] as bv8) & 0xC0 == 0x80 && ContinuationRun(data, from + 1, to))
  }

  /** `isValidUTF8CodePoint`, with `length` the total length of the
      sequence, as every call site passes it: where the next sequence
      starts, or `None`. */
  function CodePointEnd(data: seq<Byte>, pos: nat, length: nat): (r: Option<nat>)
    requires pos < |data|
    ensures r.Some? <==> 1 <= length && pos + length <= |data| && ContinuationRun(data, pos + 1, pos + length)
    ensures r.Some? ==> r.value == pos + length
  {
    if length == 0 then None
    else if pos + length > |data| then None
    else if ContinuationRun(data, pos + 1, pos + length) then Some(pos + length)
    else None
  }

  /** The structure `isValidUTF8` accepts from offset `p` on: each lead
      byte is followed by the continuation bytes its class asks for, all
      within the data. */
  predicate StructurallyValidFrom(data: seq<Byte>, p: nat)
    decreases |data| - p
  {
    if p >= |data| then true
    else
      match LeadClass(data[p])
      case None => false
      case Some(len) =>
        match CodePointEnd(data, p, len)
        case None => false
        case Some(q) => StructurallyValidFrom(data, q)
  }

  predicate StructurallyValid(data: seq<Byte>) {
    StructurallyValidFrom(data, 0)
  }

  /** `isValidUTF8`: the pointer loop over the data. */
  method IsValidUtf8(data: seq<Byte>) returns (ok: bool)
    ensures ok <==> StructurallyValid(data)
  {
    var pos: nat := 0;
    while pos < |data|
      invariant pos <= |data|
      invariant StructurallyValid(data) <==> StructurallyValidFrom(data, pos)
      decreases |data| - pos
    {
      var len := LeadClass(data[pos]);
      if len.None? {
        return false;
      }
      var next := CodePointEnd(data, pos, len.value);
      if next.None? {
        return false;
      }
      pos := next.value;
    }
    return true;
  }

  /** `detectTextCodec`: an unreadable file gives the null string, an
      empty one "UTF-8"; otherwise the first byte order mark decides, and
      without one the structural test. */
  function DetectTextCodec(file: Option<seq<Byte>>): Option<Codec> {
    match file
    case None => None
    case Some(data) =>
      if |data| == 0 then Some(Utf8)
      else
        match FirstBom(data, 0)
        case Some(i) => Some(BOM_TYPES[i].0)
        case None => if StructurallyValid(data) then Some(Utf8) else None
  }

  // ---------------------------------------------------------------------
  // Properties

  /** The mask tests on lead bytes classify exactly as the strict decoder's
      `getUtf8CharByteLength` does. */
  lemma LeadClassIsByteLength(b: Byte)
    ensures LeadClass(b) == ByteLength(b)
  {
    LeadMasks(b as bv8);
    WordRanges(b);
  }

  /** Range tests on the word are range tests on the byte's value. */
  lemma WordRanges(b: Byte)
    ensures (b as bv8) < 0x80 <==> b < 0x80
    ensures 0xC0 <= (b as bv8) < 0xE0 <==> 0xC0 <= b < 0xE0
    ensures 0xE0 <= (b as bv8) < 0xF0 <==> 0xE0 <= b < 0xF0
    ensures 0xF0 <= (b as bv8) < 0xF8 <==> 0xF0 <= b < 0xF8
    ensures 0xF8 <= (b as bv8) < 0xFC <==> 0xF8 <= b < 0xFC
    ensures 0xFC <= (b as bv8) < 0xFE <==> 0xFC <= b < 0xFE
  {
  }

  /** Each mask test is a range test on the word. */
  lemma LeadMasks(w: bv8)
    ensures (w & 0x80 == 0x00) <==> w < 0x80
    ensures (w & 0xE0 == 0xC0) <==> 0xC0 <= w < 0xE0
    ensures (w & 0xF0 == 0xE0) <==> 0xE0 <= w < 0xF0
    ensures (w & 0xF8 == 0xF0) <==> 0xF0 <= w < 0xF8
    ensures (w & 0xFC == 0xF8) <==> 0xF8 <= w < 0xFC
    ensures (w & 0xFE == 0xFC) <==> 0xFC <= w < 0xFE
  {
  }

  /** The continuation mask test reads as the byte range 0x80..0xBF. */
  lemma ContinuationMask(b: Byte)
    ensures ((b as bv8) & 0xC0 == 0x80) <==> IsContinuation(b)
  {
    ByteReadings(b as bv8);
  }

  /** A run passes exactly when every byte in it is a continuation byte. */
  lemma {:induction false} ContinuationRunMeans(data: seq<Byte>, from: nat, to: nat)
    requires from <= to <= |data|
    ensures ContinuationRun(data, from, to) <==> forall k :: from <= k < to ==> IsContinuation(data[k])
    decreases (to as int) - (from as int)
  {
    if from < to {
      ContinuationMask(data[from]);
      ContinuationRunMeans(data, from + 1, to);
    }
  }

  /** After a lead byte the strict decoder accepts, the rest of the span is
      a run of continuation bytes. */
  lemma DecodedSpanIsRun(data: seq<Byte>, p: nat)
    requires p < |data| && Decode(data, p).Ok?
    ensures var e := Decode(data, p).value.currentEnd;
            p < e <= |data| && ContinuationRun(data, p + 1, e)
  {
    var len := ByteLength(data[p]).value;
    var rest := data[p + 1..p + len];
    assert Continue(rest, LeadPayload(data[p])).Some?;
    ContinueFailsOnBadByte(rest, LeadPayload(data[p]));
    forall k | p + 1 <= k < p + len
      ensures IsContinuation(data[k])
    {
      assert data[k] == rest[k - p - 1];
    }
    ContinuationRunMeans(data, p + 1, p + len);
  }

  /** Whatever the strict decoder walks through passes the structural
      test. */
  lemma {:induction false} WalkableIsStructural(data: seq<Byte>, p: nat)
    requires p <= |data| && WalkFrom(data, p).Ok?
    ensures StructurallyValidFrom(data, p)
    decreases |data| - p
  {
    if p < |data| {
      var e := Decode(data, p).value.currentEnd;
      DecodedIsRun(data, p);
      WalkableIsStructural(data, e);
      StructuralStep(data, p, e);
    }
  }

  /** One accepted run followed by a structurally valid rest. */
  lemma StructuralStep(data: seq<Byte>, p: nat, e: nat)
    requires p < e <= |data| && LeadClass(data[p]) == Some(e - p)
    requires CodePointEnd(data, p, e - p) == Some(e) && StructurallyValidFrom(data, e)
    ensures StructurallyValidFrom(data, p)
  {
  }

  /** A decodable code point at `p` is a run the structural check accepts. */
  lemma DecodedIsRun(data: seq<Byte>, p: nat)
    requires p < |data| && Decode(data, p).Ok?
    ensures var e := Decode(data, p).value.currentEnd;
            && p < e <= |data| && LeadClass(data[p]) == Some(e - p)
            && CodePointEnd(data, p, e - p) == Some(e)
  {
    var e := Decode(data, p).value.currentEnd;
    assert p < e <= |data| && CodePointEnd(data, p, e - p) == Some(e) by {
      DecodedSpanIsRun(data, p);
    }
    assert ByteLength(data[p]) == Some(e - p) by {
      DecodedLength(data, p);
    }
    LeadClassIsByteLength(data[p]);
  }


  /** Every buffer `Utf8Iterator` can iterate over is structurally valid. */
  lemma StrictImpliesStructural(data: seq<Byte>)
    requires Forward(0, data).Ok?
    ensures StructurallyValid(data)
  {
    ForwardIsWalkFrom(0, data);
    WalkableIsStructural(data, 0);
  }

  /** The converse fails: the overlong NUL C0 80 is structurally valid but
      rejected by the strict decoder. */
  lemma OverlongPassesStructure()
    ensures StructurallyValid([0xC0, 0x80])
    ensures Decode([0xC0, 0x80], 0) == Err(Overlong)
  {
    var data: seq<Byte> := [0xC0, 0x80];
    assert StructurallyValid(data) by {
      LeadClassIsByteLength(0xC0);
      ContinuationRunMeans(data, 1, 2);
      assert StructurallyValidFrom(data, 2);
    }
    OverlongNulRejected();
  }

  /** An unreadable file gives the null string and an empty one "UTF-8". */
  lemma DetectUnreadableAndEmpty()
    ensures DetectTextCodec(None) == None
    ensures DetectTextCodec(Some([])) == Some(Utf8)
  {
  }

  /** The first byte order mark present, in `BOM_TYPES` order, names the
      codec. */
  lemma FirstBomDecides(data: seq<Byte>, i: nat)
    requires |data| > 0 && i < |BOM_TYPES| && BomPresent(BOM_TYPES[i].1, data)
    requires forall j :: 0 <= j < i ==> !BomPresent(BOM_TYPES[j].1, data)
    ensures DetectTextCodec(Some(data)) == Some(BOM_TYPES[i].0)
  {
  }

  /** FF FE 00 00 is UTF-32LE although it starts with the UTF-16LE mark;
      FF FE followed by anything else is UTF-16LE. */
  lemma Utf32LittleEndianFirst(rest: seq<Byte>)
    ensures DetectTextCodec(Some([0xFF, 0xFE, 0x00, 0x00] + rest)) == Some(Utf32LE)
    ensures DetectTextCodec(Some([0xFF, 0xFE, 0x41, 0x00] + rest)) == Some(Utf16LE)
  {
    var a: seq<Byte> := [0xFF, 0xFE, 0x00, 0x00] + rest;
    assert a[..4] == [0xFF, 0xFE, 0x00, 0x00];
    FirstBomDecides(a, 1);
    var b: seq<Byte> := [0xFF, 0xFE, 0x41, 0x00] + rest;
    assert b[..2] == [0xFF, 0xFE];
    FirstBomDecides(b, 4);
  }

  /** Without any byte order mark, a non-empty file is "UTF-8" exactly when
      it is structurally valid, and the null string otherwise. */
  lemma NoBomMeansStructure(data: seq<Byte>)
    requires |data| > 0
    requires forall j :: 0 <= j < |BOM_TYPES| ==> !BomPresent(BOM_TYPES[j].1, data)
    ensures DetectTextCodec(Some(data)) == (if StructurallyValid(data) then Some(Utf8) else None)
  {
  }

  /** Text the strict decoder accepts, without a byte order mark, is
      detected as UTF-8. */
  lemma DecodableTextIsUtf8(data: seq<Byte>)
    requires |data| > 0 && Forward(0, data).Ok?
    requires forall j :: 0 <= j < |BOM_TYPES| ==> !BomPresent(BOM_TYPES[j].1, data)
    ensures DetectTextCodec(Some(data)) == Some(Utf8)
  {
    StrictImpliesStructural(data);
  }
}
