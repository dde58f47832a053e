/** The settings deserializers: the text forms of booleans and colours read
    back from a stored string, byte arrays copied out, and string lists
    decoded from length-prefixed records. A stored value is a byte string. */
module Deserializers {
  import opened Wrappers
  import opened Decimal

  type Bytes = seq<bv8>

  /** Why a stored value could not be read: the message of each exception. */
  datatype DeserializeError =
    | BoolFailed      // "Deserializing boolean failed."
    | ColourFailed    // "Deserializing QColor failed."
    | LengthFailed    // "... Deserializing length string list failed."
    | PayloadFailed   // "Deserializing string list failed."

  // Booleans.

  /** "true" */
  const TrueText: Bytes := [0x74, 0x72, 0x75, 0x65]
  /** "false" */
  const FalseText: Bytes := [0x66, 0x61, 0x6C, 0x73, 0x65]

  /** The stored form of a boolean: its name. */
  function SerializeBool(b: bool): (s: Bytes)
    ensures |s| == if b then 4 else 5
  {
    if b then TrueText else FalseText
  }

  /** `Deserializer<bool>`: exactly the two names are accepted. */
  function DeserializeBool(s: Bytes): (r: Result<bool, DeserializeError>)
    ensures r.Ok? <==> s == TrueText || s == FalseText
    ensures r.Ok? ==> (r.value <==> s == TrueText)
    ensures r.Err? ==> r.error == BoolFailed
  {
    if s == TrueText then Ok(true)
    else if s == FalseText then Ok(false)
    else Err(BoolFailed)
  }

  /** Reading back a stored boolean gives it back, and an accepted text is
      the stored form of what it reads as. */
  lemma BoolRoundTrip(b: bool, s: Bytes)
    ensures DeserializeBool(SerializeBool(b)) == Ok(b)
    ensures DeserializeBool(s).Ok? ==> SerializeBool(DeserializeBool(s).value) == s
  {
    assert TrueText != FalseText by {
      assert |TrueText| != |FalseText|;
    }
  }

  // Byte arrays.

  /** `Deserializer<QByteArray>`: the stored bytes themselves. */
  function DeserializeByteArray(s: Bytes): (r: Bytes)
    ensures |r| == |s| && forall i | 0 <= i < |s| :: r[i] == s[i]
  {
    s
  }

  // Colours.

  /** The smallest and largest values of a C++ `int`. */
  const INT_MIN: int := -0x8000_0000
  const INT_MAX: int := 0x7FFF_FFFF

  /** The four `int`s handed to the `QColor` constructor. */
  datatype Colour = Rgba(red: int, green: int, blue: int, alpha: int)

  predicate InIntRange(v: int) {
    INT_MIN <= v <= INT_MAX
  }

  predicate ChannelsInRange(c: Colour) {
    InIntRange(c.red) && InIntRange(c.green) && InIntRange(c.blue) && InIntRange(c.alpha)
  }

  /** The white-space bytes of the classic locale: space, tab, line feed,
      vertical tab, form feed and carriage return. */
  predicate IsSpace(b: bv8) {
    b == 0x20 || 0x09 <= b <= 0x0D
  }

  const Plus: bv8 := 0x2B
  const Minus: bv8 := 0x2D

  /** One successful `>> int`: the value read and the input left after it. */
  datatype Extracted = Extracted(value: int, rest: Bytes)

  /** The bytes of a number after its optional sign. */
  function Unsigned(t: Bytes): Bytes {
    if |t| > 0 && (t[0] == Plus || t[0] == Minus) then t[1..] else t
  }

  /** A magnitude with its sign applied. */
  function Signed(m: nat, negative: bool): int {
    if negative then -(m as int) else m
  }

  /** The digits `u` starts with, accumulated one at a time onto `acc` as
      the stream's number parser does, and the input after them. */
  function Scan(u: Bytes, acc: nat): (r: Extracted)
    ensures r.value >= 0 && |r.rest| <= |u|
    ensures |u| > 0 && IsDigit(u[0]) ==> |r.rest| < |u|
    decreases |u|
  {
    if |u| > 0 && IsDigit(u[0]) then Scan(u[1..], acc * 10 + DigitValue(u[0])) else Extracted(acc, u)
  }

  /** What the scan leaves is the tail of its input and does not start with
      a digit; when it read a digit, the byte before the tail is one. */
  lemma {:induction false} ScanSuffix(u: Bytes, acc: nat)
    ensures var rest := Scan(u, acc).rest;
      && rest == u[|u| - |rest|..]
      && (rest != [] ==> !IsDigit(rest[0]))
      && (|u| > 0 && IsDigit(u[0]) ==> IsDigit(u[|u| - |rest| - 1]))
    decreases |u|
  {
    if |u| > 0 && IsDigit(u[0]) {
      var rest := Scan(u, acc).rest;
      ScanSuffix(u[1..], acc * 10 + DigitValue(u[0]));
      if |rest| < |u| - 1 {
        assert u[1..][|u| - 1 - |rest| - 1] == u[|u| - |rest| - 1];
      }
    }
  }

  /** Scanning a run of digits reads them as a numeral. */
  lemma {:induction false} ScanDigits(d: Bytes, rest: Bytes, acc: nat)
    requires AllDigits(d)
    requires rest == [] || !IsDigit(rest[0])
    ensures Scan(d + rest, acc) == Extracted(ValueFrom(acc, d), rest)
    decreases |d|
  {
    if |d| == 0 {
      assert d + rest == rest;
    } else {
      assert (d + rest)[0] == d[0];
      assert (d + rest)[1..] == d[1..] + rest;
      ScanDigits(d[1..], rest, acc * 10 + DigitValue(d[0]));
    }
  }

  /** The digits `u` starts with, negated when `negative`: at least one
      digit is needed, and a value outside the range of `int` fails. */
  function ReadDigits(u: Bytes, negative: bool): (r: Option<Extracted>)
    ensures r.Some? ==> InIntRange(r.value.value) && |r.value.rest| < |u|
  {
    if |u| == 0 || !IsDigit(u[0]) then None
    else
      var e := Scan(u, 0);
      var v := Signed(e.value, negative);
      if !InIntRange(v) then None
      else Some(Extracted(v, e.rest))
  }

  /** `iss >> tmp` on the rest of the input: leading white space is skipped,
      then an optional sign and at least one decimal digit are read, as many
      digits as follow; a value outside the range of `int` fails. */
  function ExtractInt(s: Bytes): (r: Option<Extracted>)
    ensures r.Some? ==> InIntRange(r.value.value) && |r.value.rest| < |s|
    decreases |s|
  {
    if |s| > 0 && IsSpace(s[0]) then ExtractInt(s[1..])
    else ReadDigits(Unsigned(s), |s| > 0 && s[0] == Minus)
  }

  /** What an extraction leaves is the tail of its input; the byte just
      before it is a digit, and it does not start with one. */
  lemma {:induction false} ExtractSuffix(s: Bytes)
    requires ExtractInt(s).Some?
    ensures var rest := ExtractInt(s).value.rest;
      && rest == s[|s| - |rest|..]
      && IsDigit(s[|s| - |rest| - 1])
      && (rest != [] ==> !IsDigit(rest[0]))
    decreases |s|
  {
    if |s| > 0 && IsSpace(s[0]) {
      ExtractSuffix(s[1..]);
      var rest := ExtractInt(s).value.rest;
      assert s[1..][|s| - 1 - |rest| - 1] == s[|s| - |rest| - 1];
    } else {
      var u := Unsigned(s);
      ScanSuffix(u, 0);
      assert u == s[|s| - |u|..];
    }
  }

  /** The numbers read so far and the input left after them. */
  datatype Ints = Ints(values: seq<int>, rest: Bytes)

  /** The reading loop: up to `count` further numbers are extracted one
      after the other, and the first failed extraction ends the loop. */
  function ReadInts(s: Bytes, count: nat): (r: Option<Ints>)
    ensures r.Some? ==> |r.value.values| == count
    ensures r.Some? ==> forall k | 0 <= k < count :: InIntRange(r.value.values[k])
    ensures r.Some? ==> |r.value.rest| <= |s|
    ensures r.Some? && count > 0 ==> |r.value.rest| < |s|
    decreases count
  {
    if count == 0 then Some(Ints([], s))
    else
      match ExtractInt(s)
      case None => None
      case Some(e) =>
        match ReadInts(e.rest, count - 1)
        case None => None
        case Some(t) =>
          Some(Ints([e.value] + t.values, t.rest))
  }

  /** The four channels in constructor order. */
  function Channels(c: Colour): seq<int> {
    [c.red, c.green, c.blue, c.alpha]
  }

  /** `Deserializer<QColor>`: four numbers are read one after the other; the
      input must be used up by the fourth, with nothing at all after it. */
  function DeserializeColour(s: Bytes): (r: Result<Colour, DeserializeError>)
    ensures r.Ok? ==> ChannelsInRange(r.value)
    ensures r.Ok? <==> ReadInts(s, 4).Some? && ReadInts(s, 4).value.rest == []
    ensures r.Ok? ==> Channels(r.value) == ReadInts(s, 4).value.values
    ensures r.Err? ==> r.error == ColourFailed
  {
    match ReadInts(s, 4)
    case None => Err(ColourFailed)
    case Some(read) =>
      if read.rest != [] then Err(ColourFailed)
      else
        var v := read.values;
        assert InIntRange(v[0]) && InIntRange(v[1]) && InIntRange(v[2]) && InIntRange(v[3]);
        Ok(Rgba(v[0], v[1], v[2], v[3]))
  }

  /** After at least one number, the byte before what is left is a digit. */
  lemma {:induction false} ReadIntsEndsAtDigit(s: Bytes, count: nat)
    requires count > 0 && ReadInts(s, count).Some?
    ensures var rest := ReadInts(s, count).value.rest;
      IsDigit(s[|s| - |rest| - 1])
    decreases count
  {
    var e := ExtractInt(s).value;
    ExtractSuffix(s);
    if count > 1 {
      var t := ReadInts(e.rest, count - 1).value;
      ReadIntsEndsAtDigit(e.rest, count - 1);
      assert e.rest[|e.rest| - |t.rest| - 1] == s[|s| - |t.rest| - 1];
    }
  }

  /** An accepted colour text ends in a digit: nothing, not even white
      space, may follow the fourth number. */
  lemma ColourConsumesInput(s: Bytes)
    ensures DeserializeColour(s).Ok? ==> |s| > 0 && IsDigit(s[|s| - 1])
  {
    if DeserializeColour(s).Ok? {
      ReadIntsEndsAtDigit(s, 4);
    }
  }

  /** The decimal text of an `int`, with a minus sign when negative. */
  function IntText(v: int): (t: Bytes)
    ensures |t| > 0 && IsDigit(t[|t| - 1])
  {
    if v < 0 then [Minus] + Render(-v) else Render(v)
  }

  /** A single space. */
  const Separator: Bytes := [0x20]

  /** Numbers written one after another, separated by single spaces. */
  function Fields(vs: seq<int>): (t: Bytes)
    requires |vs| > 0
    decreases |vs|
  {
    if |vs| == 1 then IntText(vs[0]) else IntText(vs[0]) + (Separator + Fields(vs[1..]))
  }

  /** The stored form of a colour: its four channels separated by spaces. */
  function ColourText(c: Colour): Bytes {
    Fields(Channels(c))
  }

  /** A separator, then the text of `v`, then anything that does not start
      with a digit: one extraction reads `v` and leaves exactly that. */
  lemma ExtractIntText(w: Bytes, v: int, rest: Bytes)
    requires InIntRange(v)
    requires forall k | 0 <= k < |w| :: IsSpace(w[k])
    requires rest == [] || !IsDigit(rest[0])
    ensures ExtractInt(w + (IntText(v) + rest)) == Some(Extracted(v, rest))
  {
    ExtractAfterSpaces(w, IntText(v) + rest);
    ExtractText(v, rest);
  }

  /** Leading white space does not change what is extracted. */
  lemma {:induction false} ExtractAfterSpaces(w: Bytes, x: Bytes)
    requires forall k | 0 <= k < |w| :: IsSpace(w[k])
    ensures ExtractInt(w + x) == ExtractInt(x)
    decreases |w|
  {
    if |w| == 0 {
      assert w + x == x;
    } else {
      assert (w + x)[0] == w[0];
      assert (w + x)[1..] == w[1..] + x;
      ExtractAfterSpaces(w[1..], x);
    }
  }

  /** The text of `v`, then anything that does not start with a digit. */
  lemma ExtractText(v: int, rest: Bytes)
    requires InIntRange(v)
    requires rest == [] || !IsDigit(rest[0])
    ensures ExtractInt(IntText(v) + rest) == Some(Extracted(v, rest))
  {
    var t := IntText(v) + rest;
    var m: nat := if v < 0 then -v else v;
    assert !IsSpace(t[0]) by {
      assert t[0] == IntText(v)[0];
    }
    UnsignedText(v, rest);
    ReadRendered(m, v < 0, rest);
  }

  /** The sign of the text of `v` is a leading minus exactly when `v` is
      negative, and after it come the digits of the magnitude. */
  lemma UnsignedText(v: int, rest: Bytes)
    ensures var t := IntText(v) + rest;
      && Unsigned(t) == Render(if v < 0 then -v else v) + rest
      && (t[0] == Minus <==> v < 0)
  {
    if v < 0 {
      NegativeText(v, rest);
    } else {
      NonNegativeText(v, rest);
    }
  }

  lemma NegativeText(v: int, rest: Bytes)
    requires v < 0
    ensures var t := IntText(v) + rest;
      Unsigned(t) == Render(-v) + rest && t[0] == Minus
  {
    var x := Render(-v) + rest;
    assert IntText(v) + rest == [Minus] + x;
    assert ([Minus] + x)[1..] == x;
  }

  lemma NonNegativeText(v: int, rest: Bytes)
    requires v >= 0
    ensures var t := IntText(v) + rest;
      Unsigned(t) == Render(v) + rest && t[0] != Minus
  {
    var t := IntText(v) + rest;
    assert t[0] == Render(v)[0];
  }

  /** The digits of `m`, then anything that does not start with a digit. */
  lemma ReadRendered(m: nat, negative: bool, rest: Bytes)
    requires InIntRange(Signed(m, negative))
    requires rest == [] || !IsDigit(rest[0])
    ensures ReadDigits(Render(m) + rest, negative) == Some(Extracted(Signed(m, negative), rest))
  {
    var d := Render(m);
    ScanDigits(d, rest, 0);
    assert (d + rest)[0] == d[0];
  }

  /** White space, then numbers separated by spaces, then anything that
      does not start with a digit: the loop reads the numbers back and
      leaves exactly that. */
  lemma {:induction false} ReadFields(w: Bytes, vs: seq<int>, rest: Bytes)
    requires |vs| > 0 && forall k | 0 <= k < |vs| :: InIntRange(vs[k])
    requires forall k | 0 <= k < |w| :: IsSpace(w[k])
    requires rest == [] || !IsDigit(rest[0])
    ensures ReadInts(w + Fields(vs) + rest, |vs|) == Some(Ints(vs, rest))
    decreases |vs|
  {
    if |vs| == 1 {
      ReadLastField(w, vs, rest);
    } else {
      ReadFields(Separator, vs[1..], rest);
      ReadNextField(w, vs, rest);
    }
  }

  /** The last number of the text. */
  lemma ReadLastField(w: Bytes, vs: seq<int>, rest: Bytes)
    requires |vs| == 1 && InIntRange(vs[0])
    requires forall k | 0 <= k < |w| :: IsSpace(w[k])
    requires rest == [] || !IsDigit(rest[0])
    ensures ReadInts(w + Fields(vs) + rest, |vs|) == Some(Ints(vs, rest))
  {
    FieldsSplit(w, vs, rest);
    ExtractIntText(w, vs[0], rest);
    ReadNone(rest);
    ReadIntsStep(w + Fields(vs) + rest, |vs|, 0, vs[0], rest, Ints([], rest));
    OneValue(vs);
  }

  lemma OneValue(vs: seq<int>)
    requires |vs| == 1
    ensures [vs[0]] + [] == vs
  {}

  /** A number followed by more: one extraction, then the rest of the loop. */
  lemma ReadNextField(w: Bytes, vs: seq<int>, rest: Bytes)
    requires |vs| > 1 && InIntRange(vs[0])
    requires forall k | 0 <= k < |w| :: IsSpace(w[k])
    requires ReadInts(Separator + Fields(vs[1..]) + rest, |vs[1..]|) == Some(Ints(vs[1..], rest))
    ensures ReadInts(w + Fields(vs) + rest, |vs|) == Some(Ints(vs, rest))
  {
    var tail := Separator + Fields(vs[1..]) + rest;
    FieldsSplit(w, vs, rest);
    assert tail[0] == 0x20;
    ExtractIntText(w, vs[0], tail);
    ReadIntsStep(w + Fields(vs) + rest, |vs|, |vs[1..]|, vs[0], tail, Ints(vs[1..], rest));
    assert [vs[0]] + vs[1..] == vs;
  }

  lemma ReadNone(s: Bytes)
    ensures ReadInts(s, 0) == Some(Ints([], s))
  {}

  /** The text of the first number, then the text after it. */
  lemma FieldsSplit(w: Bytes, vs: seq<int>, rest: Bytes)
    requires |vs| > 0
    ensures |vs| == 1 ==> w + Fields(vs) + rest == w + (IntText(vs[0]) + rest)
    ensures |vs| > 1 ==> w + Fields(vs) + rest == w + (IntText(vs[0]) + (Separator + Fields(vs[1..]) + rest))
  {
    var a := IntText(vs[0]);
    if |vs| == 1 {
      Assoc(w, a, rest);
    } else {
      var b := Separator + Fields(vs[1..]);
      Assoc(w, a + b, rest);
      Assoc(a, b, rest);
    }
  }

  lemma Assoc(a: Bytes, b: Bytes, c: Bytes)
    ensures a + b + c == a + (b + c)
  {}

  /** One turn of the reading loop. */
  lemma ReadIntsStep(s: Bytes, count: nat, k: nat, v: int, tail: Bytes, more: Ints)
    requires count == k + 1
    requires ExtractInt(s) == Some(Extracted(v, tail))
    requires ReadInts(tail, k) == Some(more)
    ensures ReadInts(s, count) == Some(Ints([v] + more.values, more.rest))
  {}

  /** Reading back a stored colour gives it back. */
  lemma ColourRoundTrip(c: Colour)
    requires ChannelsInRange(c)
    ensures DeserializeColour(ColourText(c)) == Ok(c)
  {
    var vs := Channels(c);
    ReadFields([], vs, []);
    assert [] + Fields(vs) + [] == ColourText(c);
  }

  /** A step of the reading loop that fails on the next number. */
  lemma ReadIntsStepFails(s: Bytes, count: nat, k: nat, v: int, tail: Bytes)
    requires count == k + 1
    requires ExtractInt(s) == Some(Extracted(v, tail))
    requires ReadInts(tail, k) == None
    ensures ReadInts(s, count) == None
  {}

  /** Nothing is left to read. */
  lemma ReadFromEmpty(k: nat)
    requires k > 0
    ensures ReadInts([], k) == None
  {}

  /** Asking for more numbers than the text holds fails. */
  lemma {:induction false} ReadTooFew(w: Bytes, vs: seq<int>, count: nat)
    requires |vs| > 0 && forall k | 0 <= k < |vs| :: InIntRange(vs[k])
    requires forall k | 0 <= k < |w| :: IsSpace(w[k])
    requires count > |vs|
    ensures ReadInts(w + Fields(vs) + [], count) == None
    decreases |vs|
  {
    if |vs| == 1 {
      ReadPastLast(w, vs, count);
    } else {
      ReadTooFew(Separator, vs[1..], count - 1);
      ReadPastNext(w, vs, count);
    }
  }

  /** The loop wants another number after the last one. */
  lemma ReadPastLast(w: Bytes, vs: seq<int>, count: nat)
    requires |vs| == 1 && InIntRange(vs[0])
    requires forall k | 0 <= k < |w| :: IsSpace(w[k])
    requires count > 1
    ensures ReadInts(w + Fields(vs) + [], count) == None
  {
    FieldsSplit(w, vs, []);
    ExtractIntText(w, vs[0], []);
    ReadFromEmpty(count - 1);
    ReadIntsStepFails(w + Fields(vs) + [], count, count - 1, vs[0], []);
  }

  /** A failure later in the loop fails the whole loop. */
  lemma ReadPastNext(w: Bytes, vs: seq<int>, count: nat)
    requires |vs| > 1 && InIntRange(vs[0])
    requires forall k | 0 <= k < |w| :: IsSpace(w[k])
    requires count > 1
    requires ReadInts(Separator + Fields(vs[1..]) + [], count - 1) == None
    ensures ReadInts(w + Fields(vs) + [], count) == None
  {
    var tail := Separator + Fields(vs[1..]) + [];
    FieldsSplit(w, vs, []);
    assert tail[0] == 0x20;
    ExtractIntText(w, vs[0], tail);
    ReadIntsStepFails(w + Fields(vs) + [], count, count - 1, vs[0], tail);
  }

  /** Fewer than four numbers, or none at all, are refused. */
  lemma ColourNeedsFour(vs: seq<int>)
    requires 0 < |vs| < 4 && forall k | 0 <= k < |vs| :: InIntRange(vs[k])
    ensures DeserializeColour(Fields(vs)) == Err(ColourFailed)
    ensures DeserializeColour([]) == Err(ColourFailed)
  {
    ReadTooFew([], vs, 4);
    assert [] + Fields(vs) + [] == Fields(vs);
  }

  /** A fifth number after a stored colour is refused. */
  lemma ColourRefusesFifth(c: Colour, v: int)
    requires ChannelsInRange(c) && InIntRange(v)
    ensures DeserializeColour(ColourText(c) + (Separator + IntText(v))) == Err(ColourFailed)
  {
    var vs := Channels(c);
    var rest := Separator + IntText(v);
    assert rest[0] == 0x20;
    ReadFields([], vs, rest);
    NoPrefix(Fields(vs), rest);
    RefusedWithLeftover(ColourText(c) + rest, vs, rest);
  }

  lemma NoPrefix(x: Bytes, y: Bytes)
    ensures [] + x + y == x + y
  {}

  /** Four numbers read, but input left over. */
  lemma RefusedWithLeftover(s: Bytes, vs: seq<int>, rest: Bytes)
    requires |vs| == 4 && ReadInts(s, |vs|) == Some(Ints(vs, rest)) && rest != []
    ensures DeserializeColour(s) == Err(ColourFailed)
  {}

  /** Anything but a digit after an accepted text, white space included,
      makes it refused. */
  lemma ColourRefusesTrailing(s: Bytes, b: bv8)
    requires !IsDigit(b)
    ensures DeserializeColour(s + [b]).Err?
  {
    ColourConsumesInput(s + [b]);
    assert (s + [b])[|s|] == b;
  }
}
