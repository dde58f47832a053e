/** ASCII decimal numerals: Rust's `{}` formatting of an unsigned integer and
    `str::parse::<usize>()`, over bytes. */
module Decimal {
  import opened Wrappers

  /** The largest `usize` on a 64-bit target. */
  const USIZE_MAX: nat := 0xFFFF_FFFF_FFFF_FFFF

  /** The error kinds `str::parse::<usize>()` can report. */
  datatype IntErrorKind = Empty | InvalidDigit | PosOverflow

  predicate IsDigit(b: bv8) {
    0x30 <= b <= 0x39
  }

  predicate AllDigits(s: seq<bv8>) {
    forall i :: 0 <= i < |s| ==> IsDigit(s[i])
  }

  function DigitValue(b: bv8): nat
    requires IsDigit(b)
  {
    (b - 0x30) as nat
  }

  function DigitByte(d: nat): (b: bv8)
    requires d < 10
    ensures IsDigit(b) && DigitValue(b) == d
  {
    (d + 0x30) as bv8
  }

  function Pow10(k: nat): (p: nat)
    ensures p >= 1
  {
    if k == 0 then 1 else 10 * Pow10(k - 1)
  }

  /** Reference reading of a digit string: the number it denotes when read left
      to right after the already accumulated value `acc`. */
  function ValueFrom(acc: nat, s: seq<bv8>): nat
    requires AllDigits(s)
    decreases |s|
  {
    if |s| == 0 then acc else ValueFrom(acc * 10 + DigitValue(s[0]), s[1..])
  }

  function Value(s: seq<bv8>): nat
    requires AllDigits(s)
  {
    ValueFrom(0, s)
  }

  lemma {:induction false} ValueFromAppend(acc: nat, s: seq<bv8>, d: bv8)
    requires AllDigits(s) && IsDigit(d)
    ensures AllDigits(s + [d])
    ensures ValueFrom(acc, s + [d]) == ValueFrom(acc, s) * 10 + DigitValue(d)
    decreases |s|
  {
    if |s| == 0 {
      assert [d][1..] == [];
    } else {
      assert (s + [d])[1..] == s[1..] + [d];
      ValueFromAppend(acc * 10 + DigitValue(s[0]), s[1..], d);
    }
  }

  lemma {:induction false} ValueFromAtLeast(acc: nat, s: seq<bv8>)
    requires AllDigits(s)
    ensures ValueFrom(acc, s) >= acc
    ensures ValueFrom(acc, s) >= acc * Pow10(|s|)
    decreases |s|
  {
    if |s| > 0 {
      var next := acc * 10 + DigitValue(s[0]);
      var p := Pow10(|s| - 1);
      ValueFromAtLeast(next, s[1..]);
      assert next * p >= acc * Pow10(|s|) by {
        ScaleAtLeast(acc, next, p);
      }
    }
  }

  /** A larger next accumulator outweighs the current one shifted a digit. */
  lemma ScaleAtLeast(acc: nat, next: nat, p: nat)
    requires next >= acc * 10
    ensures next * p >= acc * (10 * p)
  {
    assert next * p >= (acc * 10) * p;
  }

  /** `format!("{}", n)`: the shortest decimal numeral of `n`. */
  function Render(n: nat): (r: seq<bv8>)
    ensures 1 <= |r| && AllDigits(r) && Value(r) == n
    ensures |r| > 1 ==> r[0] != 0x30
    ensures n < Pow10(|r|)
    decreases n
  {
    if n < 10 then
      var r := [DigitByte(n)];
      assert r[1..] == [];
      assert Value(r) == ValueFrom(DigitValue(r[0]), []);
      r
    else
      var prefix := Render(n / 10);
      ValueFromAppend(0, prefix, DigitByte(n % 10));
      prefix + [DigitByte(n % 10)]
  }

  lemma {:induction false} RenderLength(n: nat, k: nat)
    requires n < Pow10(k)
    ensures |Render(n)| <= k || (n == 0 && k == 0)
    decreases n
  {
    if n >= 10 {
      assert Pow10(0) == 1 && Pow10(1) == 10;
      assert k >= 2;
      RenderLength(n / 10, k - 1);
    }
  }

  lemma {:induction false} Pow10Add(a: nat, b: nat)
    ensures Pow10(a + b) == Pow10(a) * Pow10(b)
    decreases a
  {
    if a > 0 {
      Pow10Add(a - 1, b);
    }
  }

  /** A `usize` renders in at most 20 digits. */
  lemma RenderUsizeLength(n: nat)
    requires n <= USIZE_MAX
    ensures |Render(n)| <= 20
  {
    assert Pow10(5) == 100000;
    Pow10Add(5, 5);
    Pow10Add(10, 10);
    RenderLength(n, 20);
  }

  /** The digit loop of `from_str_radix`: each byte must be a digit, and the
      accumulated value may never exceed `usize::MAX`. */
  function Accumulate(s: seq<bv8>, acc: nat): (r: Result<nat, IntErrorKind>)
    requires acc <= USIZE_MAX
    ensures r.Ok? <==> AllDigits(s) && ValueFrom(acc, s) <= USIZE_MAX
    ensures r.Ok? ==> r.value == ValueFrom(acc, s)
    ensures r.Err? ==> r.error != Empty
    decreases |s|
  {
    if |s| == 0 then
      Ok(acc)
    else if !IsDigit(s[0]) then
      Err(InvalidDigit)
    else
      var next := acc * 10 + DigitValue(s[0]);
      if next > USIZE_MAX then
        (if AllDigits(s) then ValueFromAtLeast(next, s[1..]); Err(PosOverflow) else Err(PosOverflow))
      else
        Accumulate(s[1..], next)
  }

  /** The digits `parse` reads: the input without one leading '+'. */
  function Magnitude(s: seq<bv8>): seq<bv8> {
    if |s| > 0 && s[0] == 0x2B then s[1..] else s
  }

  /** `str::parse::<usize>()` over the bytes of an ASCII string. */
  function ParseUsize(s: seq<bv8>): (r: Result<nat, IntErrorKind>)
    ensures |s| == 0 <==> r == Err(Empty)
    ensures r.Ok? <==>
              |Magnitude(s)| > 0 && AllDigits(Magnitude(s)) && Value(Magnitude(s)) <= USIZE_MAX
    ensures r.Ok? ==> r.value == Value(Magnitude(s))
  {
    if |s| == 0 then
      Err(Empty)
    else if |s| == 1 && (s[0] == 0x2B || s[0] == 0x2D) then
      Err(InvalidDigit)
    else
      Accumulate(Magnitude(s), 0)
  }

  /** Parsing a rendered `usize` gives it back. */
  lemma ParseRender(n: nat)
    requires n <= USIZE_MAX
    ensures ParseUsize(Render(n)) == Ok(n)
  {
    var r := Render(n);
    assert r[0] != 0x2B by {
      assert IsDigit(r[0]);
    }
  }
}
