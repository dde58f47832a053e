/** The few standard-library algorithms the string code leans on, stated
    over sequences. */
module StdAlgorithm {

  /** `std::equal(first, first + |a|, other)`: compare `a` element by
      element with the front of `b`. */
  function EqualRange<T(==)>(a: seq<T>, b: seq<T>): bool
    requires |a| <= |b|
    decreases |a|
  {
    |a| == 0 || (a[0] == b[0] && EqualRange(a[1..], b[1..]))
  }

  /** The range comparison holds exactly when `a` is a prefix of `b`. */
  lemma {:induction false} EqualRangeIsPrefix<T>(a: seq<T>, b: seq<T>)
    requires |a| <= |b|
    ensures EqualRange(a, b) <==> a == b[..|a|]
    decreases |a|
  {
    if |a| > 0 {
      EqualRangeIsPrefix(a[1..], b[1..]);
      assert b[1..][..|a| - 1] == b[..|a|][1..];
      if a[0] == b[0] && a[1..] == b[1..][..|a| - 1] {
        assert a == [a[0]] + a[1..];
        assert b[..|a|] == [b[0]] + b[..|a|][1..];
      }
    }
  }
}
