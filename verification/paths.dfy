/** The common parent path of a list of paths: the longest run of leading
    characters of the last path that every path starts with, and the
    shortest-length helper the search starts from. */
module Paths {
  type Path = seq<char>

  /** The largest `std::size_t` on a 64-bit target. */
  const SIZE_MAX: nat := 0xFFFF_FFFF_FFFF_FFFF

  function Last(paths: seq<Path>): Path
    requires |paths| > 0
  {
    paths[|paths| - 1]
  }

  /** `n` does not exceed the length of any path. */
  predicate FitsAll(paths: seq<Path>, n: nat) {
    forall i | 0 <= i < |paths| :: n <= |paths[i]|
  }

  /** No path is longer than `SIZE_MAX`, as no `std::string` is. */
  predicate Bounded(paths: seq<Path>) {
    forall i | 0 <= i < |paths| :: |paths[i]| <= SIZE_MAX
  }

  /** `n` is the length of the shortest path: the documented result of
      `getMaxCommonSize`. */
  predicate IsShortest(paths: seq<Path>, n: nat) {
    FitsAll(paths, n) && exists i | 0 <= i < |paths| :: n == |paths[i]|
  }

  // The length helper.

  /** `getMaxCommonSize` as written: an empty range gives 0; otherwise the
      result of `std::accumulate` is dropped and the initial `SIZE_MAX` is
      returned. */
  function MaxCommonSizeAsWritten(paths: seq<Path>): (r: nat)
    ensures |paths| == 0 ==> r == 0
    ensures |paths| > 0 ==> r == SIZE_MAX
  {
    if |paths| == 0 then 0
    else
      var _ := FoldMin(paths, SIZE_MAX);
      SIZE_MAX
  }

  /** The fold `std::accumulate` performs: the smaller of the running value
      and each length in turn. */
  function FoldMin(paths: seq<Path>, acc: nat): nat
    decreases |paths|
  {
    if |paths| == 0 then acc
    else FoldMin(paths[1..], if |paths[0]| < acc then |paths[0]| else acc)
  }

  /** A path shorter than `SIZE_MAX` makes the helper as written promise
      more characters than that path has, so the comparisons of the search
      run past its end. */
  lemma MaxCommonSizeAsWrittenOverruns(paths: seq<Path>, i: nat)
    requires i < |paths| && |paths[i]| < SIZE_MAX
    ensures !FitsAll(paths, MaxCommonSizeAsWritten(paths))
    ensures !IsShortest(paths, MaxCommonSizeAsWritten(paths))
  {}

  /** `getMaxCommonSize` returning the value it folds: 0 for no paths,
      otherwise the smallest of `SIZE_MAX` and every length. */
  method MaxCommonSize(paths: seq<Path>) returns (r: nat)
    ensures |paths| == 0 ==> r == 0
    ensures FitsAll(paths, r)
    ensures |paths| > 0 && Bounded(paths) ==> IsShortest(paths, r)
  {
    if |paths| == 0 {
      return 0;
    }
    r := SIZE_MAX;
    var i := 0;
    while i < |paths|
      invariant 0 <= i <= |paths|
      invariant r <= SIZE_MAX && (i == 0 ==> r == SIZE_MAX)
      invariant FitsAll(paths[..i], r)
      invariant i > 0 && Bounded(paths) ==> exists j | 0 <= j < i :: r == |paths[j]|
    {
      if |paths[i]| < r {
        r := |paths[i]|;
      }
      assert paths[..i + 1] == paths[..i] + [paths[i]];
      i := i + 1;
    }
    assert paths[..i] == paths;
  }

  // The search.

  /** The first `k` characters of every path are those of the last path. */
  predicate Agree(paths: seq<Path>, k: nat)
    requires |paths| > 0 && FitsAll(paths, k)
  {
    forall i | 0 <= i < |paths| :: paths[i][..k] == Last(paths)[..k]
  }

  /** `getCommonParentPath` from the starting length `start`: the shortest
      candidate is the empty path; a candidate the paths before the last do
      not all start with is shortened by one character. The result is the
      longest candidate no longer than `start` that every path starts
      with. */
  method CommonParentFrom(paths: seq<Path>, start: nat) returns (r: Path)
    requires |paths| > 0 && FitsAll(paths, start)
    ensures |r| <= start && r == Last(paths)[..|r|]
    ensures forall i | 0 <= i < |paths| :: r <= paths[i]
    ensures forall k: nat | |r| < k <= start :: !Agree(paths, k)
  {
    var last := Last(paths);
    var end: nat := start;
    while end != 0
      invariant end <= start && FitsAll(paths, end)
      invariant forall k: nat | end < k <= start :: !Agree(paths, k)
      decreases end
    {
      var same := true;
      var i := 0;
      while i < |paths| - 1
        invariant 0 <= i <= |paths| - 1
        invariant same ==> forall m | 0 <= m < i :: paths[m][..end] == last[..end]
        invariant !same ==> !Agree(paths, end)
      {
        if paths[i][..end] != last[..end] {
          same := false;
          break;
        }
        i := i + 1;
      }
      if same {
        break;
      }
      end := end - 1;
    }
    r := last[..end];
    assert Agree(paths, end) by {
      if end == 0 {
        assert forall i | 0 <= i < |paths| :: paths[i][..0] == [];
      }
    }
    PrefixOfAll(paths, end);
  }

  /** Agreeing on `k` characters makes the last path's first `k` a prefix of
      every path. */
  lemma PrefixOfAll(paths: seq<Path>, k: nat)
    requires |paths| > 0 && FitsAll(paths, k) && Agree(paths, k)
    ensures forall i | 0 <= i < |paths| :: Last(paths)[..k] <= paths[i]
  {
    forall i | 0 <= i < |paths|
      ensures Last(paths)[..k] <= paths[i]
    {
      assert paths[i][..k] == Last(paths)[..k];
    }
  }

  // A reference reading, growing the common prefix from the front.

  /** Every path has a character at `j`, and it is that of the last path. */
  predicate AgreeAt(paths: seq<Path>, j: nat)
    requires |paths| > 0
  {
    forall i | 0 <= i < |paths| :: j < |paths[i]| && j < |Last(paths)| && paths[i][j] == Last(paths)[j]
  }

  /** The first position from `j` on where the paths stop agreeing. */
  function CommonLength(paths: seq<Path>, j: nat): (n: nat)
    requires |paths| > 0 && j <= |Last(paths)|
    ensures j <= n <= |Last(paths)|
    decreases |Last(paths)| - j
  {
    if j < |Last(paths)| && AgreeAt(paths, j) then CommonLength(paths, j + 1) else j
  }

  /** Agreeing on a prefix is agreeing at each of its positions. */
  lemma AgreeByPositions(paths: seq<Path>, k: nat)
    requires |paths| > 0 && FitsAll(paths, k)
    ensures Agree(paths, k) <==> forall j | 0 <= j < k :: AgreeAt(paths, j)
  {
    if Agree(paths, k) {
      forall j | 0 <= j < k
        ensures AgreeAt(paths, j)
      {
        forall i | 0 <= i < |paths|
          ensures paths[i][j] == Last(paths)[j]
        {
          assert paths[i][..k][j] == Last(paths)[..k][j];
        }
      }
    }
    if forall j | 0 <= j < k :: AgreeAt(paths, j) {
      forall i | 0 <= i < |paths|
        ensures paths[i][..k] == Last(paths)[..k]
      {
        forall j | 0 <= j < k
          ensures paths[i][..k][j] == Last(paths)[..k][j]
        {
          assert AgreeAt(paths, j);
        }
      }
    }
  }

  /** The paths agree at every position from `j` up to the common length,
      and not at the common length itself. */
  lemma {:induction false} CommonLengthBounds(paths: seq<Path>, j: nat)
    requires |paths| > 0 && j <= |Last(paths)|
    ensures forall m | j <= m < CommonLength(paths, j) :: AgreeAt(paths, m)
    ensures !AgreeAt(paths, CommonLength(paths, j))
    decreases |Last(paths)| - j
  {
    if j < |Last(paths)| && AgreeAt(paths, j) {
      CommonLengthBounds(paths, j + 1);
    } else if j == |Last(paths)| {
      assert !(j < |Last(paths)|);
    }
  }

  /** The paths agree on a prefix of length `k` exactly when `k` is at most
      the common length. */
  lemma AgreeUpToCommon(paths: seq<Path>, k: nat)
    requires |paths| > 0 && FitsAll(paths, k)
    ensures Agree(paths, k) <==> k <= CommonLength(paths, 0)
  {
    var n := CommonLength(paths, 0);
    CommonLengthBounds(paths, 0);
    AgreeByPositions(paths, k);
    if k > n {
      assert !AgreeAt(paths, n);
    }
  }

  /** `getCommonParentPath` with the helper returning the shortest length:
      no paths give the empty path; otherwise the result is the longest
      common prefix of all the paths. A `std::string` is shorter than
      `SIZE_MAX`. */
  method CommonParentPath(paths: seq<Path>) returns (r: Path)
    requires Bounded(paths)
    ensures |paths| == 0 ==> r == []
    ensures |paths| > 0 ==> r == Last(paths)[..CommonLength(paths, 0)]
    ensures forall i | 0 <= i < |paths| :: r <= paths[i]
  {
    if |paths| == 0 {
      return [];
    }
    var start := MaxCommonSize(paths);
    r := CommonParentFrom(paths, start);
    Longest(paths, start, |r|);
  }

  /** The longest agreeing length within the shortest path is the common
      length. */
  lemma Longest(paths: seq<Path>, start: nat, k: nat)
    requires |paths| > 0 && FitsAll(paths, start) && k <= start
    requires Agree(paths, k)
    requires forall m: nat | k < m <= start :: !Agree(paths, m)
    requires exists i | 0 <= i < |paths| :: start == |paths[i]|
    ensures k == CommonLength(paths, 0)
  {
    var n := CommonLength(paths, 0);
    AgreeUpToCommon(paths, k);
    CommonLengthBounds(paths, 0);
    var i :| 0 <= i < |paths| && start == |paths[i]|;
    CommonWithinEach(paths, i);
    if n > k {
      AgreeUpToCommon(paths, n);
    }
  }

  /** The common length is at most the length of any path. */
  lemma CommonWithinEach(paths: seq<Path>, i: nat)
    requires i < |paths|
    ensures CommonLength(paths, 0) <= |paths[i]|
  {
    CommonLengthBounds(paths, 0);
    NoAgreementPastEnd(paths, i);
  }

  /** No path agrees past its own end. */
  lemma NoAgreementPastEnd(paths: seq<Path>, i: nat)
    requires i < |paths|
    ensures !AgreeAt(paths, |paths[i]|)
  {}

  // The older copy of the search, comparing string references.

  /** Two string references are equal when they have the same length and
      the same characters. */
  function RefEqual(a: Path, b: Path): (r: bool)
    ensures r <==> a == b
  {
    |a| == |b| && forall j | 0 <= j < |a| :: a[j] == b[j]
  }

  /** The inner loop of the older search from path `i` on: the first `end`
      characters of each path before the last, taken as a reference, equal
      the candidate. */
  function AllRefsEqual(paths: seq<Path>, end: nat, i: nat): bool
    requires |paths| > 0 && FitsAll(paths, end) && i <= |paths| - 1
    decreases |paths| - 1 - i
  {
    if i == |paths| - 1 then true
    else RefEqual(Last(paths)[..end], paths[i][..end]) && AllRefsEqual(paths, end, i + 1)
  }

  /** The inner loop accepts a candidate exactly when the paths agree on
      it. */
  lemma {:induction false} AllRefsEqualIsAgree(paths: seq<Path>, end: nat, i: nat)
    requires |paths| > 0 && FitsAll(paths, end) && i <= |paths| - 1
    ensures AllRefsEqual(paths, end, i) <==>
      forall m | i <= m < |paths| :: paths[m][..end] == Last(paths)[..end]
    decreases |paths| - 1 - i
  {
    if i < |paths| - 1 {
      AllRefsEqualIsAgree(paths, end, i + 1);
    }
  }

  /** The outer loop of the older search: the candidate length shrinks
      from `end` until the inner loop accepts it or it reaches 0. */
  function SearchRefs(paths: seq<Path>, end: nat): (k: nat)
    requires |paths| > 0 && FitsAll(paths, end)
    decreases end
  {
    if end == 0 then 0
    else if AllRefsEqual(paths, end, 0) then end
    else SearchRefs(paths, end - 1)
  }

  /** The search stops at the longest agreeing candidate. */
  lemma {:induction false} SearchRefsStops(paths: seq<Path>, end: nat)
    requires |paths| > 0 && FitsAll(paths, end)
    ensures SearchRefs(paths, end) <= end
    ensures Agree(paths, SearchRefs(paths, end))
    ensures forall m: nat | SearchRefs(paths, end) < m <= end :: !Agree(paths, m)
    decreases end
  {
    AllRefsEqualIsAgree(paths, end, 0);
    if end == 0 {
      assert forall i | 0 <= i < |paths| :: paths[i][..0] == [];
    } else if !AllRefsEqual(paths, end, 0) {
      SearchRefsStops(paths, end - 1);
    }
  }

  /** The fold of lengths never exceeds its start and fits every path; it
      is its start or some path's length. */
  lemma {:induction false} FoldMinFacts(paths: seq<Path>, acc: nat)
    ensures FoldMin(paths, acc) <= acc && FitsAll(paths, FoldMin(paths, acc))
    ensures FoldMin(paths, acc) == acc || exists i | 0 <= i < |paths| :: FoldMin(paths, acc) == |paths[i]|
    decreases |paths|
  {
    if |paths| > 0 {
      var next := if |paths[0]| < acc then |paths[0]| else acc;
      FoldMinFacts(paths[1..], next);
      var r := FoldMin(paths, acc);
      if r != next {
        var i :| 0 <= i < |paths[1..]| && r == |paths[1..][i]|;
        assert r == |paths[i + 1]|;
      }
      forall i | 0 <= i < |paths|
        ensures r <= |paths[i]|
      {
        if i > 0 {
          assert paths[i] == paths[1..][i - 1];
        }
      }
    }
  }

  /** The older `getCommonParentPath`, with the helper returning the value
      it folds: no paths give the empty path; otherwise the longest common
      prefix of all the paths, as the newer copy computes. */
  function CommonParentPathRefs(paths: seq<Path>): (r: Path)
    requires Bounded(paths)
    ensures |paths| == 0 ==> r == []
    ensures |paths| > 0 ==> r == Last(paths)[..CommonLength(paths, 0)]
  {
    if |paths| == 0 then []
    else
      var start := FoldMin(paths, SIZE_MAX);
      FoldMinFacts(paths, SIZE_MAX);
      assert exists i | 0 <= i < |paths| :: start == |paths[i]| by {
        if start == SIZE_MAX {
          assert |Last(paths)| == SIZE_MAX;
        }
      }
      var k := SearchRefs(paths, start);
      SearchRefsStops(paths, start);
      Longest(paths, start, k);
      Last(paths)[..k]
  }

  /** A character prefix, not a directory: "/a/bc" and "/a/bd" share
      "/a/b". */
  lemma CharacterPrefix()
    ensures CommonParentPathRefs(["/a/bc", "/a/bd"]) == "/a/b"
  {
    var paths := ["/a/bc", "/a/bd"];
    forall j | 0 <= j < 4
      ensures AgreeAt(paths, j)
    {}
    assert !AgreeAt(paths, 4) by {
      assert paths[0][4] != Last(paths)[4];
    }
    assert CommonLength(paths, 4) == 4;
    assert CommonLength(paths, 0) == 4;
  }

  /** A single path is its own common parent. */
  lemma SinglePathIsWhole(p: Path)
    requires |p| <= SIZE_MAX
    ensures CommonParentPathRefs([p]) == p
  {
    var paths := [p];
    CommonLengthBounds(paths, 0);
    CommonWithinEach(paths, 0);
    AloneAgrees(p, CommonLength(paths, 0));
  }

  /** A lone path agrees with itself wherever it has a character. */
  lemma AloneAgrees(p: Path, j: nat)
    ensures j < |p| ==> AgreeAt([p], j)
  {}
}
