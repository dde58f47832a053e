/** The settings-backed recent list: a deque of paths with the newest at the
    front, never longer than its capacity, saved after every change. */
module RecentLists {
  import opened Wrappers

  /** The capacity used when no size is stored. */
  const DEFAULT_CAPACITY: nat := 10

  datatype RecentList = RecentList(entries: seq<string>, capacity: nat)

  /** What is written to the settings after a change: the list and the
      capacity. */
  datatype Saved = Saved(list: seq<string>, capacity: nat)

  predicate Bounded(r: RecentList) {
    |r.entries| <= r.capacity
  }

  /** `trim`: pop from the back until the size is at most the capacity. */
  function Trim(s: seq<string>, capacity: nat): (r: seq<string>)
    ensures |r| == if |s| <= capacity then |s| else capacity
    ensures r == s[..|r|]
    decreases |s|
  {
    if |s| > capacity then Trim(s[..|s| - 1], capacity) else s
  }

  function Save(r: RecentList): (s: Saved)
    ensures s.list == r.entries && s.capacity == r.capacity
  {
    Saved(r.entries, r.capacity)
  }

  /** `load`: the stored capacity (10 when absent), then the stored paths in
      stored order (none when absent), trimmed to that capacity. */
  function Load(storedList: Option<seq<string>>, storedCapacity: Option<nat>): (r: (RecentList, Saved))
    ensures Bounded(r.0)
    ensures r.0.capacity == (if storedCapacity.Some? then storedCapacity.value else DEFAULT_CAPACITY)
    ensures storedList.None? ==> r.0.entries == []
    ensures storedList.Some? ==> |r.0.entries| == if |storedList.value| <= r.0.capacity then |storedList.value| else r.0.capacity
    ensures storedList.Some? ==> r.0.entries == storedList.value[..|r.0.entries|]
    ensures r.1 == Save(r.0)
  {
    var capacity := match storedCapacity case Some(c) => c case None => DEFAULT_CAPACITY;
    var contents := match storedList case Some(l) => l case None => [];
    var list := RecentList(Trim(contents, capacity), capacity);
    (list, Save(list))
  }

  /** `addPath`: push `p` at the front and trim from the back; an earlier
      copy of `p` stays where it is. */
  function AddPath(r: RecentList, p: string): (out: (RecentList, Saved))
    ensures Bounded(out.0) && out.0.capacity == r.capacity
    ensures |out.0.entries| <= |r.entries| + 1
    ensures r.capacity >= 1 ==> |out.0.entries| >= 1 && out.0.entries[0] == p
    ensures r.capacity >= 1 ==> out.0.entries[1..] == r.entries[..|out.0.entries| - 1]
    ensures r.capacity == 0 ==> out.0.entries == []
    ensures out.1 == Save(out.0)
  {
    var list := RecentList(Trim([p] + r.entries, r.capacity), r.capacity);
    (list, Save(list))
  }

  /** Adding to a list below capacity grows it by one and loses nothing,
      even when `p` was already there. */
  lemma AddPathBelowCapacity(r: RecentList, p: string)
    requires |r.entries| < r.capacity
    ensures AddPath(r, p).0.entries == [p] + r.entries
  {}

  /** Saved state loads back as the same list. */
  lemma SaveLoadRoundTrip(r: RecentList)
    requires Bounded(r)
    ensures Load(Some(Save(r).list), Some(Save(r).capacity)).0 == r
  {}
}
