/** The "Open Recent" menu: a queue of paths with the oldest at the front
    and the newest at the back, bounded by a capacity, plus one menu action
    per entry listing the entries newest first. The action objects are
    modelled by their number; their texts by the label they are given. */
module RecentMenus {
  import opened Wrappers

  /** The capacity used when neither the stored setting nor its default
      reads as an integer. */
  const DEFAULT_CAPACITY := 10

  datatype RecentMenu = RecentMenu(capacity: int, entries: seq<string>, actions: nat)

  /** The text "%1. %2" given to an action: its 1-based number and the file
      name of its path. */
  datatype ActionLabel = ActionLabel(number: nat, fileName: string)

  /** What a setting holds, as far as the menu can read it. */
  datatype SettingValue = IntValue(n: int) | ListValue(items: seq<string>) | Unreadable

  /** One action per entry: what every update of the menu restores. */
  predicate Consistent(m: RecentMenu) {
    m.actions == |m.entries|
  }

  predicate NoDuplicates(s: seq<string>) {
    forall i, j | 0 <= i < j < |s| :: s[i] != s[j]
  }

  /** How many entries survive trimming a list of `n` to capacity `c`. */
  function Kept(n: nat, c: int): (k: nat)
    ensures k <= n
    ensures c >= 0 ==> k <= c
  {
    if c < 0 then 0 else if n <= c then n else c
  }

  /** The trimming loop: dequeue the oldest entry while there are more
      entries than the capacity and the list is not empty. */
  function TrimOldest(s: seq<string>, c: int): (r: seq<string>)
    ensures r == s[|s| - Kept(|s|, c)..]
    decreases |s|
  {
    if |s| > c && |s| > 0 then TrimOldest(s[1..], c) else s
  }

  /** Trimming keeps the newest entries in order, so a list without
      duplicates stays without. */
  lemma TrimKeepsDistinct(s: seq<string>, c: int)
    requires NoDuplicates(s)
    ensures NoDuplicates(TrimOldest(s, c))
  {
    var d := |s| - Kept(|s|, c);
    var r := TrimOldest(s, c);
    forall i, j | 0 <= i < j < |r| ensures r[i] != r[j] {
      assert r[i] == s[d + i] && r[j] == s[d + j];
    }
  }

  /** The position of the first copy of `p`, or the length when there is
      none. */
  function FirstIndex(s: seq<string>, p: string): (i: nat)
    ensures i <= |s|
    ensures forall k | 0 <= k < i :: s[k] != p
    ensures i < |s| ==> s[i] == p
  {
    if |s| == 0 then 0
    else if s[0] == p then 0
    else 1 + FirstIndex(s[1..], p)
  }

  /** The loop that removes the first copy of `p`, if any. */
  function RemoveFirst(s: seq<string>, p: string): (r: seq<string>)
    ensures p !in s ==> r == s
    ensures p in s ==> |r| == |s| - 1
    ensures var i := FirstIndex(s, p);
      forall k | 0 <= k < |r| :: r[k] == s[if k < i then k else k + 1]
  {
    var i := FirstIndex(s, p);
    if i == |s| then s else s[..i] + s[i + 1..]
  }

  /** Removing one element from a list without duplicates removes every copy. */
  lemma RemoveFirstDistinct(s: seq<string>, p: string)
    requires NoDuplicates(s)
    ensures NoDuplicates(RemoveFirst(s, p)) && p !in RemoveFirst(s, p)
    ensures forall q | q != p :: q in RemoveFirst(s, p) <==> q in s
  {
    var r := RemoveFirst(s, p);
    var i := FirstIndex(s, p);
    if i < |s| {
      forall a, b | 0 <= a < b < |r| ensures r[a] != r[b] {
        var a' := if a < i then a else a + 1;
        var b' := if b < i then b else b + 1;
        assert r[a] == s[a'] && r[b] == s[b'];
      }
      forall k | 0 <= k < |r| ensures r[k] != p {
        var k' := if k < i then k else k + 1;
        assert r[k] == s[k'];
      }
      forall q | q != p ensures q in r <==> q in s {
        if q in s {
          var k :| 0 <= k < |s| && s[k] == q;
          assert k != i;
          assert r[if k < i then k else k - 1] == q;
        }
      }
    }
  }

  /** The actions list grown or shrunk to one action per entry. */
  method UpdateActionsListSize(m: RecentMenu) returns (r: RecentMenu)
    ensures Consistent(r)
    ensures r.entries == m.entries && r.capacity == m.capacity
  {
    var actions := m.actions;
    while actions > |m.entries|
      decreases actions
    {
      actions := actions - 1;
    }
    while actions < |m.entries|
      invariant actions <= |m.entries|
      decreases |m.entries| - actions
    {
      actions := actions + 1;
    }
    r := m.(actions := actions);
  }

  /** `addPath`: the first copy of `p` is removed, `p` is enqueued as the
      newest entry, and the oldest entries are dropped down to capacity. */
  method AddPath(m: RecentMenu, p: string) returns (r: RecentMenu)
    ensures Consistent(r) && r.capacity == m.capacity
    ensures r.entries == TrimOldest(RemoveFirst(m.entries, p) + [p], m.capacity)
    ensures m.capacity >= 1 ==> |r.entries| >= 1 && r.entries[|r.entries| - 1] == p
    ensures m.capacity < 1 ==> r.entries == []
    ensures m.capacity >= 0 ==> |r.entries| <= m.capacity
  {
    var queue := RemoveFirst(m.entries, p) + [p];
    queue := TrimOldest(queue, m.capacity);
    r := UpdateActionsListSize(m.(entries := queue));
  }

  /** A list without duplicates keeps none through `addPath`, which leaves
      `p` present whenever the capacity allows one entry. */
  lemma AddPathKeepsDistinct(s: seq<string>, c: int, p: string)
    requires NoDuplicates(s)
    ensures NoDuplicates(TrimOldest(RemoveFirst(s, p) + [p], c))
    ensures c >= 1 ==> p in TrimOldest(RemoveFirst(s, p) + [p], c)
  {
    var t := RemoveFirst(s, p);
    RemoveFirstDistinct(s, p);
    var q := t + [p];
    forall i, j | 0 <= i < j < |q| ensures q[i] != q[j] {
      if j == |t| {
        assert q[i] == t[i];
      } else {
        assert q[i] == t[i] && q[j] == t[j];
      }
    }
    TrimKeepsDistinct(q, c);
    if c >= 1 {
      var r := TrimOldest(q, c);
      assert r[|r| - 1] == q[|q| - 1] == p;
    }
  }

  /** The newest entries still present after `addPath` are, in order, the
      entries other than `p`, then `p`. */
  lemma AddPathOrder(s: seq<string>, c: int, p: string)
    requires NoDuplicates(s) && c >= |s| + 1
    ensures TrimOldest(RemoveFirst(s, p) + [p], c) == RemoveFirst(s, p) + [p]
    ensures |TrimOldest(RemoveFirst(s, p) + [p], c)| == if p in s then |s| else |s| + 1
  {
    var t := RemoveFirst(s, p);
  }

  /** `setCapacity(c)`: the newest min(count, max(c, 0)) entries stay, in
      their order. */
  method SetCapacity(m: RecentMenu, c: int) returns (r: RecentMenu, labels: seq<ActionLabel>)
    ensures Consistent(r) && r.capacity == c
    ensures |r.entries| == Kept(|m.entries|, c)
    ensures r.entries == m.entries[|m.entries| - |r.entries|..]
    ensures labels == Labels(r.entries)
  {
    var queue := TrimOldest(m.entries, c);
    r := UpdateActionsListSize(m.(capacity := c, entries := queue));
    labels := RenderListContents(r);
  }

  /** `setListContents(l)`: the list becomes `l`, its last element the
      newest, trimmed to capacity, without removing duplicates. */
  method SetListContents(m: RecentMenu, l: seq<string>) returns (r: RecentMenu, labels: seq<ActionLabel>)
    ensures Consistent(r) && r.capacity == m.capacity
    ensures |r.entries| == Kept(|l|, m.capacity)
    ensures r.entries == l[|l| - |r.entries|..]
    ensures labels == Labels(r.entries)
  {
    var queue: seq<string> := [];
    var i := 0;
    while i < |l|
      invariant 0 <= i <= |l|
      invariant queue == l[..i]
    {
      queue := queue + [l[i]];
      i := i + 1;
    }
    assert queue == l;
    queue := TrimOldest(queue, m.capacity);
    r := UpdateActionsListSize(m.(entries := queue));
    labels := RenderListContents(r);
  }

  /** Where the last path component starts: just after the last slash, or
      at 0 when there is none. */
  function NameStart(path: string): (k: nat)
    ensures k <= |path|
    ensures forall i | k <= i < |path| :: path[i] != '/'
    ensures k > 0 ==> path[k - 1] == '/'
  {
    if |path| == 0 || path[|path| - 1] == '/' then |path|
    else NameStart(path[..|path| - 1])
  }

  /** The name a file-info object gives a path: everything after its last
      slash. */
  function FileName(path: string): string {
    path[NameStart(path)..]
  }

  /** The file name is the longest slash-free suffix of the path. */
  lemma FileNameIsLastComponent(path: string)
    ensures var r := FileName(path);
      && |r| <= |path| && r == path[|path| - |r|..]
      && '/' !in r
      && (|r| < |path| ==> path[|path| - |r| - 1] == '/')
  {
    var k := NameStart(path);
    var r := FileName(path);
    assert |path| - |r| == k;
    forall i | 0 <= i < |r| ensures r[i] != '/' {
      assert r[i] == path[k + i];
    }
  }

  /** The label action `j` should carry: the 1-based number and the file
      name of entry count-1-j, so that the newest entry comes first. */
  function LabelAt(entries: seq<string>, j: nat): ActionLabel
    requires j < |entries|
  {
    ActionLabel(j + 1, FileName(entries[|entries| - 1 - j]))
  }

  /** The labels of all actions, in menu order. */
  function Labels(entries: seq<string>): (r: seq<ActionLabel>)
    ensures |r| == |entries|
    ensures forall j | 0 <= j < |entries| :: r[j] == LabelAt(entries, j)
  {
    seq(|entries|, j requires 0 <= j < |entries| => LabelAt(entries, j))
  }

  /** `renderListContents`: walks the entries from newest to oldest and
      gives action `j` the label of entry count-1-j. */
  method RenderListContents(m: RecentMenu) returns (labels: seq<ActionLabel>)
    requires Consistent(m)
    ensures |labels| == m.actions
    ensures labels == Labels(m.entries)
  {
    var count := |m.entries|;
    labels := [];
    var i := count - 1;
    while i >= 0
      invariant -1 <= i < count
      invariant |labels| == count - 1 - i
      invariant forall j | 0 <= j < |labels| :: labels[j] == LabelAt(m.entries, j)
    {
      var j := count - 1 - i;
      labels := labels + [ActionLabel(j + 1, FileName(m.entries[i]))];
      i := i - 1;
    }
  }

  /** `doActionClicked`: the entry behind action `j`, or nothing when the
      sender is not one of the menu's actions (`indexOf` gave -1). */
  function ActionClicked(m: RecentMenu, j: int): (r: Option<string>)
    requires Consistent(m) && -1 <= j < m.actions
    ensures j == -1 <==> r.None?
    ensures r.Some? ==> r.value == m.entries[|m.entries| - 1 - j]
  {
    if j == -1 then None else Some(m.entries[|m.entries| - 1 - j])
  }

  /** The entry a click emits is the one whose file name the clicked
      action shows. */
  lemma ClickMatchesLabel(m: RecentMenu, j: nat)
    requires Consistent(m) && j < m.actions
    ensures ActionClicked(m, j).Some?
    ensures Labels(m.entries)[j].number == j + 1
    ensures Labels(m.entries)[j].fileName == FileName(ActionClicked(m, j).value)
  {
    var e := m.entries;
    var k := |e| - 1 - j;
    assert ActionClicked(m, j) == Some(e[k]);
    assert Labels(e)[j] == LabelAt(e, j) == ActionLabel(j + 1, FileName(e[k]));
  }

  /** `saveContents`: the entries written out from oldest to newest. */
  method SaveContents(m: RecentMenu) returns (l: seq<string>)
    ensures |l| == |m.entries|
    ensures forall i | 0 <= i < |l| :: l[i] == m.entries[i]
  {
    l := [];
    var i := 0;
    while i < |m.entries|
      invariant 0 <= i <= |m.entries|
      invariant l == m.entries[..i]
    {
      l := l + [m.entries[i]];
      i := i + 1;
    }
  }

  /** Saved contents read back unchanged: the list already fits the
      capacity and is in the order `setListContents` expects. */
  lemma SavedContentsReload(m: RecentMenu, l: seq<string>)
    requires m.capacity >= |m.entries|
    requires |l| == |m.entries| && forall i | 0 <= i < |l| :: l[i] == m.entries[i]
    ensures TrimOldest(l, m.capacity) == m.entries
  {
    assert l == m.entries;
  }

  /** The capacity at construction: the stored setting when it reads as an
      integer, else the setting's default when that does, else 10. */
  function InitialCapacity(stored: SettingValue, default: SettingValue): (c: int)
    ensures stored.IntValue? ==> c == stored.n
    ensures !stored.IntValue? && default.IntValue? ==> c == default.n
    ensures !stored.IntValue? && !default.IntValue? ==> c == DEFAULT_CAPACITY
  {
    match stored
    case IntValue(n) => n
    case _ =>
      match default
      case IntValue(n) => n
      case _ => DEFAULT_CAPACITY
  }

  /** `doSettingChanged`: an integer size setting sets the capacity, a list
      setting replaces the contents, and anything else changes nothing. */
  method SettingChanged(m: RecentMenu, key: string, v: SettingValue) returns (r: RecentMenu)
    requires Consistent(m)
    ensures Consistent(r)
    ensures key == "recent-list-size" && v.IntValue? ==>
      r.capacity == v.n && r.entries == m.entries[|m.entries| - Kept(|m.entries|, v.n)..]
    ensures key == "recent-list" && v.ListValue? ==>
      r.capacity == m.capacity && r.entries == v.items[|v.items| - Kept(|v.items|, m.capacity)..]
    ensures !(key == "recent-list-size" && v.IntValue?) && !(key == "recent-list" && v.ListValue?) ==> r == m
  {
    r := m;
    if key == "recent-list-size" {
      if v.IntValue? {
        var labels;
        r, labels := SetCapacity(m, v.n);
      }
    } else if key == "recent-list" {
      if v.ListValue? {
        var labels;
        r, labels := SetListContents(m, v.items);
      }
    }
  }
}
