/** The hotkey map: hotkeys paired with handlers, and the lookup that picks
    the handler of the closest matching hotkey for a key event. The hash
    container of the source is modelled as the sequence of its entries in
    iteration order; that order is the container's choice, so where a new
    entry lands is a parameter, and the lookup's answer is shown not to
    depend on the order except between equally good matches. */
module HotkeyMaps {
  import opened Wrappers
  import opened Hotkeys

  datatype Entry<F> = Entry(hotkey: Hotkey, handler: F)

  /** No hotkey is stored twice. */
  predicate Distinct<F>(m: seq<Entry<F>>) {
    forall i, j | 0 <= i < j < |m| :: m[i].hotkey != m[j].hotkey
  }

  /** The first index from `i` on whose hotkey is `==` to `h`. */
  function FindEqual<F>(m: seq<Entry<F>>, h: Hotkey, i: nat): (r: Option<nat>)
    requires i <= |m|
    ensures r.Some? ==> i <= r.value < |m| && m[r.value].hotkey == h
    ensures r.None? <==> forall j | i <= j < |m| :: m[j].hotkey != h
    decreases |m| - i
  {
    if i == |m| then None
    else if Equal(m[i].hotkey, h) then Some(i)
    else FindEqual(m, h, i + 1)
  }

  /** `addHotkey`: a hotkey equal to a stored one only takes over that
      entry's handler and the answer is false; otherwise the pair is added,
      at the iteration position `at` the hash container gives it, and the
      answer is true. */
  function AddHotkey<F>(m: seq<Entry<F>>, h: Hotkey, f: F, at: nat): (r: (seq<Entry<F>>, bool))
    requires at <= |m|
    ensures r.1 <==> forall i | 0 <= i < |m| :: m[i].hotkey != h
    ensures r.1 ==> r.0 == m[..at] + [Entry(h, f)] + m[at..]
    ensures !r.1 ==> exists i | 0 <= i < |m| :: m[i].hotkey == h && r.0 == m[i := Entry(h, f)]
  {
    match FindEqual(m, h, 0)
    case None => (m[..at] + [Entry(h, f)] + m[at..], true)
    case Some(i) => (m[i := m[i].(handler := f)], false)
  }

  /** Adding never loses an entry, keeps hotkeys distinct, and afterwards
      `h` is stored with handler `f`. */
  lemma AddHotkeyKeepsDistinct<F>(m: seq<Entry<F>>, h: Hotkey, f: F, at: nat)
    requires Distinct(m) && at <= |m|
    ensures var (m', _) := AddHotkey(m, h, f, at);
      && |m'| >= |m|
      && Distinct(m')
      && (exists k | 0 <= k < |m'| :: m'[k] == Entry(h, f))
  {
    var (m', added) := AddHotkey(m, h, f, at);
    if added {
      assert m'[at] == Entry(h, f);
      forall i, j | 0 <= i < j < |m'|
        ensures m'[i].hotkey != m'[j].hotkey
      {
        assert m'[i] == if i < at then m[i] else if i == at then Entry(h, f) else m[i - 1];
        assert m'[j] == if j < at then m[j] else if j == at then Entry(h, f) else m[j - 1];
      }
    } else {
      var i :| 0 <= i < |m| && m[i].hotkey == h && m' == m[i := Entry(h, f)];
      assert m'[i] == Entry(h, f);
    }
  }

  /** The score of every entry for the event, in iteration order. */
  function Scores<F>(m: seq<Entry<F>>, e: KeyEvent): (s: seq<int>)
    ensures |s| == |m|
    ensures forall j | 0 <= j < |m| :: s[j] == Matches(m[j].hotkey, e)
  {
    seq(|m|, j requires 0 <= j < |m| => Matches(m[j].hotkey, e))
  }

  /** `best` is the outcome of looking at the first `n` scores: absent when
      all of them are -1, otherwise a match whose score no other match among
      them beats, and which every earlier match scores worse than. */
  predicate IsBest(s: seq<int>, n: nat, best: Option<nat>)
    requires n <= |s|
  {
    && (best.None? <==> forall j | 0 <= j < n :: s[j] == -1)
    && (best.Some? ==>
          && best.value < n
          && s[best.value] != -1
          && (forall j | 0 <= j < n && s[j] != -1 :: s[best.value] <= s[j])
          && (forall j | 0 <= j < best.value && s[j] != -1 :: s[best.value] < s[j]))
  }

  /** The quality the loop keeps beside its best entry: -1 before any match. */
  function Quality(s: seq<int>, best: Option<nat>): int
    requires best.Some? ==> best.value < |s|
  {
    if best.None? then -1 else s[best.value]
  }

  // One step of the lookup loop keeps `IsBest`.

  lemma SkipStep(s: seq<int>, i: nat, best: Option<nat>)
    requires i < |s| && IsBest(s, i, best) && s[i] == -1
    ensures IsBest(s, i + 1, best)
  {}

  lemma TakeStep(s: seq<int>, i: nat, best: Option<nat>)
    requires i < |s| && IsBest(s, i, best) && s[i] != -1
    requires s[i] < Quality(s, best) || Quality(s, best) == -1
    ensures IsBest(s, i + 1, Some(i))
  {}

  lemma KeepStep(s: seq<int>, i: nat, best: Option<nat>)
    requires i < |s| && IsBest(s, i, best) && s[i] != -1
    requires !(s[i] < Quality(s, best) || Quality(s, best) == -1)
    ensures IsBest(s, i + 1, best)
  {}

  /** The lookup loop from entry `i` on, over the entries' scores: a match
      replaces the current best when it scores strictly lower, or when
      nothing has matched yet. */
  function Scan(s: seq<int>, i: nat, best: Option<nat>, quality: int): Option<nat>
    requires i <= |s|
    decreases |s| - i
  {
    if i == |s| then best
    else if s[i] == -1 then Scan(s, i + 1, best, quality)
    else if s[i] < quality || quality == -1 then Scan(s, i + 1, Some(i), s[i])
    else Scan(s, i + 1, best, quality)
  }

  /** Each step of the loop keeps `IsBest` for the entries seen so far. */
  lemma {:induction false} ScanIsBest(s: seq<int>, i: nat, best: Option<nat>, quality: int)
    requires i <= |s| && IsBest(s, i, best) && quality == Quality(s, best)
    ensures IsBest(s, |s|, Scan(s, i, best, quality))
    decreases |s| - i
  {
    if i < |s| {
      if s[i] == -1 {
        SkipStep(s, i, best);
        ScanIsBest(s, i + 1, best, quality);
      } else if s[i] < quality || quality == -1 {
        TakeStep(s, i, best);
        ScanIsBest(s, i + 1, Some(i), s[i]);
      } else {
        KeepStep(s, i, best);
        ScanIsBest(s, i + 1, best, quality);
      }
    }
  }

  /** `getHotkeyHandler`: the index of the entry whose handler is returned,
      or `None` for the null pointer. */
  function HandlerIndex<F>(m: seq<Entry<F>>, e: KeyEvent): (r: Option<nat>)
    ensures IsBest(Scores(m, e), |m|, r)
  {
    ScanIsBest(Scores(m, e), 0, None, -1);
    Scan(Scores(m, e), 0, None, -1)
  }

  /** The handler `getHotkeyHandler` points at. */
  function Handler<F>(m: seq<Entry<F>>, e: KeyEvent): (r: Option<F>)
    ensures r.None? <==> forall j | 0 <= j < |m| :: !Admits(m[j].hotkey, e)
    ensures r.Some? ==> exists k | 0 <= k < |m| :: r.value == m[k].handler && Admits(m[k].hotkey, e)
  {
    match HandlerIndex(m, e)
    case None => None
    case Some(k) => Some(m[k].handler)
  }

  /** The documented rule: among the matching hotkeys the one with the fewest
      extra tolerated modifiers wins, and on a tie the earliest in the
      container's iteration order. */
  lemma FewestExtrasWin<F>(m: seq<Entry<F>>, e: KeyEvent)
    ensures match HandlerIndex(m, e)
      case None => forall j | 0 <= j < |m| :: !Admits(m[j].hotkey, e)
      case Some(k) =>
        && k < |m| && Admits(m[k].hotkey, e)
        && (forall j | 0 <= j < |m| && Admits(m[j].hotkey, e) :: Extras(m[k].hotkey, e) <= Extras(m[j].hotkey, e))
        && (forall j | 0 <= j < k && Admits(m[j].hotkey, e) :: Extras(m[k].hotkey, e) < Extras(m[j].hotkey, e))
  {}

  /** The answer is determined by the scores alone. */
  lemma BestIsUnique(s: seq<int>, n: nat, a: Option<nat>, b: Option<nat>)
    requires n <= |s| && IsBest(s, n, a) && IsBest(s, n, b)
    ensures a == b
  {
    if a.Some? && b.Some? && a.value != b.value {
      assert false;
    }
  }

  /** When the loop over the scores settles on entry `k`, that entry's
      handler is returned; when it settles on nothing, no handler is. Lets a
      concrete table be checked by computing its scores once. */
  lemma HandlerOfScan<F>(m: seq<Entry<F>>, e: KeyEvent, k: Option<nat>)
    requires Scan(Scores(m, e), 0, None, -1) == k
    ensures k.Some? ==> k.value < |m| && Handler(m, e) == Some(m[k.value].handler)
    ensures k.None? ==> Handler(m, e) == None
  {
    ScanIsBest(Scores(m, e), 0, None, -1);
  }

  /** No other matching entry tolerates as few extra modifiers as entry `k`. */
  predicate UniqueBest<F>(m: seq<Entry<F>>, e: KeyEvent, k: nat)
    requires k < |m|
  {
    forall j | 0 <= j < |m| && j != k && Admits(m[j].hotkey, e) :: Extras(m[k].hotkey, e) < Extras(m[j].hotkey, e)
  }

  /** The same entries iterated in another order: whether a handler is
      found, and how many extra modifiers the winner tolerates, are the
      same; and when the winner is the unique best match the same handler
      is returned. */
  lemma OrderFree<F>(m: seq<Entry<F>>, m': seq<Entry<F>>, e: KeyEvent)
    requires multiset(m) == multiset(m')
    ensures HandlerIndex(m, e).None? <==> HandlerIndex(m', e).None?
    ensures HandlerIndex(m, e).Some? && HandlerIndex(m', e).Some? ==>
      var k := HandlerIndex(m, e).value;
      var k' := HandlerIndex(m', e).value;
      && k < |m| && k' < |m'|
      && Extras(m[k].hotkey, e) == Extras(m'[k'].hotkey, e)
      && (UniqueBest(m, e, k) ==> m'[k'] == m[k] && Handler(m, e) == Handler(m', e))
  {
    FewestExtrasWin(m, e);
    FewestExtrasWin(m', e);
    match (HandlerIndex(m, e), HandlerIndex(m', e))
    case (None, None) =>
    case (Some(k), None) =>
      assert false;
    case (None, Some(k')) =>
      assert false;
    case (Some(k), Some(k')) =>
      assert m[k] in multiset(m');
      var j' :| 0 <= j' < |m'| && m'[j'] == m[k];
      assert Admits(m'[j'].hotkey, e);
      assert m'[k'] in multiset(m);
      var j :| 0 <= j < |m| && m[j] == m'[k'];
      assert Admits(m[j].hotkey, e);
      assert UniqueBest(m, e, k) ==> j == k;
  }

  /** `getHotkeyHandler` as its comment describes it: the handler of the
      best match, and an exception when no hotkey matches. */
  function HandlerAsDocumented<F>(m: seq<Entry<F>>, e: KeyEvent): (r: Result<F, string>)
    ensures r.Err? <==> forall j | 0 <= j < |m| :: !Admits(m[j].hotkey, e)
  {
    match HandlerIndex(m, e)
    case None => Err("std::exception")
    case Some(k) => Ok(m[k].handler)
  }

  /** The code and its comment agree on every event some hotkey matches;
      where none does, the comment promises an exception and the code
      returns the null pointer, as the map with no hotkeys shows. */
  lemma DocumentedThrowIsNull<F>(m: seq<Entry<F>>, e: KeyEvent)
    ensures HandlerAsDocumented(m, e).Ok? <==> Handler(m, e).Some?
    ensures HandlerAsDocumented(m, e).Ok? ==> HandlerAsDocumented(m, e).value == Handler(m, e).value
    ensures m == [] ==> HandlerAsDocumented(m, e).Err? && Handler(m, e) == None
  {
  }
}
