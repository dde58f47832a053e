/** A hotkey: one key plus the modifiers it requires and the modifiers it
    tolerates, and the score that says how closely a key event matches it. */
module Hotkeys {
  import opened Popcount

  /** Qt's keyboard modifier flags, a 32-bit mask. */
  type Modifiers = bv32

  const NoModifier: Modifiers := 0
  const ShiftModifier: Modifiers := 0x0200_0000
  const ControlModifier: Modifiers := 0x0400_0000
  const AllModifiers: Modifiers := 0xFFFF_FFFF

  /** Qt key codes are the non-negative values of an `int` enumeration. */
  type Key = k: int | 0 <= k < 0x8000_0000

  const KeyTab: Key := 0x0100_0001
  const KeyEnter: Key := 0x0100_0005
  const KeyInsert: Key := 0x0100_0006
  const KeyDelete: Key := 0x0100_0007
  const KeyHome: Key := 0x0100_0010
  const KeyLeft: Key := 0x0100_0012
  const KeyRight: Key := 0x0100_0014
  const KeyEscape: Key := 0x0100_0000
  const Key0: Key := 0x30
  const KeyA: Key := 0x41
  const KeyB: Key := 0x42
  const KeyD: Key := 0x44
  const KeyK: Key := 0x4b

  /** A key press as the editor receives it. */
  datatype KeyEvent = KeyEvent(key: int, modifiers: Modifiers)

  datatype Hotkey = Hotkey(key: Key, required: Modifiers, whitelist: Modifiers)

  // The three checks of `matches`, each on plain masks so that bit-level
  // facts about them can be proved once, on variables, and reused.

  /** Every modifier in `required` is present in `m`. */
  predicate HasRequired(m: Modifiers, required: Modifiers) {
    m & required == required
  }

  /** Nothing in `m` lies outside `whitelist`. */
  predicate InWhitelist(m: Modifiers, whitelist: Modifiers) {
    m & !whitelist == 0
  }

  /** The event carries the right key, every required modifier and nothing
      outside the whitelist. */
  predicate Admits(h: Hotkey, e: KeyEvent) {
    e.key == h.key && HasRequired(e.modifiers, h.required) && InWhitelist(e.modifiers, h.whitelist)
  }

  /** The modifiers of `m` that are tolerated but not required. */
  function ExtraMods(m: Modifiers, required: Modifiers, whitelist: Modifiers): Modifiers {
    m & (whitelist & !required)
  }

  /** The number of tolerated extra modifiers the event carries. */
  function Extras(h: Hotkey, e: KeyEvent): int {
    BitCount(ExtraMods(e.modifiers, h.required, h.whitelist)) as int
  }

  /** A hotkey that requires and allows no modifiers. */
  function Plain(k: Key): (h: Hotkey)
    ensures h.key == k && h.required == NoModifier && h.whitelist == NoModifier
  {
    Hotkey(k, NoModifier, NoModifier)
  }

  /** A hotkey that requires exactly `rm` and allows nothing more. */
  function Required(k: Key, rm: Modifiers): (h: Hotkey)
    ensures h.key == k && h.required == rm && h.whitelist == rm
  {
    Hotkey(k, rm, rm)
  }

  /** A hotkey that requires `rm` and also tolerates `wlm`. */
  function Whitelisted(k: Key, rm: Modifiers, wlm: Modifiers): (h: Hotkey)
    ensures h.key == k && h.required == rm && h.whitelist == wlm | rm
  {
    Hotkey(k, rm, wlm | rm)
  }

  /** `operator==`: all three fields agree. */
  function Equal(a: Hotkey, b: Hotkey): (r: bool)
    ensures r <==> a == b
  {
    a.key == b.key && a.required == b.required && a.whitelist == b.whitelist
  }

  /** The score of an admitted event: `opop` of its extra modifiers, widened
      to 64 bits. */
  function Score(h: Hotkey, e: KeyEvent): (s: int)
    ensures s == Extras(h, e)
  {
    var extra := ExtraMods(e.modifiers, h.required, h.whitelist);
    OpopIsBitCount(extra);
    Opop(extra as bv64) as int
  }

  /** `matches`: -1 when the key differs, a required modifier is missing or
      a modifier lies outside the whitelist; otherwise the number of
      tolerated extra modifiers the event carries. */
  function Matches(h: Hotkey, e: KeyEvent): (score: int)
    ensures score == -1 <==> !Admits(h, e)
    ensures Admits(h, e) ==> score == Extras(h, e)
  {
    if e.key != h.key then -1
    else if !HasRequired(e.modifiers, h.required) then -1
    else if !InWhitelist(e.modifiers, h.whitelist) then -1
    else Score(h, e)
  }

  // Bit-level facts about the checks.

  /** Containing `rm` and nothing outside it is being exactly `rm`. */
  lemma ExactMask(m: Modifiers, rm: Modifiers)
    ensures HasRequired(m, rm) && InWhitelist(m, rm) <==> m == rm
  {}

  /** Nothing outside `wlm | rm` is nothing outside `wlm` once `rm` is removed. */
  lemma UnionMask(m: Modifiers, rm: Modifiers, wlm: Modifiers)
    ensures InWhitelist(m, wlm | rm) <==> InWhitelist(m & !rm, wlm)
  {}

  /** An admitted mask has no extras exactly when it is the required mask. */
  lemma NoExtras(m: Modifiers, rm: Modifiers, wl: Modifiers)
    requires HasRequired(m, rm) && InWhitelist(m, wl)
    ensures ExtraMods(m, rm, wl) == 0 <==> m == rm
  {
    if m & (wl & !rm) == 0 {
      OnlyRequiredLeft(m, rm, wl);
    }
  }

  lemma OnlyRequiredLeft(m: Modifiers, rm: Modifiers, wl: Modifiers)
    requires m & rm == rm && m & !wl == 0
    requires m & (wl & !rm) == 0
    ensures m == rm
  {}

  // What each constructor admits.

  lemma PlainAdmits(k: Key, e: KeyEvent)
    ensures Admits(Plain(k), e) <==> e.key == k && e.modifiers == NoModifier
  {
    ExactMask(e.modifiers, NoModifier);
  }

  lemma RequiredAdmits(k: Key, rm: Modifiers, e: KeyEvent)
    ensures Admits(Required(k, rm), e) <==> e.key == k && e.modifiers == rm
  {
    ExactMask(e.modifiers, rm);
  }

  /** Beyond the required modifiers, the event may carry only whitelisted ones. */
  lemma WhitelistedAdmits(k: Key, rm: Modifiers, wlm: Modifiers, e: KeyEvent)
    ensures Admits(Whitelisted(k, rm, wlm), e) <==>
      e.key == k && HasRequired(e.modifiers, rm) && InWhitelist(e.modifiers & !rm, wlm)
  {
    UnionMask(e.modifiers, rm, wlm);
  }

  /** The score is 0 exactly for an admitted event whose modifiers are the
      required ones and nothing more. */
  lemma ExactMatchScoresZero(h: Hotkey, e: KeyEvent)
    ensures Matches(h, e) == 0 <==> Admits(h, e) && e.modifiers == h.required
  {
    if Admits(h, e) {
      var extra := ExtraMods(e.modifiers, h.required, h.whitelist);
      BitCountZero(extra);
      NoExtras(e.modifiers, h.required, h.whitelist);
      IntZero(BitCount(extra));
    }
  }

  lemma IntZero(b: bv64)
    ensures b as int == 0 <==> b == 0
  {}

  // The scores the hotkey tests expect.

  /** Enter with no required modifiers and every modifier tolerated. */
  lemma TolerantEnterScores()
    ensures var h := Whitelisted(KeyEnter, NoModifier, AllModifiers);
      && Matches(h, KeyEvent(KeyEnter, NoModifier)) == 0
      && Matches(h, KeyEvent(KeyEnter, ShiftModifier)) == 1
      && Matches(h, KeyEvent(KeyEnter, AllModifiers)) == 32
      && Matches(h, KeyEvent(KeyA, NoModifier)) == -1
  {}

  /** Plain Home matches only the bare key. */
  lemma PlainHomeScores()
    ensures var h := Plain(KeyHome);
      && Matches(h, KeyEvent(KeyHome, NoModifier)) == 0
      && Matches(h, KeyEvent(KeyHome, ShiftModifier)) == -1
      && Matches(h, KeyEvent(KeyHome, AllModifiers)) == -1
      && Matches(h, KeyEvent(KeyA, NoModifier)) == -1
  {}
}
