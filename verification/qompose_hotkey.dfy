/** The older hotkey class of the Qt editor, kept beside `Hotkey` with the
    same three fields and the same matching rule, plus explicit copy and
    assignment. */
module QomposeHotkeys {
  import opened Popcount
  import opened Hotkeys

  datatype QomposeHotkey = QomposeHotkey(key: Key, required: Modifiers, whitelist: Modifiers)

  /** The same hotkey seen as the newer class. */
  function AsHotkey(h: QomposeHotkey): Hotkey {
    Hotkey(h.key, h.required, h.whitelist)
  }

  /** Requires and allows no modifiers. */
  function Plain(k: Key): (h: QomposeHotkey)
    ensures AsHotkey(h) == Hotkeys.Plain(k)
  {
    QomposeHotkey(k, NoModifier, NoModifier)
  }

  /** Requires exactly `rm`. */
  function Required(k: Key, rm: Modifiers): (h: QomposeHotkey)
    ensures AsHotkey(h) == Hotkeys.Required(k, rm)
  {
    QomposeHotkey(k, rm, rm)
  }

  /** Requires `rm`, tolerates `wlm` as well. */
  function Whitelisted(k: Key, rm: Modifiers, wlm: Modifiers): (h: QomposeHotkey)
    ensures AsHotkey(h) == Hotkeys.Whitelisted(k, rm, wlm)
  {
    QomposeHotkey(k, rm, wlm | rm)
  }

  /** `operator=`: `aliased` says the source object is this one, in which
      case nothing is written. Either way the result holds the source's
      three fields. */
  function Assign(self: QomposeHotkey, o: QomposeHotkey, aliased: bool): (r: QomposeHotkey)
    requires aliased ==> self == o
    ensures r == o
    ensures aliased ==> r == self
  {
    if aliased then self
    else QomposeHotkey(o.key, o.required, o.whitelist)
  }

  /** The copy constructor: start from Escape with no modifiers, then assign. */
  function Copy(o: QomposeHotkey): (r: QomposeHotkey)
    ensures r == o
  {
    Assign(QomposeHotkey(KeyEscape, NoModifier, NoModifier), o, false)
  }

  /** `operator==`: all three fields agree. */
  function Equal(a: QomposeHotkey, b: QomposeHotkey): (r: bool)
    ensures r <==> a == b
  {
    a.key == b.key && a.required == b.required && a.whitelist == b.whitelist
  }

  /** `matches`, written out again: it scores every event exactly as the
      newer class does. */
  function Matches(h: QomposeHotkey, e: KeyEvent): (score: int)
    ensures score == Hotkeys.Matches(AsHotkey(h), e)
  {
    if e.key != h.key then -1
    else if !HasRequired(e.modifiers, h.required) then -1
    else if !InWhitelist(e.modifiers, h.whitelist) then -1
    else
      var extra := ExtraMods(e.modifiers, h.required, h.whitelist);
      OpopIsBitCount(extra);
      Opop(extra as bv64) as int
  }

  /** The scores the legacy tests expect: the same table as for `Hotkey`. */
  lemma LegacyScores()
    ensures var h := Whitelisted(KeyEnter, NoModifier, AllModifiers);
      && Matches(h, KeyEvent(KeyEnter, NoModifier)) == 0
      && Matches(h, KeyEvent(KeyEnter, ShiftModifier)) == 1
      && Matches(h, KeyEvent(KeyEnter, AllModifiers)) == 32
      && Matches(h, KeyEvent(KeyA, NoModifier)) == -1
    ensures var h := Plain(KeyHome);
      && Matches(h, KeyEvent(KeyHome, NoModifier)) == 0
      && Matches(h, KeyEvent(KeyHome, ShiftModifier)) == -1
      && Matches(h, KeyEvent(KeyHome, AllModifiers)) == -1
      && Matches(h, KeyEvent(KeyA, NoModifier)) == -1
  {
    TolerantEnterScores();
    PlainHomeScores();
  }
}
