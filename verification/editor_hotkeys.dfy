/** The editor's hotkey table as the hotkey-map tests build it, and the
    handler the lookup picks for each of their key events. */
module EditorHotkeys {
  import opened Wrappers
  import opened Hotkeys
  import opened HotkeyMaps

  /** The handlers of the test table, `None` standing for no handler. */
  datatype Action = DoNewline | DoTab | DecreaseSelectionIndent | DoMoveHome | DoSelectHome
                  | DuplicateLine | ResetFontZoom | DoNoop

  /** The table, in the order the test adds its hotkeys. */
  function Table(): seq<Entry<Action>> {
    [ Entry(Hotkey(KeyEnter, NoModifier, AllModifiers), DoNewline),
      Entry(Hotkey(KeyTab, NoModifier, NoModifier), DoTab),
      Entry(Hotkey(KeyTab, ShiftModifier, ShiftModifier), DecreaseSelectionIndent),
      Entry(Hotkey(KeyHome, NoModifier, NoModifier), DoMoveHome),
      Entry(Hotkey(KeyHome, ShiftModifier, ShiftModifier), DoSelectHome),
      Entry(Hotkey(KeyD, ControlModifier, ControlModifier), DuplicateLine),
      Entry(Hotkey(Key0, ControlModifier, ControlModifier), ResetFontZoom),
      Entry(Hotkey(KeyLeft, ControlModifier | ShiftModifier, ControlModifier | ShiftModifier), DoNoop),
      Entry(Hotkey(KeyRight, ControlModifier | ShiftModifier, ControlModifier | ShiftModifier), DoNoop),
      Entry(Hotkey(KeyInsert, ControlModifier, ControlModifier), DoNoop),
      Entry(Hotkey(KeyK, ControlModifier, ControlModifier), DoNoop),
      Entry(Hotkey(KeyInsert, ShiftModifier, ShiftModifier), DoNoop),
      Entry(Hotkey(KeyDelete, ShiftModifier, ShiftModifier), DoNoop)
    ]
  }

  /** Enter: the score of every entry, in table order. */
  lemma Scores0()
    ensures Scores(Table(), KeyEvent(KeyEnter, NoModifier)) == [0, -1, -1, -1, -1, -1, -1, -1, -1, -1, -1, -1, -1]
  {}

  lemma Lookup0()
    ensures Handler(Table(), KeyEvent(KeyEnter, NoModifier)) == Some(DoNewline)
  {
    assert Table()[0].handler == DoNewline;
    assert Scan([0, -1, -1, -1, -1, -1, -1, -1, -1, -1, -1, -1, -1], 0, None, -1) == Some(0);
    Scores0();
    HandlerOfScan(Table(), KeyEvent(KeyEnter, NoModifier), Some(0));
  }

  /** Tab: the score of every entry, in table order. */
  lemma Scores1()
    ensures Scores(Table(), KeyEvent(KeyTab, NoModifier)) == [-1, 0, -1, -1, -1, -1, -1, -1, -1, -1, -1, -1, -1]
  {}

  lemma Lookup1()
    ensures Handler(Table(), KeyEvent(KeyTab, NoModifier)) == Some(DoTab)
  {
    assert Table()[1].handler == DoTab;
    assert Scan([-1, 0, -1, -1, -1, -1, -1, -1, -1, -1, -1, -1, -1], 0, None, -1) == Some(1);
    Scores1();
    HandlerOfScan(Table(), KeyEvent(KeyTab, NoModifier), Some(1));
  }

  /** Shift+Tab: the score of every entry, in table order. */
  lemma Scores2()
    ensures Scores(Table(), KeyEvent(KeyTab, ShiftModifier)) == [-1, -1, 0, -1, -1, -1, -1, -1, -1, -1, -1, -1, -1]
  {}

  lemma Lookup2()
    ensures Handler(Table(), KeyEvent(KeyTab, ShiftModifier)) == Some(DecreaseSelectionIndent)
  {
    assert Table()[2].handler == DecreaseSelectionIndent;
    assert Scan([-1, -1, 0, -1, -1, -1, -1, -1, -1, -1, -1, -1, -1], 0, None, -1) == Some(2);
    Scores2();
    HandlerOfScan(Table(), KeyEvent(KeyTab, ShiftModifier), Some(2));
  }

  /** Home: the score of every entry, in table order. */
  lemma Scores3()
    ensures Scores(Table(), KeyEvent(KeyHome, NoModifier)) == [-1, -1, -1, 0, -1, -1, -1, -1, -1, -1, -1, -1, -1]
  {}

  lemma Lookup3()
    ensures Handler(Table(), KeyEvent(KeyHome, NoModifier)) == Some(DoMoveHome)
  {
    assert Table()[3].handler == DoMoveHome;
    assert Scan([-1, -1, -1, 0, -1, -1, -1, -1, -1, -1, -1, -1, -1], 0, None, -1) == Some(3);
    Scores3();
    HandlerOfScan(Table(), KeyEvent(KeyHome, NoModifier), Some(3));
  }

  /** Shift+Home: the score of every entry, in table order. */
  lemma Scores4()
    ensures Scores(Table(), KeyEvent(KeyHome, ShiftModifier)) == [-1, -1, -1, -1, 0, -1, -1, -1, -1, -1, -1, -1, -1]
  {}

  lemma Lookup4()
    ensures Handler(Table(), KeyEvent(KeyHome, ShiftModifier)) == Some(DoSelectHome)
  {
    assert Table()[4].handler == DoSelectHome;
    assert Scan([-1, -1, -1, -1, 0, -1, -1, -1, -1, -1, -1, -1, -1], 0, None, -1) == Some(4);
    Scores4();
    HandlerOfScan(Table(), KeyEvent(KeyHome, ShiftModifier), Some(4));
  }

  /** Ctrl+D: the score of every entry, in table order. */
  lemma Scores5()
    ensures Scores(Table(), KeyEvent(KeyD, ControlModifier)) == [-1, -1, -1, -1, -1, 0, -1, -1, -1, -1, -1, -1, -1]
  {}

  lemma Lookup5()
    ensures Handler(Table(), KeyEvent(KeyD, ControlModifier)) == Some(DuplicateLine)
  {
    assert Table()[5].handler == DuplicateLine;
    assert Scan([-1, -1, -1, -1, -1, 0, -1, -1, -1, -1, -1, -1, -1], 0, None, -1) == Some(5);
    Scores5();
    HandlerOfScan(Table(), KeyEvent(KeyD, ControlModifier), Some(5));
  }

  /** Ctrl+0: the score of every entry, in table order. */
  lemma Scores6()
    ensures Scores(Table(), KeyEvent(Key0, ControlModifier)) == [-1, -1, -1, -1, -1, -1, 0, -1, -1, -1, -1, -1, -1]
  {}

  lemma Lookup6()
    ensures Handler(Table(), KeyEvent(Key0, ControlModifier)) == Some(ResetFontZoom)
  {
    assert Table()[6].handler == ResetFontZoom;
    assert Scan([-1, -1, -1, -1, -1, -1, 0, -1, -1, -1, -1, -1, -1], 0, None, -1) == Some(6);
    Scores6();
    HandlerOfScan(Table(), KeyEvent(Key0, ControlModifier), Some(6));
  }

  /** Ctrl+Shift+Left: the score of every entry, in table order. */
  lemma Scores7()
    ensures Scores(Table(), KeyEvent(KeyLeft, ControlModifier | ShiftModifier)) == [-1, -1, -1, -1, -1, -1, -1, 0, -1, -1, -1, -1, -1]
  {}

  lemma Lookup7()
    ensures Handler(Table(), KeyEvent(KeyLeft, ControlModifier | ShiftModifier)) == Some(DoNoop)
  {
    assert Table()[7].handler == DoNoop;
    assert Scan([-1, -1, -1, -1, -1, -1, -1, 0, -1, -1, -1, -1, -1], 0, None, -1) == Some(7);
    Scores7();
    HandlerOfScan(Table(), KeyEvent(KeyLeft, ControlModifier | ShiftModifier), Some(7));
  }

  /** Ctrl+Shift+Right: the score of every entry, in table order. */
  lemma Scores8()
    ensures Scores(Table(), KeyEvent(KeyRight, ControlModifier | ShiftModifier)) == [-1, -1, -1, -1, -1, -1, -1, -1, 0, -1, -1, -1, -1]
  {}

  lemma Lookup8()
    ensures Handler(Table(), KeyEvent(KeyRight, ControlModifier | ShiftModifier)) == Some(DoNoop)
  {
    assert Table()[8].handler == DoNoop;
    assert Scan([-1, -1, -1, -1, -1, -1, -1, -1, 0, -1, -1, -1, -1], 0, None, -1) == Some(8);
    Scores8();
    HandlerOfScan(Table(), KeyEvent(KeyRight, ControlModifier | ShiftModifier), Some(8));
  }

  /** Ctrl+Insert: the score of every entry, in table order. */
  lemma Scores9()
    ensures Scores(Table(), KeyEvent(KeyInsert, ControlModifier)) == [-1, -1, -1, -1, -1, -1, -1, -1, -1, 0, -1, -1, -1]
  {}

  lemma Lookup9()
    ensures Handler(Table(), KeyEvent(KeyInsert, ControlModifier)) == Some(DoNoop)
  {
    assert Table()[9].handler == DoNoop;
    assert Scan([-1, -1, -1, -1, -1, -1, -1, -1, -1, 0, -1, -1, -1], 0, None, -1) == Some(9);
    Scores9();
    HandlerOfScan(Table(), KeyEvent(KeyInsert, ControlModifier), Some(9));
  }

  /** Ctrl+K: the score of every entry, in table order. */
  lemma Scores10()
    ensures Scores(Table(), KeyEvent(KeyK, ControlModifier)) == [-1, -1, -1, -1, -1, -1, -1, -1, -1, -1, 0, -1, -1]
  {}

  lemma Lookup10()
    ensures Handler(Table(), KeyEvent(KeyK, ControlModifier)) == Some(DoNoop)
  {
    assert Table()[10].handler == DoNoop;
    assert Scan([-1, -1, -1, -1, -1, -1, -1, -1, -1, -1, 0, -1, -1], 0, None, -1) == Some(10);
    Scores10();
    HandlerOfScan(Table(), KeyEvent(KeyK, ControlModifier), Some(10));
  }

  /** Shift+Insert: the score of every entry, in table order. */
  lemma Scores11()
    ensures Scores(Table(), KeyEvent(KeyInsert, ShiftModifier)) == [-1, -1, -1, -1, -1, -1, -1, -1, -1, -1, -1, 0, -1]
  {}

  lemma Lookup11()
    ensures Handler(Table(), KeyEvent(KeyInsert, ShiftModifier)) == Some(DoNoop)
  {
    assert Table()[11].handler == DoNoop;
    assert Scan([-1, -1, -1, -1, -1, -1, -1, -1, -1, -1, -1, 0, -1], 0, None, -1) == Some(11);
    Scores11();
    HandlerOfScan(Table(), KeyEvent(KeyInsert, ShiftModifier), Some(11));
  }

  /** Shift+Delete: the score of every entry, in table order. */
  lemma Scores12()
    ensures Scores(Table(), KeyEvent(KeyDelete, ShiftModifier)) == [-1, -1, -1, -1, -1, -1, -1, -1, -1, -1, -1, -1, 0]
  {}

  lemma Lookup12()
    ensures Handler(Table(), KeyEvent(KeyDelete, ShiftModifier)) == Some(DoNoop)
  {
    assert Table()[12].handler == DoNoop;
    assert Scan([-1, -1, -1, -1, -1, -1, -1, -1, -1, -1, -1, -1, 0], 0, None, -1) == Some(12);
    Scores12();
    HandlerOfScan(Table(), KeyEvent(KeyDelete, ShiftModifier), Some(12));
  }

  /** Ctrl+Shift+Tab: the score of every entry, in table order. */
  lemma Scores13()
    ensures Scores(Table(), KeyEvent(KeyTab, ControlModifier | ShiftModifier)) == [-1, -1, -1, -1, -1, -1, -1, -1, -1, -1, -1, -1, -1]
  {}

  lemma Lookup13()
    ensures Handler(Table(), KeyEvent(KeyTab, ControlModifier | ShiftModifier)) == None
  {
    assert Scan([-1, -1, -1, -1, -1, -1, -1, -1, -1, -1, -1, -1, -1], 0, None, -1) == None;
    Scores13();
    HandlerOfScan(Table(), KeyEvent(KeyTab, ControlModifier | ShiftModifier), None);
  }

  /** Ctrl+Shift+Home: the score of every entry, in table order. */
  lemma Scores14()
    ensures Scores(Table(), KeyEvent(KeyHome, ControlModifier | ShiftModifier)) == [-1, -1, -1, -1, -1, -1, -1, -1, -1, -1, -1, -1, -1]
  {}

  lemma Lookup14()
    ensures Handler(Table(), KeyEvent(KeyHome, ControlModifier | ShiftModifier)) == None
  {
    assert Scan([-1, -1, -1, -1, -1, -1, -1, -1, -1, -1, -1, -1, -1], 0, None, -1) == None;
    Scores14();
    HandlerOfScan(Table(), KeyEvent(KeyHome, ControlModifier | ShiftModifier), None);
  }

  /** Ctrl+A: the score of every entry, in table order. */
  lemma Scores15()
    ensures Scores(Table(), KeyEvent(KeyA, ControlModifier)) == [-1, -1, -1, -1, -1, -1, -1, -1, -1, -1, -1, -1, -1]
  {}

  lemma Lookup15()
    ensures Handler(Table(), KeyEvent(KeyA, ControlModifier)) == None
  {
    assert Scan([-1, -1, -1, -1, -1, -1, -1, -1, -1, -1, -1, -1, -1], 0, None, -1) == None;
    Scores15();
    HandlerOfScan(Table(), KeyEvent(KeyA, ControlModifier), None);
  }
}
