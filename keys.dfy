/**
 * Key events as the popup's key-press handler sees them, and the ordered
 * decision list that decides what a key does.
 */
module KeyPolicy {

  /** The modifier bits of a key event that the handler looks at. */
  datatype Modifiers = Modifiers(shift: bool, control: bool, alt: bool, meta: bool, capsLock: bool)

  /** The key's name (`Gdk.keyval_name`), its text (`event.string`) and its state. */
  datatype KeyEvent = KeyEvent(name: string, text: string, state: Modifiers)

  /** The `tab_behaviour` preference. */
  datatype TabBehaviour = TabSelects | TabCycles

  /** The plugin preferences, read afresh on every key press. */
  datatype Preferences = Preferences(tabBehaviour: TabBehaviour, spaceSelection: bool)

  /** `SHIFT`: the names of the Shift keys themselves. */
  const ShiftKeys: set<string> := {"Shift_L", "Shift_R"}

  /** `IGNORE_KEYS`, including the function keys F1 to F12. */
  const IgnoreKeys: set<string> :=
    {"Up", "Down", "Page_Up", "Page_Down", "Left", "Right",
     "Home", "End", "Menu", "Scroll_Lock", "Alt_L", "Alt_R",
     "VoidSymbol", "Meta_L", "Meta_R", "Num_Lock", "Insert",
     "Delete", "Pause", "Control_L", "Control_R",
     "ISO_Level3_Shift", "Caps_Lock",
     "F1", "F2", "F3", "F4", "F5", "F6", "F7", "F8", "F9", "F10", "F11", "F12"}

  /** The key names the dispatcher tests before it treats a key as text. */
  const DispatchedKeys: set<string> :=
    {"Escape", "BackSpace", "space", "Return", "Tab", "ISO_Left_Tab", "Shift_L", "Shift_R"}

  /** The event state meets `KEYSTATES`: Control, Meta, Alt (Mod1) or Lock. */
  predicate HasKeystate(m: Modifiers)
  {
    m.control || m.meta || m.alt || m.capsLock
  }

  /** What the handler does with a key, one case per branch of its decision list. */
  datatype Action =
    | Ignore           // a key in IGNORE_KEYS
    | Cancel           // Escape
    | Erase            // BackSpace
    | SelectWithSpace  // Shift+space with space_selection on
    | Select           // Return
    | InsertSpace      // space
    | TabSelect        // Tab or ISO_Left_Tab with tab_behaviour 'select'
    | TabCycle         // Tab or ISO_Left_Tab with tab_behaviour 'cycle'
    | ShiftOnly        // Shift_L or Shift_R
    | Literal          // any other key, with Shift or with no KEYSTATES modifier
    | Swallow          // any other key, with a KEYSTATES modifier and no Shift

  /** The decision list, tested in the handler's order. */
  function Classify(ev: KeyEvent, prefs: Preferences): (a: Action)
    ensures a == Ignore <==> ev.name in IgnoreKeys
    ensures a == SelectWithSpace <==> ev.name == "space" && ev.state.shift && prefs.spaceSelection
    ensures a == InsertSpace <==> ev.name == "space" && !(ev.state.shift && prefs.spaceSelection)
    ensures a == Literal <==>
      ev.name !in IgnoreKeys && ev.name !in DispatchedKeys && (ev.state.shift || !HasKeystate(ev.state))
    ensures a == Swallow <==>
      ev.name !in IgnoreKeys && ev.name !in DispatchedKeys && !ev.state.shift && HasKeystate(ev.state)
  {
    if ev.name in IgnoreKeys then Ignore
    else if ev.name == "Escape" then Cancel
    else if ev.name == "BackSpace" then Erase
    else if ev.state.shift && ev.name == "space" && prefs.spaceSelection then SelectWithSpace
    else if ev.name == "Return" then Select
    else if ev.name == "space" then InsertSpace
    else if ev.name == "Tab" || ev.name == "ISO_Left_Tab" then
      (if prefs.tabBehaviour == TabSelects then TabSelect else TabCycle)
    else if ev.name in ShiftKeys then ShiftOnly
    else if ev.state.shift || !HasKeystate(ev.state) then Literal
    else Swallow
  }

  /**
   * The named keys of the decision list: Escape cancels, BackSpace erases,
   * Return selects, Tab and ISO_Left_Tab select or cycle as the preference
   * says, and the Shift keys alone do nothing.
   */
  lemma NamedKeyActions(ev: KeyEvent, prefs: Preferences)
    ensures Classify(ev, prefs) == Cancel <==> ev.name == "Escape"
    ensures Classify(ev, prefs) == Erase <==> ev.name == "BackSpace"
    ensures Classify(ev, prefs) == Select <==> ev.name == "Return"
    ensures Classify(ev, prefs) == TabSelect <==>
      ev.name in {"Tab", "ISO_Left_Tab"} && prefs.tabBehaviour == TabSelects
    ensures Classify(ev, prefs) == TabCycle <==>
      ev.name in {"Tab", "ISO_Left_Tab"} && prefs.tabBehaviour == TabCycles
    ensures Classify(ev, prefs) == ShiftOnly <==> ev.name in ShiftKeys
  {
    if ev.name in DispatchedKeys {
      assert ev.name !in IgnoreKeys;
    }
  }
}
