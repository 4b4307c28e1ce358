/**
 * One completion session as a value, and the reference transitions of
 * `AutoCompletion`: start, refilter, commit and one key press. The class in
 * module TagComplete is proved to change its fields exactly as these say;
 * the lemmas here state what the transitions promise.
 */
module CompletionSession {
  import opened Wrappers
  import opened Text
  import opened Sorting
  import opened CandidateStore
  import opened KeyPolicy

  /** What is fixed for a session: the orderings, the activation text and `char_insert`. */
  datatype Config = Config(cf: TextOrder, activationChar: string, charInsert: bool)

  /**
   * The state of a session: the text buffer split at the cursor, the text
   * typed since activation, the list store, the selected row of the sorted
   * view, whether the popup is shown, and every `tag-selected` value emitted.
   */
  datatype Session = Session(
    before: string,
    after: string,
    enteredText: string,
    rows: seq<Row>,
    selected: Option<nat>,
    open: bool,
    emitted: seq<string>)

  /**
   * What the key-press handler gives back: None (the key goes on to the
   * editor), True (the key is consumed), or the IndexError it raises.
   */
  datatype HandlerResult = Propagate | Consumed | Raised

  datatype Step = Step(session: Session, result: HandlerResult)

  /**
   * The session invariant: the collation is a total preorder, a selected row
   * exists in the view, and while the popup is shown the entered text is what
   * stands just before the cursor.
   */
  ghost predicate Valid(c: Config, s: Session)
  {
    && TotalPreorder(c.cf.le)
    && (s.selected.Some? ==> s.selected.value < |View(c.cf, s.rows)|)
    && (s.open ==> IsSuffix(s.enteredText, s.before))
  }

  /** The tag in the selected row, if a row is selected. */
  function SelectedData(c: Config, s: Session): Option<string>
  {
    match s.selected
    case None => None
    case Some(k) =>
      var view := View(c.cf, s.rows);
      if k < |view| then Some(view[k]) else None
  }

  /**
   * `completion`: clears the entered text, fills the store (the new tree view
   * has nothing selected), inserts the activation text when asked to, and
   * shows the popup.
   */
  function Started(c: Config, s: Session, tags: seq<string>): Session
  {
    s.(enteredText := [],
       rows := Filled(tags),
       selected := None,
       before := if c.activationChar != [] && c.charInsert then s.before + c.activationChar else s.before,
       open := true)
  }

  /**
   * `update_completion_list`: refilters every row and selects by the policy;
   * rows that leave the view leave the selection, so an empty view has none.
   */
  function Refreshed(c: Config, s: Session): Session
  {
    var rows := Refiltered(c.cf, s.rows, s.enteredText);
    s.(rows := rows, selected := MatchPath(c.cf, View(c.cf, rows), s.enteredText))
  }

  /**
   * `insert_data`: with a selected row, replaces the entered text before the
   * cursor by the tag and `space`, and emits the tag; otherwise nothing.
   */
  function Committed(c: Config, s: Session, space: string): Session
  {
    match SelectedData(c, s)
    case None => s
    case Some(tag) => s.(before := Splice(s.before, |s.enteredText|, tag + space), emitted := s.emitted + [tag])
  }

  /** The popup is destroyed. */
  function Closed(s: Session): Session
  {
    s.(open := false)
  }

  /** `do_row_activated`: commit, then close. */
  function RowActivation(c: Config, s: Session): Session
  {
    Closed(Committed(c, s, []))
  }

  /**
   * BackSpace: removes the character before the cursor; if it is the
   * activation text the popup closes, otherwise the entered text loses its
   * last character and the store is refiltered.
   */
  function Erased(c: Config, s: Session): Step
  {
    var erased := s.(before := DropLast(s.before));
    if LastChar(s.before) == c.activationChar then Step(Closed(erased), Propagate)
    else Step(Refreshed(c, erased.(enteredText := DropLast(s.enteredText))), Consumed)
  }

  /** A text key: `text` goes in at the cursor and onto the entered text, then a refilter. */
  function Typed(c: Config, s: Session, text: string): Session
  {
    Refreshed(c, s.(before := s.before + text, enteredText := s.enteredText + text))
  }

  /**
   * Tab in cycle mode: selects the next path. With nothing selected the
   * handler raises IndexError; a path past the last row selects nothing new.
   */
  function Cycled(c: Config, s: Session): Step
  {
    match s.selected
    case None => Step(s, Raised)
    case Some(k) =>
      if k + 1 < |View(c.cf, s.rows)| then Step(s.(selected := Some(k + 1)), Consumed)
      else Step(s, Consumed)
  }

  /** `do_key_press`: one key event, by the branch the decision list picks. */
  function KeyStep(c: Config, s: Session, ev: KeyEvent, prefs: Preferences): Step
  {
    match Classify(ev, prefs)
    case Ignore => Step(s, Propagate)
    case Cancel => Step(Closed(s), Propagate)
    case Erase => Erased(c, s)
    case SelectWithSpace => Step(Closed(Committed(c, s, " ")), Consumed)
    case Select => Step(Closed(Committed(c, s, [])), Consumed)
    case InsertSpace => Step(Closed(s.(before := s.before + " ")), Consumed)
    case TabSelect => Step(Closed(Committed(c, s, [])), Propagate)
    case TabCycle => Cycled(c, s)
    case ShiftOnly => Step(s, Propagate)
    case Literal => Step(Typed(c, s, ev.text), Consumed)
    case Swallow => Step(s, Consumed)
  }

  // ---------------------------------------------------------------------
  // Start and refilter

  /**
   * A started session shows the popup over the whole tag list (duplicates
   * kept, sorted by the collation) with empty entered text and no selection.
   */
  lemma StartShowsAllTags(c: Config, s: Session, tags: seq<string>)
    requires TotalPreorder(c.cf.le)
    ensures Valid(c, Started(c, s, tags))
    ensures Started(c, s, tags).open && Started(c, s, tags).enteredText == []
    ensures Visible(Started(c, s, tags).rows) == tags
    ensures multiset(View(c.cf, Started(c, s, tags).rows)) == multiset(tags)
    ensures SortedBy(c.cf.le, View(c.cf, Started(c, s, tags).rows))
    ensures Started(c, s, tags).emitted == s.emitted && Started(c, s, tags).after == s.after
    ensures Started(c, s, tags).selected == None
    ensures Started(c, s, tags).before ==
      if c.activationChar != [] && c.charInsert then s.before + c.activationChar else s.before
  {
    FilledShowsAll(tags);
    FilledView(c.cf, tags);
  }

  /**
   * After a refilter the view is exactly the stored tags containing the
   * entered text (case-insensitively), and the selection follows the policy.
   */
  lemma RefreshSelectsByPolicy(c: Config, s: Session, x: string)
    ensures var r := Refreshed(c, s);
      && r.rows == Refiltered(c.cf, s.rows, s.enteredText)
      && (x in View(c.cf, r.rows) <==>
            (exists i :: 0 <= i < |s.rows| && s.rows[i].data == x) && Matches(c.cf, s.enteredText, x))
      && r.selected == MatchPath(c.cf, View(c.cf, r.rows), s.enteredText)
      && (View(c.cf, r.rows) == [] <==> r.selected.None?)
  {
    ViewAfterRefilter(c.cf, s.rows, s.enteredText, x);
    SelectionPolicy(c.cf, View(c.cf, Refreshed(c, s).rows), s.enteredText);
  }

  /** A refilter selects a row of the new view, or none. */
  lemma RefreshSelectsInView(c: Config, s: Session)
    ensures var r := Refreshed(c, s);
      r.selected.Some? ==> r.selected.value < |View(c.cf, r.rows)|
  {
    var r := Refreshed(c, s);
    SelectionPolicy(c.cf, View(c.cf, r.rows), s.enteredText);
  }

  /** Refreshing twice is refreshing once. */
  lemma RefreshIdempotent(c: Config, s: Session)
    ensures Refreshed(c, Refreshed(c, s)) == Refreshed(c, s)
  {
    RefilterForgetsVisibility(c.cf, s.rows, s.rows, s.enteredText);
  }

  // ---------------------------------------------------------------------
  // Commit

  /**
   * With a selected row, committing replaces the entered text just before
   * the cursor by the tag and `space`, leaves the text after the cursor, and
   * emits the tag (without `space`) once.
   */
  lemma CommitReplacesEnteredText(c: Config, s: Session, space: string, tag: string)
    requires Valid(c, s) && s.open
    requires SelectedData(c, s) == Some(tag)
    ensures var prefix := s.before[..|s.before| - |s.enteredText|];
      && s.before == prefix + s.enteredText
      && Committed(c, s, space).before == prefix + tag + space
      && Committed(c, s, space).after == s.after
      && Committed(c, s, space).emitted == s.emitted + [tag]
  {
    var prefix := s.before[..|s.before| - |s.enteredText|];
    assert s.before == prefix + s.enteredText;
    SpliceReplacesSuffix(prefix, s.enteredText, tag + space);
  }

  /** Without a selected row, committing changes nothing and emits nothing. */
  lemma CommitWithoutSelection(c: Config, s: Session, space: string)
    requires SelectedData(c, s).None?
    ensures Committed(c, s, space) == s
  {
  }

  /** An empty view has no selected row, so a commit there is a no-op. */
  lemma EmptyViewCommitsNothing(c: Config, s: Session, space: string)
    requires Valid(c, s)
    requires View(c.cf, s.rows) == []
    ensures Committed(c, s, space) == s
  {
  }

  // ---------------------------------------------------------------------
  // One key press

  /** BackSpace keeps the session invariant. */
  lemma ErasedKeepsValid(c: Config, s: Session)
    requires Valid(c, s) && s.open
    ensures Valid(c, Erased(c, s).session)
  {
    if LastChar(s.before) != c.activationChar {
      DropLastKeepsSuffix(s.enteredText, s.before);
      RefreshSelectsInView(c, s.(before := DropLast(s.before), enteredText := DropLast(s.enteredText)));
    }
  }

  /** Typing keeps the session invariant. */
  lemma TypedKeepsValid(c: Config, s: Session, text: string)
    requires Valid(c, s) && s.open
    ensures Valid(c, Typed(c, s, text))
  {
    AppendKeepsSuffix(s.enteredText, s.before, text);
    RefreshSelectsInView(c, s.(before := s.before + text, enteredText := s.enteredText + text));
  }

  /** Every key press keeps the session invariant. */
  lemma KeyStepKeepsValid(c: Config, s: Session, ev: KeyEvent, prefs: Preferences)
    requires Valid(c, s) && s.open
    ensures Valid(c, KeyStep(c, s, ev, prefs).session)
  {
    match Classify(ev, prefs)
    case Erase =>
      ErasedKeepsValid(c, s);
    case Literal =>
      TypedKeepsValid(c, s, ev.text);
    case _ =>
  }

  /** Row activation keeps the session invariant. */
  lemma RowActivationKeepsValid(c: Config, s: Session)
    requires Valid(c, s)
    ensures Valid(c, RowActivation(c, s))
    ensures !RowActivation(c, s).open
  {
  }

  /**
   * Activating a row commits exactly as Return does: with a selected row the
   * entered text before the cursor becomes the tag, which is emitted once;
   * without one nothing changes. The popup closes in every case.
   */
  lemma RowActivationCommits(c: Config, s: Session)
    ensures var t := RowActivation(c, s);
      && !t.open
      && t.enteredText == s.enteredText
      && t.rows == s.rows
      && t.selected == s.selected
      && t.after == s.after
      && (SelectedData(c, s).None? ==> t.before == s.before && t.emitted == s.emitted)
      && (SelectedData(c, s).Some? ==> t.emitted == s.emitted + [SelectedData(c, s).value])
    ensures Valid(c, s) && s.open && SelectedData(c, s).Some? ==>
      RowActivation(c, s).before == s.before[..|s.before| - |s.enteredText|] + SelectedData(c, s).value
  {
    if Valid(c, s) && s.open && SelectedData(c, s).Some? {
      CommitReplacesEnteredText(c, s, [], SelectedData(c, s).value);
      assert SelectedData(c, s).value + [] == SelectedData(c, s).value;
    }
  }

  /** No key press touches the text after the cursor. */
  lemma KeyStepKeepsTextAfterCursor(c: Config, s: Session, ev: KeyEvent, prefs: Preferences)
    ensures KeyStep(c, s, ev, prefs).session.after == s.after
  {
  }

  /**
   * A key the decision list treats as text, pressed with Shift or with none
   * of Control, Meta, Alt and Lock, goes into the buffer and the entered text
   * and refilters, leaving the popup open. Shift wins over the others.
   */
  lemma LiteralKeyTypes(c: Config, s: Session, ev: KeyEvent, prefs: Preferences)
    requires ev.name !in IgnoreKeys && ev.name !in DispatchedKeys
    requires ev.state.shift || !HasKeystate(ev.state)
    ensures var t := KeyStep(c, s, ev, prefs);
      && t.result == Consumed
      && t.session.before == s.before + ev.text
      && t.session.enteredText == s.enteredText + ev.text
      && t.session.open == s.open
      && t.session.emitted == s.emitted
      && t.session.rows == Refiltered(c.cf, s.rows, s.enteredText + ev.text)
      && t.session.selected == MatchPath(c.cf, View(c.cf, t.session.rows), t.session.enteredText)
  {
  }

  /**
   * The same key with Control, Meta, Alt or Lock and no Shift is consumed
   * and changes nothing: the popup stays open.
   */
  lemma ModifiedKeyIsSwallowed(c: Config, s: Session, ev: KeyEvent, prefs: Preferences)
    requires ev.name !in IgnoreKeys && ev.name !in DispatchedKeys
    requires !ev.state.shift && HasKeystate(ev.state)
    ensures KeyStep(c, s, ev, prefs) == Step(s, Consumed)
  {
  }

  /**
   * BackSpace removes exactly the character before the cursor. If it was the
   * activation text the popup closes and the entered text stays; otherwise
   * the entered text loses its last character and the store is refiltered.
   */
  lemma BackSpaceErasesOne(c: Config, s: Session, ev: KeyEvent, prefs: Preferences)
    requires ev.name == "BackSpace"
    ensures var t := KeyStep(c, s, ev, prefs).session;
      && (s.before != [] ==> s.before == t.before + [s.before[|s.before| - 1]])
      && (s.before == [] ==> t.before == [])
      && t.emitted == s.emitted
      && (LastChar(s.before) == c.activationChar ==>
            !t.open && t.enteredText == s.enteredText && t.rows == s.rows)
      && (LastChar(s.before) != c.activationChar ==>
            && t.open == s.open
            && t.enteredText == DropLast(s.enteredText)
            && t.rows == Refiltered(c.cf, s.rows, t.enteredText)
            && t.selected == MatchPath(c.cf, View(c.cf, t.rows), t.enteredText))
    ensures var t := KeyStep(c, s, ev, prefs);
      && (LastChar(s.before) == c.activationChar ==> t.result == Propagate && t.session.selected == s.selected)
      && (LastChar(s.before) != c.activationChar ==> t.result == Consumed)
  {
    assert "BackSpace" !in IgnoreKeys;
  }

  /**
   * Return, Tab in select mode and Shift+space with `space_selection` commit
   * when a row is selected and close the popup in every case. The commit
   * replaces the entered text before the cursor by the tag, followed by a
   * space for Shift+space; only Tab lets the key through to the editor.
   */
  lemma SelectingKeysAlwaysClose(c: Config, s: Session, ev: KeyEvent, prefs: Preferences)
    requires Classify(ev, prefs) in {Select, TabSelect, SelectWithSpace}
    ensures var t := KeyStep(c, s, ev, prefs);
      && !t.session.open
      && t.result == (if Classify(ev, prefs) == TabSelect then Propagate else Consumed)
      && t.session.enteredText == s.enteredText
      && t.session.rows == s.rows
      && t.session.selected == s.selected
      && t.session.after == s.after
      && (SelectedData(c, s).None? ==> t.session.before == s.before && t.session.emitted == s.emitted)
      && (SelectedData(c, s).Some? ==> t.session.emitted == s.emitted + [SelectedData(c, s).value])
    ensures Valid(c, s) && s.open && SelectedData(c, s).Some? ==>
      KeyStep(c, s, ev, prefs).session.before ==
        s.before[..|s.before| - |s.enteredText|] + SelectedData(c, s).value
          + (if Classify(ev, prefs) == SelectWithSpace then " " else [])
  {
    if Valid(c, s) && s.open && SelectedData(c, s).Some? {
      CommitReplacesEnteredText(c, s, if Classify(ev, prefs) == SelectWithSpace then " " else [], SelectedData(c, s).value);
    }
  }

  /** A plain space only types " " and closes: it never commits. */
  lemma PlainSpaceNeverCommits(c: Config, s: Session, ev: KeyEvent, prefs: Preferences)
    requires ev.name == "space" && !(ev.state.shift && prefs.spaceSelection)
    ensures KeyStep(c, s, ev, prefs) == Step(s.(before := s.before + " ", open := false), Consumed)
  {
  }

  /** Escape closes and changes nothing else. */
  lemma EscapeCancels(c: Config, s: Session, ev: KeyEvent, prefs: Preferences)
    requires ev.name == "Escape"
    ensures KeyStep(c, s, ev, prefs) == Step(s.(open := false), Propagate)
  {
    assert "Escape" !in IgnoreKeys;
  }

  /** Ignored keys and the Shift keys themselves change nothing. */
  lemma NoOpKeys(c: Config, s: Session, ev: KeyEvent, prefs: Preferences)
    requires ev.name in IgnoreKeys || ev.name in ShiftKeys
    ensures KeyStep(c, s, ev, prefs) == Step(s, Propagate)
  {
  }

  /**
   * Tab in cycle mode moves the selection one row down (staying on the last
   * row) and leaves the popup open; with nothing selected it raises and
   * changes nothing.
   */
  lemma TabCycleMovesDown(c: Config, s: Session, ev: KeyEvent, prefs: Preferences)
    requires ev.name in {"Tab", "ISO_Left_Tab"} && prefs.tabBehaviour == TabCycles
    ensures var t := KeyStep(c, s, ev, prefs);
      && t.session == s.(selected := t.session.selected)
      && (s.selected.None? ==> t.result == Raised && t.session == s)
      && (s.selected.Some? && s.selected.value + 1 < |View(c.cf, s.rows)| ==>
            t.session.selected == Some(s.selected.value + 1))
      && (s.selected.Some? && s.selected.value + 1 >= |View(c.cf, s.rows)| ==>
            t.session.selected == s.selected)
      && (s.selected.Some? ==> t.result == Consumed)
  {
  }

  /**
   * A tag is emitted only by a selecting key, only the selected tag, and at
   * most once per key press.
   */
  lemma EmitsOnlyOnSelection(c: Config, s: Session, ev: KeyEvent, prefs: Preferences)
    ensures var t := KeyStep(c, s, ev, prefs).session;
      || t.emitted == s.emitted
      || (&& Classify(ev, prefs) in {Select, TabSelect, SelectWithSpace}
          && SelectedData(c, s).Some?
          && t.emitted == s.emitted + [SelectedData(c, s).value])
  {
  }

  // ---------------------------------------------------------------------
  // Sequences of key presses

  /** Two text keys in a row type both, in order, and leave the popup as it was. */
  lemma TypingTwoKeys(c: Config, s: Session, prefs: Preferences, a: KeyEvent, b: KeyEvent)
    requires a.name !in IgnoreKeys && a.name !in DispatchedKeys && (a.state.shift || !HasKeystate(a.state))
    requires b.name !in IgnoreKeys && b.name !in DispatchedKeys && (b.state.shift || !HasKeystate(b.state))
    ensures var t := KeyStep(c, KeyStep(c, s, a, prefs).session, b, prefs).session;
      && t.enteredText == s.enteredText + a.text + b.text
      && t.before == s.before + a.text + b.text
      && t.open == s.open
      && t.emitted == s.emitted
  {
    LiteralKeyTypes(c, s, a, prefs);
    LiteralKeyTypes(c, KeyStep(c, s, a, prefs).session, b, prefs);
  }

  /** `n` presses of the same key, each applied to the session the previous one left. */
  function Presses(c: Config, s: Session, ev: KeyEvent, prefs: Preferences, n: nat): Session
    decreases n
  {
    if n == 0 then s else Presses(c, KeyStep(c, s, ev, prefs).session, ev, prefs, n - 1)
  }

  /**
   * While the text entered since a one-character activation text is not
   * empty, BackSpace takes its last character off both the buffer and the
   * entered text, so the activation text still stands before the entered text.
   */
  lemma BackSpaceInsideEnteredText(c: Config, s: Session, bs: KeyEvent, prefs: Preferences)
    requires bs.name == "BackSpace" && |c.activationChar| == 1
    requires s.enteredText != [] && s.enteredText[|s.enteredText| - 1] != c.activationChar[0]
    requires IsSuffix(c.activationChar + s.enteredText, s.before)
    ensures var t := KeyStep(c, s, bs, prefs).session;
      && t.open == s.open
      && t.enteredText == DropLast(s.enteredText)
      && t.before == DropLast(s.before)
      && IsSuffix(c.activationChar + t.enteredText, t.before)
      && t.emitted == s.emitted
  {
    var e := s.enteredText;
    var prefix := s.before[..|s.before| - |c.activationChar + e|];
    assert s.before == prefix + c.activationChar + DropLast(e) + [e[|e| - 1]];
    assert LastChar(s.before) == [e[|e| - 1]];
    BackSpaceErasesOne(c, s, bs, prefs);
    assert DropLast(s.before) == prefix + c.activationChar + DropLast(e);
  }

  /** With nothing entered, BackSpace removes the activation text and closes the popup. */
  lemma BackSpaceOverActivation(c: Config, s: Session, bs: KeyEvent, prefs: Preferences)
    requires bs.name == "BackSpace" && c.activationChar != []
    requires IsSuffix(c.activationChar, s.before) && |c.activationChar| == 1
    ensures var t := KeyStep(c, s, bs, prefs).session;
      && !t.open
      && t.before == DropLast(s.before)
      && t.enteredText == s.enteredText
      && t.emitted == s.emitted
  {
    assert LastChar(s.before) == c.activationChar;
    BackSpaceErasesOne(c, s, bs, prefs);
  }

  /** The goal of BackSpacesCancel: `n` + 1 presses close and erase `n` + 1 characters. */
  ghost predicate CancelledBy(c: Config, s: Session, bs: KeyEvent, prefs: Preferences, n: nat)
  {
    var t := Presses(c, s, bs, prefs, n + 1);
    && !t.open
    && |s.before| > n
    && t.before == s.before[..|s.before| - n - 1]
    && t.emitted == s.emitted
  }

  /** The inductive step of BackSpacesCancel: one BackSpace, then the rest. */
  lemma BackSpacesCancelStep(c: Config, s: Session, bs: KeyEvent, prefs: Preferences)
    requires bs.name == "BackSpace" && |c.activationChar| == 1
    requires s.enteredText != [] && s.enteredText[|s.enteredText| - 1] != c.activationChar[0]
    requires IsSuffix(c.activationChar + s.enteredText, s.before)
    requires CancelledBy(c, KeyStep(c, s, bs, prefs).session, bs, prefs, |s.enteredText| - 1)
    ensures CancelledBy(c, s, bs, prefs, |s.enteredText|)
  {
    var n := |s.enteredText|;
    var t := KeyStep(c, s, bs, prefs).session;
    BackSpaceInsideEnteredText(c, s, bs, prefs);
    assert Presses(c, s, bs, prefs, n + 1) == Presses(c, t, bs, prefs, n);
    assert t.before[..|t.before| - (n - 1) - 1] == s.before[..|s.before| - n - 1];
  }

  /**
   * After a one-character activation text and some typing that does not
   * repeat it, pressing BackSpace once per entered character and once more
   * erases the typing and the activation text, closes the popup on the last
   * press and emits nothing: the buffer is as it was before activation.
   */
  lemma {:induction false} BackSpacesCancel(c: Config, s: Session, bs: KeyEvent, prefs: Preferences)
    requires bs.name == "BackSpace" && |c.activationChar| == 1
    requires c.activationChar[0] !in s.enteredText
    requires IsSuffix(c.activationChar + s.enteredText, s.before)
    ensures CancelledBy(c, s, bs, prefs, |s.enteredText|)
    decreases |s.enteredText|
  {
    var n := |s.enteredText|;
    if n == 0 {
      BackSpaceOverActivation(c, s, bs, prefs);
    } else {
      var t := KeyStep(c, s, bs, prefs).session;
      BackSpaceInsideEnteredText(c, s, bs, prefs);
      assert c.activationChar[0] !in t.enteredText by {
        assert s.enteredText == t.enteredText + [s.enteredText[n - 1]];
      }
      BackSpacesCancel(c, t, bs, prefs);
      BackSpacesCancelStep(c, s, bs, prefs);
    }
  }

  /**
   * With nothing in the view, a plain space still types " " and closes, and
   * Return closes too; neither emits.
   */
  lemma EmptyViewClosingKeys(c: Config, s: Session, prefs: Preferences, space: KeyEvent, ret: KeyEvent)
    requires Valid(c, s) && View(c.cf, s.rows) == []
    requires space.name == "space" && !(space.state.shift && prefs.spaceSelection)
    requires ret.name == "Return"
    ensures var t := KeyStep(c, s, space, prefs).session;
      !t.open && t.before == s.before + " " && t.emitted == s.emitted
    ensures var t := KeyStep(c, s, ret, prefs).session;
      !t.open && t.before == s.before && t.emitted == s.emitted
  {
    assert "Return" !in IgnoreKeys;
  }
}
