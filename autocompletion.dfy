/**
 * `AutoCompletion` as an object: its fields are the text buffer around the
 * cursor, the entered text, the list store, the selected row of the popup's
 * sorted view, whether the popup is shown, and the `tag-selected` emissions.
 * Each method is proved to change the fields exactly as the matching
 * transition of module CompletionSession says.
 */
module TagComplete {
  import opened Wrappers
  import opened Text
  import opened Sorting
  import opened CandidateStore
  import opened KeyPolicy
  import opened CompletionSession

  class AutoCompletion {
    /** The orderings, `activation_char` and `char_insert`, fixed at construction. */
    const config: Config

    /** The text buffer of the text view, split at the cursor. */
    var before: string
    var after: string
    /** `entered_text` */
    var enteredText: string
    /** `real_model`: the (visible, tag) rows. */
    var rows: seq<Row>
    /** The row of the sorted view the tree selection holds. */
    var selected: Option<nat>
    /** The popover is shown. */
    var open: bool
    /** Every value `tag-selected` has been emitted with, oldest first. */
    var emitted: seq<string>

    /** The fields as a session value. */
    ghost function State(): Session
      reads this
    {
      Session(before, after, enteredText, rows, selected, open, emitted)
    }

    ghost predicate Valid()
      reads this
    {
      CompletionSession.Valid(config, State())
    }

    /**
     * `__init__`: nothing entered, an empty store, no popup. The text view's
     * buffer is passed in as the text before and after its cursor.
     */
    constructor (cf: TextOrder, activationChar: string, charInsert: bool, textBefore: string, textAfter: string)
      requires TotalPreorder(cf.le)
      ensures config == Config(cf, activationChar, charInsert)
      ensures State() == Session(textBefore, textAfter, [], [], None, false, [])
      ensures Valid()
    {
      config := Config(cf, activationChar, charInsert);
      before := textBefore;
      after := textAfter;
      enteredText := [];
      rows := [];
      selected := None;
      open := false;
      emitted := [];
    }

    /**
     * `fill_completion_list`: clears the store, which takes every row and so
     * the selection out of the view, then appends every tag as a visible row.
     */
    method FillCompletionList(tags: seq<string>)
      modifies this
      ensures State() == old(State()).(rows := Filled(tags), selected := None)
    {
      rows := [];
      selected := None;
      var i := 0;
      while i < |tags|
        invariant 0 <= i <= |tags|
        invariant |rows| == i
        invariant forall j :: 0 <= j < i ==> rows[j] == Row(true, tags[j])
        invariant selected == None
        invariant unchanged(`before, `after, `enteredText, `open, `emitted)
      {
        rows := rows + [Row(true, tags[i])];
        i := i + 1;
      }
      assert rows == Filled(tags);
    }

    /**
     * `completion`: clears the entered text, opens a tree view with nothing
     * selected over a freshly filled store, inserts the activation text at
     * the cursor when asked to, and shows the popup.
     */
    method Completion(tags: seq<string>)
      requires TotalPreorder(config.cf.le)
      modifies this
      ensures State() == Started(config, old(State()), tags)
      ensures Valid()
    {
      enteredText := [];
      FillCompletionList(tags);
      if config.activationChar != [] && config.charInsert {
        before := before + config.activationChar;
      }
      open := true;
      StartShowsAllTags(config, old(State()), tags);
    }

    /**
     * `select_match`: selects the row the scan finds, if any; with an empty
     * view the selection is left as it is.
     */
    method SelectMatch()
      modifies this
      ensures var path := MatchPath(config.cf, View(config.cf, old(rows)), old(enteredText));
        State() == old(State()).(selected := if path.Some? then path else old(selected))
    {
      var path := FindMatchPath(config.cf, View(config.cf, rows), enteredText);
      if path.Some? {
        selected := path;
      }
    }

    /**
     * `update_completion_list`: sets every row's visibility from the filter
     * test, which drops a selection whose row left the view, then selects by
     * `select_match`.
     */
    method UpdateCompletionList()
      modifies this
      ensures State() == Refreshed(config, old(State()))
    {
      var i := 0;
      while i < |rows|
        invariant 0 <= i <= |rows| == |old(rows)|
        invariant forall j :: 0 <= j < i ==>
          rows[j] == Row(Matches(config.cf, enteredText, old(rows)[j].data), old(rows)[j].data)
        invariant forall j :: i <= j < |rows| ==> rows[j] == old(rows)[j]
        invariant unchanged(`before, `after, `enteredText, `selected, `open, `emitted)
      {
        rows := rows[i := Row(Matches(config.cf, enteredText, rows[i].data), rows[i].data)];
        i := i + 1;
      }
      assert rows == Refiltered(config.cf, old(rows), enteredText);
      if selected.Some? && selected.value >= |View(config.cf, rows)| {
        selected := None;
      }
      SelectionPolicy(config.cf, View(config.cf, rows), enteredText);
      SelectMatch();
    }

    /**
     * `insert_data`: with a selected row, deletes the entered text before the
     * cursor (never past the start of the buffer), inserts the tag and
     * `space`, and emits the tag; with no row to read, does nothing.
     */
    method InsertData(space: string)
      modifies this
      ensures State() == Committed(config, old(State()), space)
    {
      if selected.None? {
        return;
      }
      var view := View(config.cf, rows);
      if selected.value >= |view| {
        return;
      }
      var tag := view[selected.value];
      var n := if |enteredText| <= |before| then |enteredText| else |before|;
      before := before[..|before| - n];
      before := before + (tag + space);
      emitted := emitted + [tag];
    }

    /** `do_row_activated`: inserts the selected tag, then closes the popup. */
    method RowActivated()
      requires Valid() && open
      modifies this
      ensures State() == RowActivation(config, old(State()))
      ensures Valid()
    {
      RowActivationKeepsValid(config, State());
      InsertData([]);
      open := false;
    }

    /**
     * The BackSpace branch of `do_key_press`: deletes the character before
     * the cursor; if it is the activation text the popup closes and the key
     * goes on, otherwise the entered text loses its last character and the
     * store is refiltered.
     */
    method EraseBeforeCursor() returns (result: HandlerResult)
      modifies this
      ensures Step(State(), result) == Erased(config, old(State()))
    {
      var ch := LastChar(before);
      before := DropLast(before);
      if ch == config.activationChar {
        open := false;
        return Propagate;
      }
      enteredText := DropLast(enteredText);
      UpdateCompletionList();
      return Consumed;
    }

    /**
     * The cycle branch of `do_key_press`: selects the path after the selected
     * one, which does nothing past the last row; with no selected row, reading
     * the first selected path raises IndexError before anything changes.
     */
    method SelectNext() returns (result: HandlerResult)
      modifies this
      ensures Step(State(), result) == Cycled(config, old(State()))
    {
      if selected.None? {
        return Raised;
      }
      var next := selected.value + 1;
      if next < |View(config.cf, rows)| {
        selected := Some(next);
      }
      return Consumed;
    }

    /**
     * `do_key_press`: the decision list, branch by branch, with the
     * preferences read for this key. The result is None (Propagate), True
     * (Consumed), or the IndexError the cycle branch raises (Raised).
     */
    method DoKeyPress(ev: KeyEvent, prefs: Preferences) returns (result: HandlerResult)
      requires Valid() && open
      modifies this
      ensures Step(State(), result) == KeyStep(config, old(State()), ev, prefs)
      ensures Valid()
    {
      KeyStepKeepsValid(config, State(), ev, prefs);
      if ev.name in IgnoreKeys {
        return Propagate;
      }
      if ev.name == "Escape" {
        open := false;
        return Propagate;
      }
      if ev.name == "BackSpace" {
        result := EraseBeforeCursor();
        return;
      } else if ev.state.shift && ev.name == "space" && prefs.spaceSelection {
        InsertData(" ");
        open := false;
      } else if ev.name == "Return" {
        InsertData([]);
        open := false;
      } else if ev.name == "space" {
        before := before + " ";
        open := false;
      } else if ev.name == "Tab" || ev.name == "ISO_Left_Tab" {
        if prefs.tabBehaviour == TabSelects {
          InsertData([]);
          open := false;
          return Propagate;
        }
        result := SelectNext();
        return;
      } else if ev.name in ShiftKeys {
        return Propagate;
      } else if ev.state.shift || !HasKeystate(ev.state) {
        before := before + ev.text;
        enteredText := enteredText + ev.text;
        UpdateCompletionList();
      }
      return Consumed;
    }
  }
}
