# Tag auto-completion for the Zim editor, modelled in Dafny

`tagcomplete.py` is a plugin that completes tags in the Zim desktop
wiki. When the activation character (`@`) is typed, the `AutoCompletion`
object opens a popup listing the notebook's tags, sorted. Each key typed
after that goes into the page and into the *entered text*. Every row of
the tag store is then made visible exactly when the entered text occurs
in it, ignoring case. The first visible tag that starts with the entered
text is selected, or the first row when none does.

A selecting key (Return, Tab in `select` mode, Shift+space with
`space_selection`) or a double-click on a row commits the selection:
- the entered text before the cursor is replaced by the tag;
- the `tag-selected` signal is emitted;
- the popup closes.

BackSpace over the activation character, Escape, and a plain space
close the popup without committing.

The project has these modules:

- `Text` (text.dfy) holds the string operations the object uses:
  - `upper()` as a per-character case map (`Fold`);
  - `in` and `startswith` (`Contains`, `IsPrefix`), as used at `tagcomplete.py:219` and `235`;
  - the text-buffer edits just before the cursor: delete one character (`LastChar`, `DropLast`, `tagcomplete.py:272-279`), and delete n then insert (`Splice`, `tagcomplete.py:324-331`).
- `Sorting` (text.dfy) is the ascending sort of the tree model. It is an insertion sort over an abstract collation, required to be a total preorder. It is proved to be a permutation that comes out ordered.
- `CandidateStore` (store.dfy) is the list store of `(visible, tag)` rows (`Filled`, `tagcomplete.py:244-247`), the sorted, filtered view the popup shows (`View`, `tagcomplete.py:172-176`), the filter and prefix tests (`Matches`, `StartsWithText`, `Refiltered`, `tagcomplete.py:217-221` and `235`), and `select_match`'s scan (`MatchPath`, `tagcomplete.py:227-242`). The scan is a method with a loop and a `break`, proved against a reference function.
- `KeyPolicy` (keys.dfy) covers:
  - `SHIFT`, `KEYSTATES` and `IGNORE_KEYS`, with F1 to F12 already in the set;
  - `do_key_press`'s ordered decision list (`Classify`, `tagcomplete.py:257-310`).
- `CompletionSession` (session.dfy) describes one session as a value (`Session`). It has one reference transition per operation:
  - `Started`: `completion`, `tagcomplete.py:184-201`;
  - `Refreshed`: `update_completion_list`, `tagcomplete.py:212-225`;
  - `Committed`: `insert_data`, `tagcomplete.py:312-332`;
  - `RowActivation`: `do_row_activated`, `tagcomplete.py:249-251`;
  - `KeyStep`: `do_key_press`, `tagcomplete.py:253-310`, with its branches `Erased` (`271-280`), `Typed` (`304-307`) and `Cycled` (`296-303`).

  The lemmas state what the plugin promises of them.
- `TagComplete` (autocompletion.dfy) is the `AutoCompletion` class. It has fields for the buffer around the cursor, the entered text, the store, the selection, the popup state and the emitted signal values. Each method updates the fields in place, as the Python does. Each method is proved to leave exactly the state its reference transition gives. `Completion` establishes the session invariant `Valid`; `DoKeyPress` and `RowActivated` keep it.

The GTK behaviour the model relies on:
- Moving the cursor back stops at the start of the buffer. So deleting before the cursor never removes more than is there.
- Text inserted at the cursor ends up before it.
- `select_path` on a path past the last row changes nothing.
- A row hidden by the filter leaves the selection. So a refilter that empties the view leaves nothing selected.
- A freshly created tree view has no selection. This is an assumption: once GTK gives a tree view the focus it may place its cursor on a row, and that is not part of this model.

Behaviour worth noting:
- `completion` never calls `select_match`, so a started session has no selected row (`tagcomplete.py:184-201`).
- Return and Tab in `select` mode close the popup even when nothing is selected and nothing is inserted (`tagcomplete.py:283-287`, `293-295`).
- A key with Control, Alt, Meta or Lock held and no Shift does not reach the editor: the handler returns True (consumed) and changes nothing (`tagcomplete.py:304-310`).
- Tab in `cycle` mode with no selected row raises `IndexError` (`tagcomplete.py:298-299`). This is modelled as the handler result `Raised`, with the state unchanged.

## Model

| member | source | states |
|---|---|---|
| Text.ContainsIff | tagcomplete.py:219 | `entered.upper() in data.upper()` holds exactly when the folded entered text occurs at some index of the folded tag |
| Text.LastChar | tagcomplete.py:272-274 | the text BackSpace removes is one character at the end of the text before the cursor, or nothing at the start of the buffer |
| Text.DropLast | tagcomplete.py:279 | `s[:-1]`: the empty string stays empty; otherwise the string minus its last character |
| Text.SpliceReplacesSuffix | tagcomplete.py:324-331 | deleting `len(entered_text)` characters before the cursor and inserting replaces exactly the entered text, and the rest of the buffer stays |
| Text.AppendKeepsSuffix | tagcomplete.py:305-306 | typing the same text into the buffer and onto the entered text keeps the entered text just before the cursor |
| Text.DropLastKeepsSuffix | tagcomplete.py:272-279 | BackSpace taking one character off both keeps the entered text just before the cursor |
| Sorting.InsertPermutes | tagcomplete.py:175-176 | inserting one tag into the sorted list adds that tag and keeps every other one |
| Sorting.SortPermutes | tagcomplete.py:175-176 | the sorted model lists the same tags as the filtered model, with duplicates, and as many |
| Sorting.InsertKeepsSorted | tagcomplete.py:175-176 | inserting into an ascending list keeps it ascending under the collation |
| Sorting.SortSorts | tagcomplete.py:175-176 | the sorted model is ascending under the collation |
| CandidateStore.VisibleMembership | tagcomplete.py:172-174 | the filter model lists a tag exactly when a visible row holds it |
| CandidateStore.ViewContents | tagcomplete.py:172-176 | the popup lists the visible tags, each as often as it is visible, in ascending order, and nothing else |
| CandidateStore.FilledShowsAll | tagcomplete.py:244-247 | after a fill the store holds exactly the given tags, in order, duplicates kept, all visible |
| CandidateStore.FilledView | tagcomplete.py:244-247 | after a fill the popup lists every given tag, sorted |
| CandidateStore.RefilteredRows | tagcomplete.py:217-221 | a refilter keeps every tag in place and makes a row visible exactly when the folded entered text occurs in its folded tag |
| CandidateStore.RefilterForgetsVisibility | tagcomplete.py:217-221 | the filter reads only the tags and the entered text, so earlier visibility does not matter and refiltering twice equals refiltering once |
| CandidateStore.ViewAfterRefilter | tagcomplete.py:212-221 | after a refilter the popup lists a tag exactly when the store holds it and it contains the entered text, ignoring case |
| CandidateStore.FirstPrefixMatchIsFirst | tagcomplete.py:231-238 | the scan stops at a row that starts with the entered text, and no earlier row does; finding none means no row does |
| CandidateStore.SelectionPolicy | tagcomplete.py:227-242 | the first row that starts with the entered text is chosen; with no such row, row 0; with an empty view, no row |
| CandidateStore.FindMatchPath | tagcomplete.py:227-242 | the `enumerate` loop with `break` picks the row of the selection policy |
| KeyPolicy.NamedKeyActions | tagcomplete.py:260-303 | Escape cancels, BackSpace erases, Return selects, Tab and ISO_Left_Tab select or cycle exactly as `tab_behaviour` says, and Shift_L or Shift_R alone does nothing, each if and only if the key has that name |
| KeyPolicy.Classify | tagcomplete.py:253-307 | the decision list: an ignored key only when its name is in IGNORE_KEYS; Shift+space selects only with `space_selection`, otherwise space types; other keys type with Shift or without KEYSTATES, and are swallowed otherwise |
| CompletionSession.StartShowsAllTags | tagcomplete.py:184-201 | a started session is open and valid, has empty entered text and no selection, and lists every tag sorted; the activation character is added before the cursor exactly when it is non-empty and `char_insert` is set; the text after the cursor and the emissions stay |
| CompletionSession.RefreshSelectsInView | tagcomplete.py:212-242 | after a refilter any selected row is a row of the new view |
| CompletionSession.RefreshSelectsByPolicy | tagcomplete.py:212-242 | after a refilter the view is the matching stored tags, the selection follows the policy, and nothing is selected exactly when the view is empty |
| CompletionSession.RefreshIdempotent | tagcomplete.py:212-225 | updating the completion list twice gives the same session as updating it once |
| CompletionSession.CommitReplacesEnteredText | tagcomplete.py:312-332 | with a selected row, the entered text before the cursor becomes the tag plus `space`, the text after the cursor stays, and the tag alone is emitted once |
| CompletionSession.CommitWithoutSelection | tagcomplete.py:312-320 | with no row to read, `insert_data` changes nothing and emits nothing |
| CompletionSession.EmptyViewCommitsNothing | tagcomplete.py:312-320 | in a valid session with an empty view, a commit changes nothing |
| CompletionSession.ErasedKeepsValid | tagcomplete.py:271-280 | BackSpace keeps the session invariant |
| CompletionSession.TypedKeepsValid | tagcomplete.py:304-307 | typing a key keeps the session invariant |
| CompletionSession.KeyStepKeepsValid | tagcomplete.py:253-310 | every key press on an open, valid session leaves a valid session |
| CompletionSession.RowActivationKeepsValid | tagcomplete.py:249-251 | row activation keeps the invariant and always closes the popup |
| CompletionSession.RowActivationCommits | tagcomplete.py:249-251 | row activation commits as Return does: with a selected row the entered text before the cursor becomes the tag, emitted once; with none nothing changes; the popup always closes and the store, selection and text after the cursor stay |
| CompletionSession.KeyStepKeepsTextAfterCursor | tagcomplete.py:253-310 | no key press changes the text after the cursor |
| CompletionSession.LiteralKeyTypes | tagcomplete.py:304-307 | a text key with Shift, or with no KEYSTATES modifier, is consumed; it goes into the buffer and onto the entered text, refilters and selects by the policy, and leaves the popup and the emissions as they were |
| CompletionSession.ModifiedKeyIsSwallowed | tagcomplete.py:304-310 | a text key with Control, Meta, Alt or Lock and no Shift is consumed and changes nothing |
| CompletionSession.BackSpaceErasesOne | tagcomplete.py:271-280 | BackSpace removes exactly the character before the cursor. On the activation character it closes, keeps the entered text, store and selection, and the key propagates. Otherwise the entered text loses its last character, the store is refiltered, the selection follows the policy, and the key is consumed |
| CompletionSession.SelectingKeysAlwaysClose | tagcomplete.py:281-295 | Return, Tab in select mode and Shift+space with `space_selection` always close, and only Tab propagates. With a selected row the entered text before the cursor becomes the tag (plus a space for Shift+space) and the tag is emitted; with none, buffer and emissions stay. The entered text, store, selection and text after the cursor never change |
| CompletionSession.PlainSpaceNeverCommits | tagcomplete.py:288-290 | a plain space types one space, closes, and commits nothing |
| CompletionSession.EscapeCancels | tagcomplete.py:260-262 | Escape closes, changes nothing else and lets the key through |
| CompletionSession.NoOpKeys | tagcomplete.py:257-258 | ignored keys, and the Shift keys of the `SHIFT` branch at `tagcomplete.py:302-303`, change nothing and let the key through |
| CompletionSession.TabCycleMovesDown | tagcomplete.py:296-303 | Tab in cycle mode only moves the selection one row down, staying on the last row; the key is consumed; with no selection it raises and changes nothing |
| CompletionSession.EmitsOnlyOnSelection | tagcomplete.py:281-295 | a key press emits nothing, or a selecting key emits the selected tag once |
| CompletionSession.TypingTwoKeys | tagcomplete.py:304-307 | two text keys in a row, each plain or held with Shift (whatever else is held), type both, in order, into the buffer and the entered text |
| CompletionSession.BackSpaceInsideEnteredText | tagcomplete.py:271-280 | while text is entered, BackSpace takes one character off the buffer and off the entered text, and the activation character still stands before it |
| CompletionSession.BackSpaceOverActivation | tagcomplete.py:271-277 | with the activation character just before the cursor, BackSpace removes it and closes the popup |
| CompletionSession.BackSpacesCancelStep | tagcomplete.py:271-280 | one BackSpace over an entered character, followed by enough further presses to cancel, cancels |
| CompletionSession.BackSpacesCancel | tagcomplete.py:271-280 | one BackSpace per entered character, plus one, restores the buffer to what it was before the activation character, closes the popup and emits nothing |
| CompletionSession.EmptyViewClosingKeys | tagcomplete.py:281-290 | with an empty view, a space that does not select (no Shift, or `space_selection` off) still types and closes, and Return closes without emitting |
| TagComplete.AutoCompletion.constructor | tagcomplete.py:155-182 | a new object has nothing entered, an empty store, no selection, no popup and no emissions |
| TagComplete.AutoCompletion.FillCompletionList | tagcomplete.py:244-247 | clearing the store drops the selection, and the append loop leaves the store as the given tags, all visible; nothing else changes |
| TagComplete.AutoCompletion.Completion | tagcomplete.py:184-201 | the object becomes the started session, which is valid |
| TagComplete.AutoCompletion.SelectMatch | tagcomplete.py:227-242 | selects the policy's row; with an empty view the selection is untouched |
| TagComplete.AutoCompletion.UpdateCompletionList | tagcomplete.py:212-225 | the `foreach` loop sets every row's visibility from the filter test, and the selection then follows the policy |
| TagComplete.AutoCompletion.InsertData | tagcomplete.py:312-332 | the splice and the emission of the commit; with no readable row, nothing changes |
| TagComplete.AutoCompletion.RowActivated | tagcomplete.py:249-251 | commit, then close; the invariant is kept |
| TagComplete.AutoCompletion.EraseBeforeCursor | tagcomplete.py:271-280 | the BackSpace branch: delete one character, then close on the activation character or refilter otherwise |
| TagComplete.AutoCompletion.SelectNext | tagcomplete.py:296-303 | the cycle branch: the next row, nothing past the last row, and `Raised` with no selection |
| TagComplete.AutoCompletion.DoKeyPress | tagcomplete.py:253-310 | the handler's new state and result are those of the decision list, and the session invariant is kept |

## Left out

- Widget construction (`AutoCompletionTreeView`), column resizing and `scroll_to_cell`: presentation only.
- `get_iter_pos` and the popover's placement: screen-coordinate conversion.
- The plugin class, its preference schema, the main-window menu, the activation key hook and fetching tags from the notebook. The preferences `tab_behaviour` and `space_selection` are an input to each key press, and the tag list is an input to `completion`.
- GObject signal machinery: emissions are recorded in the `emitted` field.
- The "Tags for:" label text set after each handled key: UI only.
- GTK's collation for the sorted model is a parameter `le`, required to be a total preorder. Python's `str.upper()` is a parameter `upper` mapping one character to one. So a character whose upper case has several characters (such as `ß`) is not modelled.
- GTK's order among tags that collate equal is not part of this model. The model's insertion sort fixes one such order, and no lemma depends on it.
- Growing the global `IGNORE_KEYS` set with F1 to F12 in `__init__`: the constant already holds them.
- Connecting the key and row-activation handlers is modelled by `DoKeyPress` and `RowActivated` requiring an open session. Keys that propagate (a `None` result) go on to the editor, whose handling is not part of this model.
- NoOpKeys: the navigation keys in `IGNORE_KEYS` (Up, Down, Page_Up, Page_Down, Home, End) are left to the tree view's own key handling, which moves the selection. That movement is not modelled, so the lemma's "changes nothing" covers the handler only.
- A mouse click that moves the selection is not modelled. Neither are hidden characters in the buffer (`include_hidden_chars=False`).
- `selected_data`, which `__init__` sets and nothing reads, is not modelled.
