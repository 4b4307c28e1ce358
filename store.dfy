/**
 * The candidate store of `AutoCompletion`: a list store of (visible, tag)
 * rows, the filtered and sorted view the popup shows, the case-insensitive
 * match tests, and the policy that picks the row to select.
 */
module CandidateStore {
  import opened Wrappers
  import opened Text
  import opened Sorting

  /** One row of the list store: the visibility column and the data column. */
  datatype Row = Row(visible: bool, data: string)

  /**
   * What the toolkit and the language supply for comparing text: the case
   * map behind `str.upper()` and the collation the sorted model applies.
   */
  datatype TextOrder = TextOrder(upper: char -> char, le: (string, string) -> bool)

  /** `entered.upper() in data.upper()`: the filter test. */
  predicate Matches(cf: TextOrder, entered: string, data: string)
  {
    Contains(Fold(cf.upper, entered), Fold(cf.upper, data))
  }

  /** `data.upper().startswith(entered.upper())`: the selection test. */
  predicate StartsWithText(cf: TextOrder, data: string, entered: string)
  {
    IsPrefix(Fold(cf.upper, entered), Fold(cf.upper, data))
  }

  /** The store after it is cleared and every tag is appended as a visible row. */
  function Filled(tags: seq<string>): seq<Row>
  {
    seq(|tags|, i requires 0 <= i < |tags| => Row(true, tags[i]))
  }

  /** The store after every row's visibility is set from the filter test. */
  function Refiltered(cf: TextOrder, rows: seq<Row>, entered: string): seq<Row>
  {
    seq(|rows|, i requires 0 <= i < |rows| => Row(Matches(cf, entered, rows[i].data), rows[i].data))
  }

  /** The data of the visible rows, in store order (the filter model). */
  function Visible(rows: seq<Row>): seq<string>
  {
    if rows == [] then []
    else (if rows[0].visible then [rows[0].data] else []) + Visible(rows[1..])
  }

  /** The filter model sorted ascending on the data column: what the popup lists. */
  function View(cf: TextOrder, rows: seq<Row>): seq<string>
  {
    Sort(cf.le, Visible(rows))
  }

  /** A tag is listed exactly when some row holding it is visible. */
  lemma {:induction false} VisibleMembership(rows: seq<Row>, x: string)
    ensures x in Visible(rows) <==> exists i :: 0 <= i < |rows| && rows[i].visible && rows[i].data == x
  {
    if rows != [] {
      VisibleMembership(rows[1..], x);
      if x in Visible(rows[1..]) {
        var i :| 0 <= i < |rows[1..]| && rows[1..][i].visible && rows[1..][i].data == x;
        assert rows[i + 1] == rows[1..][i];
      }
      forall i | 0 <= i < |rows| && rows[i].visible && rows[i].data == x && i > 0
        ensures x in Visible(rows[1..])
      {
        assert rows[1..][i - 1] == rows[i];
      }
    }
  }

  /**
   * The view lists the visible tags, each as often as it is visible in the
   * store, ordered by the collation.
   */
  lemma ViewContents(cf: TextOrder, rows: seq<Row>, x: string)
    ensures multiset(View(cf, rows)) == multiset(Visible(rows))
    ensures TotalPreorder(cf.le) ==> SortedBy(cf.le, View(cf, rows))
    ensures x in View(cf, rows) <==> exists i :: 0 <= i < |rows| && rows[i].visible && rows[i].data == x
  {
    VisibleMembership(rows, x);
    SortPermutes(cf.le, Visible(rows));
    if TotalPreorder(cf.le) {
      SortSorts(cf.le, Visible(rows));
    }
    assert x in View(cf, rows) <==> x in multiset(View(cf, rows));
    assert x in Visible(rows) <==> x in multiset(Visible(rows));
  }

  /** A freshly filled store lists every tag once per occurrence, in order. */
  lemma {:induction false} FilledShowsAll(tags: seq<string>)
    ensures |Filled(tags)| == |tags|
    ensures forall i :: 0 <= i < |tags| ==> Filled(tags)[i].data == tags[i] && Filled(tags)[i].visible
    ensures Visible(Filled(tags)) == tags
  {
    if tags != [] {
      assert Filled(tags)[1..] == Filled(tags[1..]);
      FilledShowsAll(tags[1..]);
      assert tags == [tags[0]] + tags[1..];
    }
  }

  /** After a fill the view is the whole tag list, sorted by the collation. */
  lemma FilledView(cf: TextOrder, tags: seq<string>)
    ensures multiset(View(cf, Filled(tags))) == multiset(tags)
    ensures TotalPreorder(cf.le) ==> SortedBy(cf.le, View(cf, Filled(tags)))
  {
    FilledShowsAll(tags);
    SortPermutes(cf.le, tags);
    if TotalPreorder(cf.le) {
      SortSorts(cf.le, tags);
    }
  }

  /**
   * Refiltering sets each row's flag to the filter test on its own tag and
   * keeps the tags and their order.
   */
  lemma RefilteredRows(cf: TextOrder, rows: seq<Row>, entered: string)
    ensures |Refiltered(cf, rows, entered)| == |rows|
    ensures forall i :: 0 <= i < |rows| ==>
      && Refiltered(cf, rows, entered)[i].data == rows[i].data
      && (Refiltered(cf, rows, entered)[i].visible <==>
            exists k :: OccursAt(Fold(cf.upper, entered), Fold(cf.upper, rows[i].data), k))
  {
    forall i | 0 <= i < |rows| {
      ContainsIff(Fold(cf.upper, entered), Fold(cf.upper, rows[i].data));
    }
  }

  /**
   * Refiltering looks only at the tags and the entered text, never at the
   * visibility left by an earlier filter; so refiltering twice with the same
   * text is refiltering once.
   */
  lemma RefilterForgetsVisibility(cf: TextOrder, rows: seq<Row>, rows': seq<Row>, entered: string)
    requires |rows| == |rows'|
    requires forall i :: 0 <= i < |rows| ==> rows[i].data == rows'[i].data
    ensures Refiltered(cf, rows, entered) == Refiltered(cf, rows', entered)
    ensures Refiltered(cf, Refiltered(cf, rows, entered), entered) == Refiltered(cf, rows, entered)
  {
  }

  /**
   * After a refilter the view holds exactly the stored tags that contain the
   * entered text, case-insensitively.
   */
  lemma ViewAfterRefilter(cf: TextOrder, rows: seq<Row>, entered: string, x: string)
    ensures x in View(cf, Refiltered(cf, rows, entered)) <==>
      (exists i :: 0 <= i < |rows| && rows[i].data == x) && Matches(cf, entered, x)
  {
    var r := Refiltered(cf, rows, entered);
    ViewContents(cf, r, x);
    if x in View(cf, r) {
      var i :| 0 <= i < |r| && r[i].visible && r[i].data == x;
      assert rows[i].data == x;
    }
    if (exists i :: 0 <= i < |rows| && rows[i].data == x) && Matches(cf, entered, x) {
      var i :| 0 <= i < |rows| && rows[i].data == x;
      assert r[i].visible && r[i].data == x;
    }
  }

  /** The first row of `view` that starts with the entered text, if any. */
  function FirstPrefixMatch(cf: TextOrder, view: seq<string>, entered: string): Option<nat>
  {
    if view == [] then None
    else if StartsWithText(cf, view[0], entered) then Some(0)
    else
      match FirstPrefixMatch(cf, view[1..], entered)
      case None => None
      case Some(k) => Some(k + 1)
  }

  /** FirstPrefixMatch finds the first matching row, and finds none only when no row matches. */
  lemma {:induction false} FirstPrefixMatchIsFirst(cf: TextOrder, view: seq<string>, entered: string)
    ensures var r := FirstPrefixMatch(cf, view, entered);
      && (r.Some? ==> r.value < |view| && StartsWithText(cf, view[r.value], entered))
      && (r.Some? ==> forall j :: 0 <= j < r.value ==> !StartsWithText(cf, view[j], entered))
      && (r.None? ==> forall j :: 0 <= j < |view| ==> !StartsWithText(cf, view[j], entered))
  {
    if view != [] && !StartsWithText(cf, view[0], entered) {
      FirstPrefixMatchIsFirst(cf, view[1..], entered);
      var r := FirstPrefixMatch(cf, view, entered);
      forall j | 0 <= j < (if r.Some? then r.value else |view|) && j > 0
        ensures !StartsWithText(cf, view[j], entered)
      {
        assert view[j] == view[1..][j - 1];
      }
    }
  }

  /**
   * `select_match`'s choice: the first row that starts with the entered
   * text, otherwise row 0, and no row when the view is empty.
   */
  function MatchPath(cf: TextOrder, view: seq<string>, entered: string): Option<nat>
  {
    if view == [] then None
    else
      match FirstPrefixMatch(cf, view, entered)
      case Some(k) => Some(k)
      case None => Some(0)
  }

  /**
   * The selection policy: a prefix match wins, and the first one is taken;
   * with none, row 0 is selected; with an empty view nothing is.
   */
  lemma SelectionPolicy(cf: TextOrder, view: seq<string>, entered: string)
    ensures var r := MatchPath(cf, view, entered);
      && (r.None? <==> view == [])
      && (r.Some? ==> r.value < |view|)
      && ((exists i :: 0 <= i < |view| && StartsWithText(cf, view[i], entered)) ==>
            && r.Some?
            && StartsWithText(cf, view[r.value], entered)
            && forall j :: 0 <= j < r.value ==> !StartsWithText(cf, view[j], entered))
      && (view != [] && (forall i :: 0 <= i < |view| ==> !StartsWithText(cf, view[i], entered)) ==>
            r == Some(0))
  {
    FirstPrefixMatchIsFirst(cf, view, entered);
  }

  /**
   * The scan of `select_match`: walks the view, remembering row 0 once there
   * is a row, and stops at the first row that starts with the entered text.
   */
  method FindMatchPath(cf: TextOrder, view: seq<string>, entered: string) returns (path: Option<nat>)
    ensures path == MatchPath(cf, view, entered)
  {
    FirstPrefixMatchIsFirst(cf, view, entered);
    path := None;
    var textUp := Fold(cf.upper, entered);
    var index := 0;
    while index < |view|
      invariant index <= |view|
      invariant path == if index == 0 then None else Some(0)
      invariant forall j :: 0 <= j < index ==> !StartsWithText(cf, view[j], entered)
    {
      path := Some(0);
      if IsPrefix(textUp, Fold(cf.upper, view[index])) {
        path := Some(index);
        break;
      }
      index := index + 1;
    }
  }
}
