/** The usual optional value. */
module Wrappers {
  datatype Option<+T> = None | Some(value: T)
}

/**
 * The string operations the completion session is built from: Python's
 * `str.upper()`, `in` and `startswith` on strings, and the edits GTK's text
 * buffer makes just before the cursor.
 */
module Text {

  /**
   * `s.upper()`, modelled one character at a time through a case map the
   * host supplies (Python's Unicode case tables are not part of this model).
   */
  function Fold(upper: char -> char, s: string): string
  {
    seq(|s|, i requires 0 <= i < |s| => upper(s[i]))
  }

  /** `s.startswith(p)` */
  predicate IsPrefix(p: string, s: string)
  {
    |p| <= |s| && s[..|p|] == p
  }

  /** `s.endswith(p)` */
  predicate IsSuffix(p: string, s: string)
  {
    |p| <= |s| && s[|s| - |p|..] == p
  }

  /** `needle` is found in `hay` starting at index `i`. */
  ghost predicate OccursAt(needle: string, hay: string, i: int)
  {
    0 <= i && i + |needle| <= |hay| && hay[i..i + |needle|] == needle
  }

  /** Python's `needle in hay` on strings, scanning `hay` from the left. */
  predicate Contains(needle: string, hay: string)
    decreases |hay|
  {
    IsPrefix(needle, hay) || (hay != [] && Contains(needle, hay[1..]))
  }

  /** The scan finds `needle` exactly when it occurs somewhere in `hay`. */
  lemma {:induction false} ContainsIff(needle: string, hay: string)
    ensures Contains(needle, hay) <==> exists i :: OccursAt(needle, hay, i)
    decreases |hay|
  {
    if IsPrefix(needle, hay) {
      assert OccursAt(needle, hay, 0);
    }
    if hay == [] {
      forall i | OccursAt(needle, hay, i) ensures IsPrefix(needle, hay) {
      }
    } else {
      ContainsIff(needle, hay[1..]);
      if Contains(needle, hay[1..]) {
        var i :| OccursAt(needle, hay[1..], i);
        assert hay[1..][i..i + |needle|] == hay[i + 1..i + 1 + |needle|];
        assert OccursAt(needle, hay, i + 1);
      }
      forall i | OccursAt(needle, hay, i)
        ensures IsPrefix(needle, hay) || OccursAt(needle, hay[1..], i - 1)
      {
        if i > 0 {
          assert hay[1..][i - 1..i - 1 + |needle|] == hay[i..i + |needle|];
        }
      }
    }
  }

  /**
   * What one BackSpace removes from the text before the cursor: the last
   * character, or nothing when the cursor is at the start of the buffer
   * (GTK's `backward_chars` does not move past it).
   */
  function LastChar(s: string): (r: string)
    ensures |r| == if s == [] then 0 else 1
    ensures IsSuffix(r, s)
  {
    if s == [] then [] else [s[|s| - 1]]
  }

  /** Python's `s[:-1]`: the empty string stays empty. */
  function DropLast(s: string): (r: string)
    ensures s == [] ==> r == []
    ensures s != [] ==> s == r + [s[|s| - 1]]
  {
    if s == [] then [] else s[..|s| - 1]
  }

  /**
   * Deletes up to `n` characters before the cursor (never past the start of
   * the buffer) and inserts `insert` where they were; `before` is the text
   * before the cursor, and the cursor ends up after the insertion.
   */
  function Splice(before: string, n: nat, insert: string): string
  {
    var k := if n <= |before| then n else |before|;
    before[..|before| - k] + insert
  }

  /** Splicing over a suffix replaces exactly that suffix. */
  lemma SpliceReplacesSuffix(prefix: string, suffix: string, insert: string)
    ensures Splice(prefix + suffix, |suffix|, insert) == prefix + insert
  {
    assert (prefix + suffix)[..|prefix|] == prefix;
  }

  /** Typing the same text at the end of both keeps one a suffix of the other. */
  lemma AppendKeepsSuffix(p: string, s: string, t: string)
    requires IsSuffix(p, s)
    ensures IsSuffix(p + t, s + t)
  {
    assert (s + t)[|s + t| - |p + t|..] == s[|s| - |p|..] + t;
  }

  /** Removing the last character of both keeps one a suffix of the other. */
  lemma DropLastKeepsSuffix(p: string, s: string)
    requires IsSuffix(p, s)
    ensures IsSuffix(DropLast(p), DropLast(s))
  {
    if p != [] {
      assert DropLast(s)[|DropLast(s)| - |DropLast(p)|..] == s[|s| - |p|..][..|p| - 1];
    }
  }
}

/**
 * Sorting by a total preorder, standing for the string collation GTK's
 * sorted tree model applies to the data column.
 */
module Sorting {

  /** `le` is total and transitive: what a collation on strings provides. */
  ghost predicate TotalPreorder(le: (string, string) -> bool)
  {
    && (forall a, b :: le(a, b) || le(b, a))
    && (forall a, b, c :: le(a, b) && le(b, c) ==> le(a, c))
  }

  ghost predicate SortedBy(le: (string, string) -> bool, s: seq<string>)
  {
    forall i, j :: 0 <= i < j < |s| ==> le(s[i], s[j])
  }

  /** Inserts `x` in front of the first element it does not collate after. */
  function Insert(le: (string, string) -> bool, x: string, s: seq<string>): seq<string>
  {
    if s == [] then [x]
    else if le(x, s[0]) then [x] + s
    else [s[0]] + Insert(le, x, s[1..])
  }

  /** Insertion sort, each element inserted into the sorted rest. */
  function Sort(le: (string, string) -> bool, s: seq<string>): seq<string>
  {
    if s == [] then [] else Insert(le, s[0], Sort(le, s[1..]))
  }

  /** Inserting adds `x` and keeps everything else. */
  lemma {:induction false} InsertPermutes(le: (string, string) -> bool, x: string, s: seq<string>)
    ensures multiset(Insert(le, x, s)) == multiset(s) + multiset{x}
    ensures |Insert(le, x, s)| == |s| + 1
  {
    if s != [] && !le(x, s[0]) {
      InsertPermutes(le, x, s[1..]);
      assert s == [s[0]] + s[1..];
    }
  }

  /** Sorting is a permutation. */
  lemma {:induction false} SortPermutes(le: (string, string) -> bool, s: seq<string>)
    ensures multiset(Sort(le, s)) == multiset(s)
    ensures |Sort(le, s)| == |s|
  {
    if s != [] {
      SortPermutes(le, s[1..]);
      InsertPermutes(le, s[0], Sort(le, s[1..]));
      assert s == [s[0]] + s[1..];
    }
  }

  /** Inserting into an ordered sequence keeps it ordered. */
  lemma {:induction false} InsertKeepsSorted(le: (string, string) -> bool, x: string, s: seq<string>)
    requires TotalPreorder(le)
    requires SortedBy(le, s)
    ensures SortedBy(le, Insert(le, x, s))
    ensures s != [] ==> Insert(le, x, s)[0] == x || Insert(le, x, s)[0] == s[0]
  {
    if s != [] && !le(x, s[0]) {
      var rest := Insert(le, x, s[1..]);
      InsertKeepsSorted(le, x, s[1..]);
      InsertPermutes(le, x, s[1..]);
      assert le(s[0], x);
      assert rest[0] == x || le(s[0], rest[0]);
      forall j | 0 <= j < |rest| ensures le(s[0], rest[j]) {
        if j > 0 {
          assert le(rest[0], rest[j]);
        }
      }
    }
  }

  /** The sorted sequence is ordered by `le` when `le` is a total preorder. */
  lemma {:induction false} SortSorts(le: (string, string) -> bool, s: seq<string>)
    requires TotalPreorder(le)
    ensures SortedBy(le, Sort(le, s))
  {
    if s != [] {
      SortSorts(le, s[1..]);
      InsertKeepsSorted(le, s[0], Sort(le, s[1..]));
    }
  }
}
