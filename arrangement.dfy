/**
 * Packing a day's lessons into display rows: a stable sort by
 * (start time, class number), then first-fit placement of each lesson into
 * the first row whose last lesson it does not overlap; and the per-day
 * grouping that applies the packing to a whole week.
 */
module Arrangement {
  import opened Strings
  import opened Lessons
  import Seqs

  // ---------------------------------------------------------------------
  // The sort order
  // ---------------------------------------------------------------------

  /** The comparator is negative: earlier start time, or the same start time and a smaller class number. */
  predicate Before(a: Lesson, b: Lesson)
  {
    StrLt(a.raw.startTime, b.raw.startTime)
    || (a.raw.startTime == b.raw.startTime && StrLt(a.raw.classNo, b.raw.classNo))
  }

  /** The comparator returns 0: same start time and same class number. */
  predicate SameKey(a: Lesson, b: Lesson)
  {
    a.raw.startTime == b.raw.startTime && a.raw.classNo == b.raw.classNo
  }

  /** `Before` is a strict order whose incomparable pairs are exactly the pairs with the same key. */
  lemma BeforeIsStrictWeakOrder(a: Lesson, b: Lesson, c: Lesson)
    ensures !Before(a, a)
    ensures Before(a, b) ==> !Before(b, a) && !SameKey(a, b)
    ensures Before(a, b) || Before(b, a) || SameKey(a, b)
    ensures !Before(b, a) && !Before(c, b) ==> !Before(c, a)
  {
    StrLtIrreflexive(a.raw.startTime);
    StrLtIrreflexive(a.raw.classNo);
    StrLtTotal(a.raw.startTime, b.raw.startTime);
    StrLtTotal(a.raw.classNo, b.raw.classNo);
    if StrLt(a.raw.startTime, b.raw.startTime) {
      StrLtAsymmetric(a.raw.startTime, b.raw.startTime);
    }
    if StrLt(a.raw.classNo, b.raw.classNo) {
      StrLtAsymmetric(a.raw.classNo, b.raw.classNo);
    }
    if !Before(b, a) && !Before(c, b) {
      StrLeTransitive(a.raw.startTime, b.raw.startTime, c.raw.startTime);
      StrLtTotal(a.raw.startTime, c.raw.startTime);
      if a.raw.startTime == c.raw.startTime {
        StrLtTotal(a.raw.startTime, b.raw.startTime);
        StrLtTotal(b.raw.startTime, c.raw.startTime);
        if StrLt(a.raw.startTime, b.raw.startTime) {
          StrLeLtTransitive(c.raw.startTime, a.raw.startTime, b.raw.startTime);
        }
        if StrLt(b.raw.startTime, c.raw.startTime) {
          StrLeLtTransitive(b.raw.startTime, c.raw.startTime, b.raw.startTime);
          StrLtIrreflexive(b.raw.startTime);
        }
        StrLeTransitive(a.raw.classNo, b.raw.classNo, c.raw.classNo);
      }
    }
  }

  /** Sorted by the comparator: no later element sorts strictly before an earlier one. */
  predicate Sorted(s: seq<Lesson>)
  {
    forall i, j :: 0 <= i < j < |s| ==> !Before(s[j], s[i])
  }

  /** The elements of `s` with the same key as `k`, in their order in `s`. */
  function WithKey(s: seq<Lesson>, k: Lesson): seq<Lesson>
  {
    if |s| == 0 then []
    else WithKey(s[..|s| - 1], k) + (if SameKey(s[|s| - 1], k) then [s[|s| - 1]] else [])
  }

  /** Insert `x` into a sorted sequence after every element that does not sort after it. */
  function Insert(t: seq<Lesson>, x: Lesson): seq<Lesson>
  {
    if |t| == 0 then [x]
    else if Before(x, t[|t| - 1]) then Insert(t[..|t| - 1], x) + [t[|t| - 1]]
    else t + [x]
  }

  /** `lessons.sort(comparator)`: JavaScript's sort is stable, so this is insertion sort. */
  function SortLessons(s: seq<Lesson>): seq<Lesson>
  {
    if |s| == 0 then [] else Insert(SortLessons(s[..|s| - 1]), s[|s| - 1])
  }

  lemma {:induction false} InsertMultiset(t: seq<Lesson>, x: Lesson)
    ensures multiset(Insert(t, x)) == multiset(t) + multiset{x}
  {
    if |t| > 0 && Before(x, t[|t| - 1]) {
      InsertMultiset(t[..|t| - 1], x);
      assert t == t[..|t| - 1] + [t[|t| - 1]];
    }
  }

  lemma {:induction false} InsertSorted(t: seq<Lesson>, x: Lesson)
    requires Sorted(t)
    ensures Sorted(Insert(t, x))
  {
    if |t| > 0 {
      var init, last := t[..|t| - 1], t[|t| - 1];
      if Before(x, last) {
        InsertSorted(init, x);
        var r := Insert(init, x);
        InsertMultiset(init, x);
        forall i | 0 <= i < |r| ensures !Before(last, r[i]) {
          assert r[i] in multiset(r);
          BeforeIsStrictWeakOrder(x, last, x);
          if r[i] != x {
            assert r[i] in multiset(init);
            var k :| 0 <= k < |init| && init[k] == r[i];
            assert t[k] == r[i];
          }
        }
      } else {
        forall i | 0 <= i < |t| ensures !Before(x, t[i]) {
          BeforeIsStrictWeakOrder(t[i], last, x);
        }
      }
    }
  }

  lemma {:induction false} WithKeyAppend(s: seq<Lesson>, u: seq<Lesson>, k: Lesson)
    ensures WithKey(s + u, k) == WithKey(s, k) + WithKey(u, k)
  {
    if |u| > 0 {
      var su := s + u;
      assert su[..|su| - 1] == s + u[..|u| - 1];
      WithKeyAppend(s, u[..|u| - 1], k);
    } else {
      assert s + u == s;
    }
  }

  /** Inserting `x` adds it at the end of the elements sharing its key. */
  lemma {:induction false} InsertWithKey(t: seq<Lesson>, x: Lesson, k: Lesson)
    ensures WithKey(Insert(t, x), k) == WithKey(t, k) + (if SameKey(x, k) then [x] else [])
  {
    if |t| > 0 {
      var init, last := t[..|t| - 1], t[|t| - 1];
      assert t == init + [last];
      if Before(x, last) {
        InsertWithKey(init, x, k);
        WithKeyAppend(Insert(init, x), [last], k);
        WithKeyAppend(init, [last], k);
        BeforeIsStrictWeakOrder(x, last, x);
        assert WithKey([last], k) == (if SameKey(last, k) then [last] else []);
      } else {
        WithKeyAppend(t, [x], k);
        assert WithKey([x], k) == (if SameKey(x, k) then [x] else []);
      }
    } else {
      assert WithKey([x], k) == (if SameKey(x, k) then [x] else []);
    }
  }

  /**
   * The sort is a sorted permutation of its input, and stable: the lessons
   * sharing a key keep their relative order. These three facts determine
   * the result.
   */
  lemma {:induction false} SortLessonsCorrect(s: seq<Lesson>)
    ensures Sorted(SortLessons(s))
    ensures multiset(SortLessons(s)) == multiset(s)
    ensures forall k :: WithKey(SortLessons(s), k) == WithKey(s, k)
  {
    if |s| > 0 {
      var init, x := s[..|s| - 1], s[|s| - 1];
      SortLessonsCorrect(init);
      InsertSorted(SortLessons(init), x);
      InsertMultiset(SortLessons(init), x);
      assert s == init + [x];
      forall k ensures WithKey(SortLessons(s), k) == WithKey(s, k) {
        InsertWithKey(SortLessons(init), x, k);
      }
    }
  }

  // ---------------------------------------------------------------------
  // Rows
  // ---------------------------------------------------------------------

  /** All rows, concatenated in row order. */
  function Flatten(rows: seq<seq<Lesson>>): seq<Lesson>
  {
    if |rows| == 0 then [] else rows[0] + Flatten(rows[1..])
  }

  /** A lesson fits a row when the row is empty or its last lesson does not overlap it. */
  predicate Fits(row: seq<Lesson>, x: Lesson)
  {
    |row| == 0 || !DoLessonsOverlap(row[|row| - 1].raw, x.raw)
  }

  /** The lowest-index row the lesson fits, or the number of rows when it fits none. */
  function FirstFit(rows: seq<seq<Lesson>>, x: Lesson): (i: nat)
    ensures i <= |rows|
    ensures forall j :: 0 <= j < i ==> !Fits(rows[j], x)
    ensures i < |rows| ==> Fits(rows[i], x)
  {
    if |rows| == 0 then 0
    else if Fits(rows[0], x) then 0
    else 1 + FirstFit(rows[1..], x)
  }

  /**
   * One step of the packing loop: the lesson joins the first row it fits,
   * and a new row is opened only when it overlaps the last lesson of every
   * existing row.
   */
  function Place(rows: seq<seq<Lesson>>, x: Lesson): (r: seq<seq<Lesson>>)
    ensures exists i :: (0 <= i <= |rows|
      && (forall j :: 0 <= j < i ==> !Fits(rows[j], x))
      && (i < |rows| ==> Fits(rows[i], x) && r == rows[i := rows[i] + [x]])
      && (i == |rows| ==> r == rows + [[x]]))
  {
    var i := FirstFit(rows, x);
    var r := if i < |rows| then rows[i := rows[i] + [x]] else rows + [[x]];
    assert 0 <= i <= |rows|
      && (forall j :: 0 <= j < i ==> !Fits(rows[j], x))
      && (i < |rows| ==> Fits(rows[i], x) && r == rows[i := rows[i] + [x]])
      && (i == |rows| ==> r == rows + [[x]]);
    r
  }

  /** The rows after placing the lessons of `s` in order, starting from one empty row. */
  function Pack(s: seq<Lesson>): seq<seq<Lesson>>
  {
    if |s| == 0 then [[]] else Place(Pack(s[..|s| - 1]), s[|s| - 1])
  }

  /** `arrangeLessonsWithinDay`: one empty row for no lessons, else the packing of the sorted lessons. */
  function ArrangeDay(s: seq<Lesson>): seq<seq<Lesson>>
  {
    if |s| == 0 then [[]] else Pack(SortLessons(s))
  }

  lemma {:induction false} FlattenAppend(rows: seq<seq<Lesson>>, r: seq<Lesson>)
    ensures Flatten(rows + [r]) == Flatten(rows) + r
  {
    if |rows| > 0 {
      assert (rows + [r])[1..] == rows[1..] + [r];
      FlattenAppend(rows[1..], r);
    }
  }

  lemma {:induction false} FlattenExtendRow(rows: seq<seq<Lesson>>, i: nat, x: Lesson)
    requires i < |rows|
    ensures multiset(Flatten(rows[i := rows[i] + [x]])) == multiset(Flatten(rows)) + multiset{x}
  {
    var u := rows[i := rows[i] + [x]];
    if i == 0 {
      assert u[1..] == rows[1..];
    } else {
      assert u[1..] == rows[1..][i - 1 := rows[1..][i - 1] + [x]];
      FlattenExtendRow(rows[1..], i - 1, x);
    }
  }

  /** Every lesson of every row occurs in the concatenation of the rows. */
  lemma {:induction false} InFlatten(rows: seq<seq<Lesson>>, k: nat, i: nat)
    requires k < |rows| && i < |rows[k]|
    ensures rows[k][i] in multiset(Flatten(rows))
  {
    if k > 0 {
      InFlatten(rows[1..], k - 1, i);
    }
  }

  lemma PlaceMultiset(rows: seq<seq<Lesson>>, x: Lesson)
    ensures multiset(Flatten(Place(rows, x))) == multiset(Flatten(rows)) + multiset{x}
    ensures |Place(rows, x)| >= |rows|
  {
    var i := FirstFit(rows, x);
    if i < |rows| {
      FlattenExtendRow(rows, i, x);
    } else {
      FlattenAppend(rows, [x]);
    }
  }

  /** Packing places each lesson exactly once and never yields an empty list of rows. */
  lemma {:induction false} PackPermutation(s: seq<Lesson>)
    ensures |Pack(s)| >= 1
    ensures multiset(Flatten(Pack(s))) == multiset(s)
  {
    if |s| == 0 {
      assert Flatten([[]]) == [];
    } else {
      PackPermutation(s[..|s| - 1]);
      PlaceMultiset(Pack(s[..|s| - 1]), s[|s| - 1]);
      assert s == s[..|s| - 1] + [s[|s| - 1]];
    }
  }

  /**
   * The day arrangement: exactly `[[]]` for no lessons; otherwise at least
   * one row, and the rows together hold every input lesson exactly once.
   */
  lemma ArrangeDayPermutation(s: seq<Lesson>)
    ensures s == [] ==> ArrangeDay(s) == [[]]
    ensures |ArrangeDay(s)| >= 1
    ensures multiset(Flatten(ArrangeDay(s))) == multiset(s)
  {
    if |s| > 0 {
      SortLessonsCorrect(s);
      PackPermutation(SortLessons(s));
    }
  }

  // ---------------------------------------------------------------------
  // No overlap within a row
  // ---------------------------------------------------------------------

  /** Each lesson starts before it ends. */
  predicate WellTimed(s: seq<Lesson>)
  {
    forall i :: 0 <= i < |s| ==> StrLt(s[i].raw.startTime, s[i].raw.endTime)
  }

  predicate OnDay(s: seq<Lesson>, d: string)
  {
    forall i :: 0 <= i < |s| ==> s[i].raw.day == d
  }

  /** Consecutive lessons of a row: the earlier one ends no later than the next one starts. */
  predicate Chained(row: seq<Lesson>)
  {
    forall k :: 0 <= k < |row| - 1 ==> StrLe(row[k].raw.endTime, row[k + 1].raw.startTime)
  }

  lemma {:induction false} ChainedPair(row: seq<Lesson>, i: nat, j: nat)
    requires Chained(row) && WellTimed(row)
    requires i < j < |row|
    ensures StrLe(row[i].raw.endTime, row[j].raw.startTime)
  {
    if j > i + 1 {
      ChainedPair(row, i, j - 1);
      StrLeLtTransitive(row[i].raw.endTime, row[j - 1].raw.startTime, row[j - 1].raw.endTime);
      StrLtAsymmetric(row[i].raw.endTime, row[j - 1].raw.endTime);
      StrLtTotal(row[i].raw.endTime, row[j - 1].raw.endTime);
      StrLeTransitive(row[i].raw.endTime, row[j - 1].raw.endTime, row[j].raw.startTime);
    }
  }

  /** In a chained row no two lessons overlap, and start times strictly increase. */
  lemma ChainedRowIsDisjoint(row: seq<Lesson>)
    requires Chained(row) && WellTimed(row)
    ensures forall i, j :: 0 <= i < j < |row| ==>
      !DoLessonsOverlap(row[i].raw, row[j].raw) && StrLt(row[i].raw.startTime, row[j].raw.startTime)
  {
    forall i, j | 0 <= i < j < |row|
      ensures !DoLessonsOverlap(row[i].raw, row[j].raw) && StrLt(row[i].raw.startTime, row[j].raw.startTime)
    {
      ChainedPair(row, i, j);
      TouchingLessonsDoNotOverlap(row[i].raw, row[j].raw);
      StrLeLtTransitive(row[i].raw.startTime, row[i].raw.endTime, row[j].raw.startTime);
      StrLtTotal(row[i].raw.endTime, row[j].raw.startTime);
      if StrLt(row[i].raw.endTime, row[j].raw.startTime) {
        StrLtTransitive(row[i].raw.startTime, row[i].raw.endTime, row[j].raw.startTime);
      }
    }
  }

  /** A lesson that starts when or after a chained row's last lesson ends extends the chain. */
  lemma ExtendChained(row: seq<Lesson>, x: Lesson)
    requires Chained(row)
    requires |row| > 0 ==> StrLe(row[|row| - 1].raw.endTime, x.raw.startTime)
    ensures Chained(row + [x])
  {
    var row' := row + [x];
    forall k | 0 <= k < |row'| - 1 ensures StrLe(row'[k].raw.endTime, row'[k + 1].raw.startTime) {
      if k < |row| - 1 {
        assert row'[k] == row[k] && row'[k + 1] == row[k + 1];
      }
    }
  }

  /** Placing a lesson that starts no earlier than every placed lesson keeps every row chained. */
  lemma PlaceKeepsChained(rows: seq<seq<Lesson>>, x: Lesson, d: string)
    requires forall k :: 0 <= k < |rows| ==> Chained(rows[k])
    requires forall k, i :: 0 <= k < |rows| && 0 <= i < |rows[k]| ==>
      rows[k][i].raw.day == d && StrLe(rows[k][i].raw.startTime, x.raw.startTime)
    requires x.raw.day == d && StrLt(x.raw.startTime, x.raw.endTime)
    ensures forall k :: 0 <= k < |Place(rows, x)| ==> Chained(Place(rows, x)[k])
  {
    var i := FirstFit(rows, x);
    if i < |rows| {
      var row := rows[i];
      if |row| > 0 {
        var last := row[|row| - 1];
        StrLeLtTransitive(last.raw.startTime, x.raw.startTime, x.raw.endTime);
        assert StrLe(last.raw.endTime, x.raw.startTime);
      }
      ExtendChained(row, x);
    } else {
      ExtendChained([], x);
    }
  }

  /**
   * Packing a sorted list of one day's well-timed lessons keeps every row
   * chained: checking only a row's last lesson suffices because the input
   * is sorted by start time.
   */
  lemma {:induction false} PackChained(s: seq<Lesson>, d: string)
    requires Sorted(s) && WellTimed(s) && OnDay(s, d)
    ensures forall k :: 0 <= k < |Pack(s)| ==> Chained(Pack(s)[k])
  {
    if |s| > 0 {
      var init, x := s[..|s| - 1], s[|s| - 1];
      PackChained(init, d);
      var rows: seq<seq<Lesson>> := Pack(init);
      PackPermutation(init);
      forall k: int, i: int | 0 <= k < |rows| && 0 <= i < |rows[k]|
        ensures rows[k][i].raw.day == d && StrLe(rows[k][i].raw.startTime, x.raw.startTime)
      {
        InFlatten(rows, k, i);
        assert rows[k][i] in multiset(init);
        var j :| 0 <= j < |init| && init[j] == rows[k][i];
        assert s[j] == rows[k][i];
        assert !Before(x, s[j]);
      }
      PlaceKeepsChained(rows, x, d);
    }
  }

  lemma MultisetWellTimed(a: seq<Lesson>, b: seq<Lesson>, d: string)
    requires multiset(a) == multiset(b) && WellTimed(a) && OnDay(a, d)
    ensures WellTimed(b) && OnDay(b, d)
  {
    forall i | 0 <= i < |b| ensures StrLt(b[i].raw.startTime, b[i].raw.endTime) && b[i].raw.day == d {
      assert b[i] in multiset(a);
      var j :| 0 <= j < |a| && a[j] == b[i];
    }
  }

  /**
   * For the lessons of one day, each starting before it ends, no two
   * lessons of a row overlap and each row is ordered by start time.
   */
  lemma ArrangeDayRowsDisjoint(s: seq<Lesson>, d: string)
    requires WellTimed(s) && OnDay(s, d)
    ensures forall k, i, j :: 0 <= k < |ArrangeDay(s)| && 0 <= i < j < |ArrangeDay(s)[k]| ==>
      !DoLessonsOverlap(ArrangeDay(s)[k][i].raw, ArrangeDay(s)[k][j].raw)
      && StrLt(ArrangeDay(s)[k][i].raw.startTime, ArrangeDay(s)[k][j].raw.startTime)
  {
    if |s| > 0 {
      var sorted := SortLessons(s);
      SortLessonsCorrect(s);
      MultisetWellTimed(s, sorted, d);
      PackChained(sorted, d);
      PackPermutation(sorted);
      var rows: seq<seq<Lesson>> := Pack(sorted);
      forall k: int | 0 <= k < |rows|
        ensures forall i, j :: 0 <= i < j < |rows[k]| ==>
          !DoLessonsOverlap(rows[k][i].raw, rows[k][j].raw) && StrLt(rows[k][i].raw.startTime, rows[k][j].raw.startTime)
      {
        forall i: int | 0 <= i < |rows[k]| ensures StrLt(rows[k][i].raw.startTime, rows[k][i].raw.endTime) {
          InFlatten(rows, k, i);
          assert rows[k][i] in multiset(sorted);
          var j :| 0 <= j < |sorted| && sorted[j] == rows[k][i];
        }
        ChainedRowIsDisjoint(rows[k]);
      }
    }
  }

  // ---------------------------------------------------------------------
  // In place, as the source does it
  // ---------------------------------------------------------------------

  /**
   * One pass of the in-place insertion sort: with `a[..i]` sorted, move
   * `a[i]` left past the lessons that sort after it.
   */
  method InsertInPlace(a: array<Lesson>, i: nat)
    requires i < a.Length
    modifies a
    ensures a[..i + 1] == Insert(old(a[..i]), old(a[i]))
    ensures forall k :: i < k < a.Length ==> a[k] == old(a[k])
  {
    ghost var t := a[..i];
    var x := a[i];
    var j := ShiftRight(a, i, x);
    a[j] := x;
    InsertAt(t, x, j);
    Reassemble(a[..i + 1], t, j, x);
  }

  /**
   * The shifting loop of one insertion pass: every lesson of `a[..i]` that
   * sorts after `x`, counting from the right, moves one place right,
   * leaving the gap at `j`.
   */
  method ShiftRight(a: array<Lesson>, i: nat, x: Lesson) returns (j: nat)
    requires i < a.Length
    modifies a
    ensures j <= i
    ensures forall k :: 0 <= k < a.Length ==> a[k] == if j < k <= i then old(a[k - 1]) else old(a[k])
    ensures forall k :: j <= k < i ==> Before(x, old(a[k]))
    ensures j == 0 || !Before(x, old(a[j - 1]))
  {
    j := i;
    while j > 0 && Before(x, a[j - 1])
      invariant 0 <= j <= i
      invariant forall k :: 0 <= k < a.Length ==> a[k] == if j < k <= i then old(a[k - 1]) else old(a[k])
      invariant forall k :: j <= k < i ==> Before(x, old(a[k]))
    {
      a[j] := a[j - 1];
      j := j - 1;
    }
  }

  /** Inserting `x` puts it right after the last lesson it does not sort before. */
  lemma {:induction false} InsertAt(t: seq<Lesson>, x: Lesson, j: nat)
    requires j <= |t|
    requires forall k :: j <= k < |t| ==> Before(x, t[k])
    requires j == 0 || !Before(x, t[j - 1])
    ensures Insert(t, x) == t[..j] + [x] + t[j..]
  {
    if |t| == 0 {
    } else if j == |t| {
      assert t[..j] == t;
    } else {
      var u := t[..|t| - 1];
      InsertAt(u, x, j);
      assert u[..j] == t[..j];
      assert u[j..] + [t[|t| - 1]] == t[j..];
    }
  }

  lemma Reassemble(u: seq<Lesson>, t: seq<Lesson>, j: nat, x: Lesson)
    requires |u| == |t| + 1 && j <= |t|
    requires forall k :: 0 <= k < j ==> u[k] == t[k]
    requires u[j] == x
    requires forall k :: j < k < |u| ==> u[k] == t[k - 1]
    ensures u == t[..j] + [x] + t[j..]
  {
  }

  /** `lessons.sort(comparator)`, in place on the caller's array. */
  method SortInPlace(a: array<Lesson>)
    modifies a
    ensures a[..] == SortLessons(old(a[..]))
  {
    ghost var input := a[..];
    var i := 0;
    while i < a.Length
      invariant 0 <= i <= a.Length
      invariant a[..i] == SortLessons(input[..i])
      invariant forall k :: i <= k < a.Length ==> a[k] == input[k]
    {
      InsertInPlace(a, i);
      assert input[..i + 1][..i] == input[..i];
      i := i + 1;
    }
    assert input[..a.Length] == input;
  }

  /**
   * The body of the packing loop for one lesson: scan the rows in order and
   * push the lesson onto the first row whose last lesson it does not
   * overlap; append a new row when there is none.
   */
  method PlaceLesson(rows: seq<seq<Lesson>>, lesson: Lesson) returns (rows': seq<seq<Lesson>>)
    ensures rows' == Place(rows, lesson)
  {
    var i := 0;
    while i < |rows|
      invariant 0 <= i <= |rows|
      invariant forall j :: 0 <= j < i ==> !Fits(rows[j], lesson)
    {
      if Fits(rows[i], lesson) {
        assert FirstFit(rows, lesson) == i;
        return rows[i := rows[i] + [lesson]];
      }
      i := i + 1;
    }
    assert FirstFit(rows, lesson) == |rows|;
    rows' := rows + [[lesson]];
  }

  /**
   * `arrangeLessonsWithinDay`: sorts the caller's array in place, then
   * places each lesson into the first row it fits, opening a new row when it
   * fits none.
   */
  method ArrangeLessonsWithinDay(lessons: array<Lesson>) returns (rows: seq<seq<Lesson>>)
    modifies lessons
    ensures lessons[..] == SortLessons(old(lessons[..]))
    ensures rows == ArrangeDay(old(lessons[..]))
  {
    rows := [[]];
    if lessons.Length == 0 {
      return;
    }
    SortInPlace(lessons);
    var n := 0;
    while n < lessons.Length
      invariant 0 <= n <= lessons.Length
      invariant lessons[..] == SortLessons(old(lessons[..]))
      invariant rows == Pack(lessons[..n])
    {
      rows := PlaceLesson(rows, lessons[n]);
      assert lessons[..n + 1][..n] == lessons[..n];
      n := n + 1;
    }
    assert lessons[..lessons.Length] == lessons[..];
  }

  // ---------------------------------------------------------------------
  // A whole week
  // ---------------------------------------------------------------------

  /** The lessons of `s` held on day `d`, in their order in `s`. */
  function LessonsOnDay(s: seq<Lesson>, d: string): (r: seq<Lesson>)
    ensures OnDay(r, d)
    ensures forall x :: multiset(r)[x] == if x.raw.day == d then multiset(s)[x] else 0
  {
    if |s| == 0 then []
    else
      var init, last := s[..|s| - 1], s[|s| - 1];
      assert s == init + [last];
      LessonsOnDay(init, d) + (if last.raw.day == d then [last] else [])
  }

  /** Selecting a day's lessons keeps their order: the selection distributes over concatenation. */
  lemma {:induction false} LessonsOnDayAppend(s: seq<Lesson>, t: seq<Lesson>, d: string)
    ensures LessonsOnDay(s + t, d) == LessonsOnDay(s, d) + LessonsOnDay(t, d)
  {
    if |t| == 0 {
      assert s + t == s;
    } else {
      var init, last := t[..|t| - 1], t[|t| - 1];
      assert t == init + [last];
      assert s + t == (s + init) + [last];
      LessonsOnDayAppend(s, init, d);
      LessonsOnDaySnoc(s + init, last, d);
      LessonsOnDaySnoc(init, last, d);
      var a, b, c := LessonsOnDay(s, d), LessonsOnDay(init, d), if last.raw.day == d then [last] else [];
      Seqs.Assoc(a, b, c);
    }
  }

  /** Appending one lesson appends it to the selection exactly when it is on the day. */
  lemma LessonsOnDaySnoc(s: seq<Lesson>, x: Lesson, d: string)
    ensures LessonsOnDay(s + [x], d) == LessonsOnDay(s, d) + (if x.raw.day == d then [x] else [])
  {
    assert (s + [x])[..|s|] == s;
  }

  /** A single lesson is kept exactly when it is on the day. */
  lemma LessonsOnDayOne(x: Lesson, d: string)
    ensures LessonsOnDay([x], d) == if x.raw.day == d then [x] else []
  {
    assert [x][..0] == [];
  }

  function Days(s: seq<Lesson>): set<string>
  {
    set i | 0 <= i < |s| :: s[i].raw.day
  }

  /** `groupLessonsByDay`: one entry per day present, holding that day's lessons. */
  function GroupLessonsByDay(s: seq<Lesson>): (g: map<string, seq<Lesson>>)
    ensures g.Keys == Days(s)
    ensures forall d :: d in g ==> |g[d]| > 0 && OnDay(g[d], d)
    ensures forall d, x :: d in g ==> multiset(g[d])[x] == if x.raw.day == d then multiset(s)[x] else 0
  {
    map d | d in Days(s) :: LessonsOnDay(s, d)
  }

  /** `arrangeLessonsForWeek`: each day's group packed on its own. */
  function ArrangeLessonsForWeek(s: seq<Lesson>): map<string, seq<seq<Lesson>>>
  {
    var g := GroupLessonsByDay(s);
    map d | d in g :: ArrangeDay(g[d])
  }

  /**
   * The week arrangement has exactly the days that have lessons; each day's
   * rows hold exactly that day's lessons, each once; and, for lessons that
   * start before they end, no two lessons of a row overlap.
   */
  lemma ArrangeWeekCorrect(s: seq<Lesson>)
    ensures ArrangeLessonsForWeek(s).Keys == Days(s)
    ensures forall d :: d in ArrangeLessonsForWeek(s) ==>
      ArrangeLessonsForWeek(s)[d] == ArrangeDay(LessonsOnDay(s, d))
      && forall x :: multiset(Flatten(ArrangeLessonsForWeek(s)[d]))[x] == if x.raw.day == d then multiset(s)[x] else 0
    ensures WellTimed(s) ==> forall d: string, k: int, i: int, j: int ::
      (d in ArrangeLessonsForWeek(s) && 0 <= k < |ArrangeLessonsForWeek(s)[d]|
       && 0 <= i < j < |ArrangeLessonsForWeek(s)[d][k]|) ==>
      !DoLessonsOverlap(ArrangeLessonsForWeek(s)[d][k][i].raw, ArrangeLessonsForWeek(s)[d][k][j].raw)
  {
    var w: map<string, seq<seq<Lesson>>> := ArrangeLessonsForWeek(s);
    forall d | d in w
      ensures forall x :: multiset(Flatten(w[d]))[x] == if x.raw.day == d then multiset(s)[x] else 0
    {
      ArrangeDayPermutation(LessonsOnDay(s, d));
    }
    if WellTimed(s) {
      forall d | d in w
        ensures forall k: int, i: int, j: int :: 0 <= k < |w[d]| && 0 <= i < j < |w[d][k]| ==>
          !DoLessonsOverlap(w[d][k][i].raw, w[d][k][j].raw)
      {
        var g := LessonsOnDay(s, d);
        forall i | 0 <= i < |g| ensures StrLt(g[i].raw.startTime, g[i].raw.endTime) {
          assert g[i] in multiset(g);
          assert g[i] in multiset(s);
          var j :| 0 <= j < |s| && s[j] == g[i];
        }
        ArrangeDayRowsDisjoint(g, d);
      }
    }
  }

  // ---------------------------------------------------------------------
  // Worked cases
  // ---------------------------------------------------------------------

  function MondayLesson(classNo: string, start: string, end: string): Lesson
  {
    Lesson(RawLesson(classNo, "Lecture", "Monday", start, end, "", [1]), "CS1010", "", false, false)
  }

  lemma PackOne(x: Lesson)
    ensures Pack([x]) == [[x]]
  {
    var e: seq<Lesson> := [];
    assert [x][..0] == e;
    assert Pack([x]) == Place(Pack(e), x);
    assert Pack(e) == [[]];
    assert Fits(e, x);
    assert FirstFit([e], x) == 0;
    assert Place([e], x) == [e][0 := e + [x]];
    assert e + [x] == [x];
    assert [e][0 := [x]] == [[x]];
  }

  lemma SortTwo(x: Lesson, y: Lesson)
    requires Before(x, y)
    ensures SortLessons([y, x]) == [x, y]
  {
    var e: seq<Lesson> := [];
    assert [y, x][..1] == [y];
    assert [y][..0] == e;
    assert SortLessons([y]) == Insert(SortLessons(e), y);
    assert SortLessons([y]) == [y];
    assert SortLessons([y, x]) == Insert([y], x);
    assert [y][..0] == e;
    assert Insert([y], x) == Insert(e, x) + [y];
  }

  /** Three mutually overlapping Monday lessons need three rows, one lesson each. */
  lemma ThreeOverlappingNeedThreeRows()
    ensures var a, b, c := MondayLesson("1", "0900", "1100"), MondayLesson("2", "1000", "1200"), MondayLesson("3", "1030", "1130");
      ArrangeDay([c, a, b]) == [[a], [b], [c]]
  {
    ThreeOverlappingSorted();
    ThreeOverlappingPacked();
  }

  lemma ThreeOverlappingSorted()
    ensures var a, b, c := MondayLesson("1", "0900", "1100"), MondayLesson("2", "1000", "1200"), MondayLesson("3", "1030", "1130");
      SortLessons([c, a, b]) == [a, b, c]
  {
    var a, b, c := MondayLesson("1", "0900", "1100"), MondayLesson("2", "1000", "1200"), MondayLesson("3", "1030", "1130");
    assert StrLt("0900", "1000") && StrLt("1000", "1030") && StrLt("0900", "1030");
    SortTwo(a, c);
    assert [c, a, b][..2] == [c, a];
    assert SortLessons([c, a, b]) == Insert([a, c], b);
    assert [a, c][..1] == [a];
    assert Insert([a, c], b) == Insert([a], b) + [c];
    assert [a][..0] == [];
    assert Insert([a], b) == [a, b];
  }

  lemma ThreeOverlappingPacked()
    ensures var a, b, c := MondayLesson("1", "0900", "1100"), MondayLesson("2", "1000", "1200"), MondayLesson("3", "1030", "1130");
      Pack([a, b, c]) == [[a], [b], [c]]
  {
    var a, b, c := MondayLesson("1", "0900", "1100"), MondayLesson("2", "1000", "1200"), MondayLesson("3", "1030", "1130");
    assert StrLt("1000", "1100") && StrLt("1030", "1100") && StrLt("1030", "1200");
    PackOne(a);
    assert [a, b, c][..2] == [a, b];
    assert [a, b][..1] == [a];
    assert FirstFit([[a]], b) == 1;
    assert Pack([a, b]) == [[a], [b]];
    assert FirstFit([[a], [b]], c) == 2;
  }

  /** A lesson starting exactly when another ends shares its row. */
  lemma TouchingLessonsShareARow()
    ensures var a, b := MondayLesson("1", "1000", "1200"), MondayLesson("2", "1200", "1400");
      ArrangeDay([b, a]) == [[a, b]]
  {
    var a, b := MondayLesson("1", "1000", "1200"), MondayLesson("2", "1200", "1400");
    assert StrLt("1000", "1200");
    StrLtIrreflexive("1200");
    SortTwo(a, b);
    PackOne(a);
    assert [a, b][..1] == [a];
    assert FirstFit([[a]], b) == 0;
  }
}
