/**
 * The week-range formatter: a lesson's increasing list of teaching weeks
 * becomes `null` (every one of the 13 weeks), `"Week n"`, `"Odd Weeks"`,
 * `"Even Weeks"`, or `"Weeks "` followed by numbers and ranges.
 */
module Weeks {
  import opened Wrappers
  import opened Strings
  import Seqs

  // ---------------------------------------------------------------------
  // deltas
  // ---------------------------------------------------------------------

  /** `deltas`: the differences between consecutive numbers; none for an empty list. */
  method Deltas(numbers: seq<int>) returns (result: seq<int>)
    ensures |result| == if |numbers| == 0 then 0 else |numbers| - 1
    ensures forall i :: 0 <= i < |result| ==> result[i] == numbers[i + 1] - numbers[i]
  {
    result := [];
    if |numbers| == 0 {
      return;
    }
    var previous := numbers[0];
    var i := 1;
    while i < |numbers|
      invariant 1 <= i <= |numbers|
      invariant previous == numbers[i - 1]
      invariant |result| == i - 1
      invariant forall k :: 0 <= k < |result| ==> result[k] == numbers[k + 1] - numbers[k]
    {
      result := result + [numbers[i] - previous];
      previous := numbers[i];
      i := i + 1;
    }
  }

  /** Every difference between consecutive weeks is 2 (vacuously so for fewer than two weeks). */
  predicate EveryOtherWeek(w: seq<int>)
  {
    forall i :: 0 <= i < |w| - 1 ==> w[i + 1] - w[i] == 2
  }

  /**
   * JavaScript's `a % 2`: the remainder takes the sign of the dividend, so
   * an odd negative number gives -1 where Dafny's `%` gives 1.
   */
  function JsRem2(a: int): (r: int)
    ensures r == 0 <==> a % 2 == 0
    ensures r == 1 <==> a > 0 && a % 2 == 1
    ensures r == -1 <==> a < 0 && a % 2 == 1
  {
    if a >= 0 then a % 2 else -((-a) % 2)
  }

  // ---------------------------------------------------------------------
  // Runs of consecutive weeks
  // ---------------------------------------------------------------------

  /** The consecutive numbers `s, s+1, ..., e` (empty when `e < s`); lodash `range(s, e + 1)`. */
  function Range(s: int, e: int): (r: seq<int>)
    ensures |r| == if e < s then 0 else e - s + 1
    decreases e - s
  {
    if e < s then [] else Range(s, e - 1) + [e]
  }

  /** The k-th number of a range is `s + k`. */
  lemma {:induction false} RangeAt(s: int, e: int, k: nat)
    requires k < |Range(s, e)|
    ensures Range(s, e)[k] == s + k
    decreases e - s
  {
    if k < |Range(s, e - 1)| {
      RangeAt(s, e - 1, k);
    }
  }

  /**
   * The runs the merging loop closes, as `(start, end)` pairs: a week one
   * more than the current run's end extends it, any other week opens a new run.
   */
  function Runs(w: seq<int>): (rs: seq<(int, int)>)
    ensures |rs| <= |w| && (|w| > 0 <==> |rs| > 0)
  {
    if |w| == 0 then []
    else
      var rs := Runs(w[..|w| - 1]);
      var next := w[|w| - 1];
      if |rs| > 0 && next - rs[|rs| - 1].1 == 1 then rs[..|rs| - 1] + [(rs[|rs| - 1].0, next)]
      else rs + [(next, next)]
  }

  /** All weeks the runs stand for, run after run. */
  function Expand(rs: seq<(int, int)>): seq<int>
  {
    if |rs| == 0 then [] else Expand(rs[..|rs| - 1]) + Range(rs[|rs| - 1].0, rs[|rs| - 1].1)
  }

  /** Every run is a non-empty interval, and two neighbouring runs cannot be joined. */
  predicate MaximalRuns(rs: seq<(int, int)>)
  {
    && (forall k :: 0 <= k < |rs| ==> rs[k].0 <= rs[k].1)
    && (forall k :: 0 <= k < |rs| - 1 ==> rs[k + 1].0 - rs[k].1 != 1)
  }

  lemma {:induction false} ExpandDropLast(rs: seq<(int, int)>, s: int, e: int)
    ensures Expand(rs + [(s, e)]) == Expand(rs) + Range(s, e)
  {
    assert (rs + [(s, e)])[..|rs|] == rs;
  }

  lemma ExtendLastRun(front: seq<(int, int)>, s: int, e: int)
    requires s <= e
    ensures Expand(front + [(s, e + 1)]) == Expand(front + [(s, e)]) + [e + 1]
  {
    ExpandDropLast(front, s, e);
    ExpandDropLast(front, s, e + 1);
    assert Range(s, e + 1) == Range(s, e) + [e + 1];
  }

  /** The runs reproduce the week list exactly. */
  lemma {:induction false} RunsCoverWeeks(w: seq<int>)
    ensures Expand(Runs(w)) == w
  {
    if |w| > 0 {
      var init, next := w[..|w| - 1], w[|w| - 1];
      assert w == init + [next];
      RunsCoverWeeks(init);
      RunsAreMaximal(init);
      CoverStep(init, next);
    }
  }

  lemma CoverStep(init: seq<int>, next: int)
    requires Expand(Runs(init)) == init && MaximalRuns(Runs(init))
    ensures Expand(Runs(init + [next])) == init + [next]
  {
    var rs := Runs(init);
    RunsSnoc(init, next);
    if |rs| > 0 && next - rs[|rs| - 1].1 == 1 {
      ExtendCover(rs, next);
    } else {
      ExpandDropLast(rs, next, next);
      assert Range(next, next) == [next];
    }
  }

  lemma ExtendCover(rs: seq<(int, int)>, next: int)
    requires |rs| > 0 && rs[|rs| - 1].0 <= rs[|rs| - 1].1 && next == rs[|rs| - 1].1 + 1
    ensures Expand(rs[..|rs| - 1] + [(rs[|rs| - 1].0, next)]) == Expand(rs) + [next]
  {
    var front, s, e := rs[..|rs| - 1], rs[|rs| - 1].0, rs[|rs| - 1].1;
    Seqs.FrontAndLast(rs);
    assert rs == front + [(s, e)];
    ExtendLastRun(front, s, e);
  }

  /** Every run is a non-empty interval and no two neighbouring runs could be merged. */
  lemma {:induction false} RunsAreMaximal(w: seq<int>)
    ensures MaximalRuns(Runs(w))
  {
    if |w| > 0 {
      var init, next := w[..|w| - 1], w[|w| - 1];
      assert w == init + [next];
      RunsAreMaximal(init);
      RunsSnoc(init, next);
      var rs := Runs(init);
      if |rs| > 0 && next - rs[|rs| - 1].1 == 1 {
        MaximalExtend(rs, next);
      } else {
        MaximalNewRun(rs, next);
      }
    }
  }

  lemma MaximalExtend(rs: seq<(int, int)>, next: int)
    requires MaximalRuns(rs) && |rs| > 0 && next == rs[|rs| - 1].1 + 1
    ensures MaximalRuns(rs[..|rs| - 1] + [(rs[|rs| - 1].0, next)])
  {
    var r := rs[..|rs| - 1] + [(rs[|rs| - 1].0, next)];
    forall k | 0 <= k < |r| - 1
      ensures r[k + 1].0 - r[k].1 != 1
    {
      assert r[k] == rs[k] && r[k + 1].0 == rs[k + 1].0;
    }
  }

  lemma MaximalNewRun(rs: seq<(int, int)>, next: int)
    requires MaximalRuns(rs) && !(|rs| > 0 && next - rs[|rs| - 1].1 == 1)
    ensures MaximalRuns(rs + [(next, next)])
  {
    var r := rs + [(next, next)];
    forall k | 0 <= k < |r| - 1
      ensures r[k + 1].0 - r[k].1 != 1
    {
      assert r[k] == rs[k];
    }
  }


  // ---------------------------------------------------------------------
  // Formatting
  // ---------------------------------------------------------------------

  /** `mergeConsecutive`: a run of four or more weeks as `"s-e"`, a shorter one as its numbers. */
  function RunTokens(s: int, e: int): (r: seq<string>)
    ensures e - s > 2 ==> r == [IntToString(s) + "-" + IntToString(e)]
    ensures e - s <= 2 ==> |r| == |Range(s, e)| && forall k :: 0 <= k < |r| ==> r[k] == IntToString(s + k)
  {
    if e - s > 2 then [IntToString(s) + "-" + IntToString(e)]
    else
      var ws := Range(s, e);
      var r := seq(|ws|, k requires 0 <= k < |ws| => IntToString(ws[k]));
      assert forall k :: 0 <= k < |r| ==> r[k] == IntToString(s + k) by {
        forall k | 0 <= k < |r|
          ensures r[k] == IntToString(s + k)
        {
          RangeAt(s, e, k);
        }
      }
      r
  }

  /** The tokens of all runs, in order. */
  function RunsTokens(rs: seq<(int, int)>): seq<string>
  {
    if |rs| == 0 then [] else RunsTokens(rs[..|rs| - 1]) + RunTokens(rs[|rs| - 1].0, rs[|rs| - 1].1)
  }

  /** What `formatNumericWeeks` returns; `None` is `null`. */
  function FormatWeeks(w: seq<int>): Option<string>
  {
    if |w| == 13 then None
    else if |w| == 1 then Some("Week " + IntToString(w[0]))
    else if |w| > 0 && EveryOtherWeek(w) && JsRem2(w[0]) == 0 && |w| >= 6 then Some("Even Weeks")
    else if |w| > 0 && EveryOtherWeek(w) && JsRem2(w[0]) == 1 && |w| >= 7 then Some("Odd Weeks")
    else Some("Weeks " + Join(RunsTokens(Runs(w)), ", "))
  }

  /** The merging loop of `formatNumericWeeks`: closes a run whenever the next week does not follow the current end. */
  method MergeConsecutive(weeks: seq<int>) returns (processed: seq<string>)
    ensures processed == RunsTokens(Runs(weeks))
  {
    processed := [];
    if |weeks| > 0 {
      var start := weeks[0];
      var end := start;
      var i := 1;
      ghost var closed: seq<(int, int)> := [];
      assert weeks[..1] == [] + [weeks[0]];
      RunsSnoc([], weeks[0]);
      while i < |weeks|
        invariant 1 <= i <= |weeks|
        invariant Runs(weeks[..i]) == closed + [(start, end)]
        invariant processed == RunsTokens(closed)
      {
        var next := weeks[i];
        assert weeks[..i + 1] == weeks[..i] + [next];
        RunsSnoc(weeks[..i], next);
        if next - end == 1 {
          end := next;
        } else {
          RunsTokensSnoc(closed, start, end);
          processed := processed + RunTokens(start, end);
          closed := closed + [(start, end)];
          start := next;
          end := start;
        }
        i := i + 1;
      }
      assert weeks[..i] == weeks;
      RunsTokensSnoc(closed, start, end);
      processed := processed + RunTokens(start, end);
    }
  }

  lemma RunsSnoc(init: seq<int>, next: int)
    ensures var rs := Runs(init);
      Runs(init + [next]) ==
        if |rs| > 0 && next - rs[|rs| - 1].1 == 1 then rs[..|rs| - 1] + [(rs[|rs| - 1].0, next)]
        else rs + [(next, next)]
  {
    assert (init + [next])[..|init|] == init;
  }

  lemma RunsTokensSnoc(rs: seq<(int, int)>, s: int, e: int)
    ensures RunsTokens(rs + [(s, e)]) == RunsTokens(rs) + RunTokens(s, e)
  {
    assert (rs + [(s, e)])[..|rs|] == rs;
  }

  /**
   * `formatNumericWeeks`: the two length checks, the odd/even check over
   * `deltas`, then the merged runs.
   */
  method FormatNumericWeeks(weeks: seq<int>) returns (r: Option<string>)
    ensures r == FormatWeeks(weeks)
  {
    if |weeks| == 13 {
      return None;
    }
    if |weeks| == 1 {
      return Some("Week " + IntToString(weeks[0]));
    }
    var d := Deltas(weeks);
    var every := true;
    var k := 0;
    while k < |d| && every
      invariant 0 <= k <= |d|
      invariant every <==> forall j :: 0 <= j < k ==> d[j] == 2
      invariant !every ==> !EveryOtherWeek(weeks)
    {
      if d[k] != 2 {
        assert weeks[k + 1] - weeks[k] != 2;
        every := false;
      }
      k := k + 1;
    }
    assert every <==> EveryOtherWeek(weeks);
    if every && |weeks| > 0 {
      if JsRem2(weeks[0]) == 0 && |weeks| >= 6 {
        return Some("Even Weeks");
      }
      if JsRem2(weeks[0]) == 1 && |weeks| >= 7 {
        return Some("Odd Weeks");
      }
    }
    var processed := MergeConsecutive(weeks);
    return Some("Weeks " + Join(processed, ", "));
  }

  // ---------------------------------------------------------------------
  // Properties
  // ---------------------------------------------------------------------

  /** `null` exactly for a 13-week list; one week reads `"Week n"`. */
  lemma FormatWeeksSpecialCases(w: seq<int>)
    ensures FormatWeeks(w).None? <==> |w| == 13
    ensures |w| == 1 ==> FormatWeeks(w) == Some("Week " + IntToString(w[0]))
  {
  }

  /**
   * A list stepping by two is `"Even Weeks"` when it starts even and has at
   * least six weeks, and `"Odd Weeks"` when it starts odd and has at least seven.
   */
  lemma {:induction false} FormatWeeksOddEven(w: seq<int>)
    requires |w| != 13 && |w| != 1 && |w| > 0 && EveryOtherWeek(w)
    ensures w[0] % 2 == 0 && |w| >= 6 ==> FormatWeeks(w) == Some("Even Weeks")
    ensures w[0] > 0 && w[0] % 2 == 1 && |w| >= 7 ==> FormatWeeks(w) == Some("Odd Weeks")
    ensures JsRem2(w[0]) == 0 && |w| < 6 ==> FormatWeeks(w) == Some("Weeks " + Join(RunsTokens(Runs(w)), ", "))
  {
    if w[0] < 0 && w[0] % 2 == 0 {
      assert (-w[0]) % 2 == 0;
    }
  }

  /**
   * Every other list reads `"Weeks "` and then the tokens of its maximal
   * runs, which together stand for exactly the listed weeks.
   */
  lemma FormatWeeksRanges(w: seq<int>)
    requires |w| != 13 && |w| != 1
    requires !(|w| > 0 && EveryOtherWeek(w) && ((JsRem2(w[0]) == 0 && |w| >= 6) || (JsRem2(w[0]) == 1 && |w| >= 7)))
    ensures FormatWeeks(w) == Some("Weeks " + Join(RunsTokens(Runs(w)), ", "))
    ensures Expand(Runs(w)) == w && MaximalRuns(Runs(w))
  {
    RunsCoverWeeks(w);
    RunsAreMaximal(w);
  }

  /** Every week number written out. */
  function WeekNumbers(ws: seq<int>): (r: seq<string>)
    ensures |r| == |ws|
  {
    seq(|ws|, k requires 0 <= k < |ws| => IntToString(ws[k]))
  }

  lemma WeekNumbersAppend(a: seq<int>, b: seq<int>)
    ensures WeekNumbers(a + b) == WeekNumbers(a) + WeekNumbers(b)
  {
  }

  /** A run of at most three weeks lists each of its weeks. */
  lemma ShortRunTokens(s: int, e: int)
    requires e - s <= 2
    ensures RunTokens(s, e) == WeekNumbers(Range(s, e))
  {
    var w := Range(s, e);
    forall k | 0 <= k < |w|
      ensures RunTokens(s, e)[k] == IntToString(w[k])
    {
      RangeAt(s, e, k);
    }
  }

  /** When no run is four weeks long, every week is listed on its own. */
  lemma {:induction false} ShortRunsListEveryWeek(rs: seq<(int, int)>)
    requires forall k :: 0 <= k < |rs| ==> rs[k].1 - rs[k].0 <= 2
    ensures RunsTokens(rs) == WeekNumbers(Expand(rs))
  {
    if |rs| > 0 {
      var front, s, e := rs[..|rs| - 1], rs[|rs| - 1].0, rs[|rs| - 1].1;
      Seqs.FrontAndLast(rs);
      assert rs == front + [(s, e)];
      ShortRunsListEveryWeek(front);
      ExpandDropLast(front, s, e);
      RunsTokensSnoc(front, s, e);
      ShortRunTokens(s, e);
      WeekNumbersAppend(Expand(front), Range(s, e));
    }
  }

  // ---------------------------------------------------------------------
  // Worked cases
  // ---------------------------------------------------------------------

  lemma NegativeOddRemainder()
    ensures JsRem2(-3) == -1 && JsRem2(-4) == 0 && JsRem2(3) == 1
  {
  }

  lemma SmallNumbers()
    ensures IntToString(1) == "1" && IntToString(2) == "2" && IntToString(3) == "3" && IntToString(4) == "4"
  {
    assert "0123456789"[1] == '1' && "0123456789"[2] == '2';
    assert "0123456789"[3] == '3' && "0123456789"[4] == '4';
  }

  lemma AllThirteenWeeks()
    ensures FormatWeeks([1, 2, 3, 4, 5, 6, 7, 8, 9, 10, 11, 12, 13]) == None
  {
  }

  lemma SingleWeek()
    ensures FormatWeeks([3]) == Some("Week 3")
  {
    SmallNumbers();
    var w := [3];
    assert |w| == 1 && w[0] == 3;
    assert FormatWeeks(w) == Some("Week " + IntToString(3));
    assert "Week " + IntToString(3) == "Week 3";
  }

  lemma EvenWeeks()
    ensures FormatWeeks([2, 4, 6, 8, 10, 12]) == Some("Even Weeks")
  {
    var w := [2, 4, 6, 8, 10, 12];
    assert forall i :: 0 <= i < |w| - 1 ==> w[i + 1] - w[i] == 2;
    assert EveryOtherWeek(w) && JsRem2(w[0]) == 0;
  }

  lemma OddWeeks()
    ensures FormatWeeks([1, 3, 5, 7, 9, 11, 13]) == Some("Odd Weeks")
  {
    var w := [1, 3, 5, 7, 9, 11, 13];
    assert forall i :: 0 <= i < |w| - 1 ==> w[i + 1] - w[i] == 2;
    assert EveryOtherWeek(w) && JsRem2(w[0]) == 1;
  }

  lemma RunsUpTo(n: int)
    requires 1 <= n <= 4
    ensures Runs(Range(1, n)) == [(1, n)]
  {
    if n > 1 {
      RunsUpTo(n - 1);
      assert Range(1, n) == Range(1, n - 1) + [n];
      RunsSnoc(Range(1, n - 1), n);
    } else {
      assert Range(1, 1) == [] + [1];
      RunsSnoc([], 1);
    }
  }

  /** The text for the single run of weeks 1 to n. */
  lemma OneRun(n: int)
    requires 2 <= n <= 4
    ensures FormatWeeks(Range(1, n)) == Some("Weeks " + Join(RunTokens(1, n), ", "))
  {
    var w := Range(1, n);
    RangeAt(1, n, 0);
    RangeAt(1, n, 1);
    assert !EveryOtherWeek(w) by {
      assert w[1] - w[0] == 1;
    }
    assert FormatWeeks(w) == Some("Weeks " + Join(RunsTokens(Runs(w)), ", "));
    RunsUpTo(n);
    var none: seq<(int, int)> := [];
    RunsTokensSnoc(none, 1, n);
    assert none + [(1, n)] == [(1, n)];
    assert RunsTokens(Runs(w)) == RunTokens(1, n);
  }

  /** Two consecutive weeks stay as single numbers. */
  lemma TwoWeeksStaySeparate()
    ensures FormatWeeks([1, 2]) == Some("Weeks 1, 2")
  {
    OneRun(2);
    assert Range(1, 2) == [1, 2];
    TwoWeeksText();
  }

  lemma TwoWeeksText()
    ensures "Weeks " + Join(RunTokens(1, 2), ", ") == "Weeks 1, 2"
  {
    SmallNumbers();
    var t := RunTokens(1, 2);
    assert |t| == 2 && t[0] == IntToString(1) && t[1] == IntToString(2);
    assert t == ["1", "2"];
    assert Join(["1", "2"], ", ") == "1, 2";
  }

  /** Three consecutive weeks also stay as single numbers: the doc comment's `1,2,3 => Weeks 1-3` is not what the code does. */
  lemma ThreeWeeksStaySeparate()
    ensures FormatWeeks([1, 2, 3]) == Some("Weeks 1, 2, 3")
  {
    OneRun(3);
    assert Range(1, 3) == [1, 2, 3];
    ThreeWeeksTokens();
    ThreeWeeksText();
  }

  lemma ThreeWeeksTokens()
    ensures RunTokens(1, 3) == ["1", "2", "3"]
  {
    SmallNumbers();
    var t := RunTokens(1, 3);
    assert |t| == 3 && t[0] == IntToString(1) && t[1] == IntToString(2) && t[2] == IntToString(3);
  }


  lemma ThreeWeeksText()
    ensures "Weeks " + Join(["1", "2", "3"], ", ") == "Weeks 1, 2, 3"
  {
    assert Join(["2", "3"], ", ") == "2, 3";
    assert Join(["1", "2", "3"], ", ") == "1, 2, 3";
  }

  /** Four consecutive weeks collapse into a range. */
  lemma FourWeeksCollapse()
    ensures FormatWeeks([1, 2, 3, 4]) == Some("Weeks 1-4")
  {
    SmallNumbers();
    OneRun(4);
    assert Range(1, 4) == [1, 2, 3, 4];
    assert RunTokens(1, 4) == [IntToString(1) + "-" + IntToString(4)];
    assert IntToString(1) + "-" + IntToString(4) == "1-4";
    assert Join(["1-4"], ", ") == "1-4";
    assert "Weeks " + "1-4" == "Weeks 1-4";
  }
}
