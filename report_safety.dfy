/**
 * The report check of `src/day2.rs`: a report is safe when its levels
 * change in one direction only, by 1 to 3 at each step. The single pass
 * keeps the previous level in `last_level`, with -1 standing for "no
 * previous level"; a level equal to -1 therefore makes the next step go
 * unchecked, and the model keeps that.
 */
module ReportSafety {
  import opened Text

  /** The step from level j to level j + 1 is compared: level j is not the sentinel -1. */
  predicate Checked(report: seq<int>, j: int)
  {
    0 <= j < |report| - 1 && report[j] != -1
  }

  /** Every compared step lies between lo and hi. */
  predicate AllSteps(report: seq<int>, lo: int, hi: int)
  {
    forall j :: 0 <= j < |report| - 1 && report[j] != -1 ==> lo <= report[j + 1] - report[j] <= hi
  }

  /** What `level_is_safe` decides: all compared steps rise by 1..3, or all fall by 1..3. */
  predicate Safe(report: seq<int>)
    ensures Safe(report) ==> forall j :: Checked(report, j) ==> 1 <= Abs(report[j + 1] - report[j]) <= 3
  {
    AllSteps(report, 1, 3) || AllSteps(report, -3, -1)
  }

  /** The rule without the sentinel: every adjacent step rises by 1..3, or every one falls by 1..3. */
  predicate Gentle(report: seq<int>)
  {
    (forall j :: 0 <= j < |report| - 1 ==> 1 <= report[j + 1] - report[j] <= 3) ||
    (forall j :: 0 <= j < |report| - 1 ==> -3 <= report[j + 1] - report[j] <= -1)
  }

  /** Some compared step among the first n levels rises. */
  predicate RiseBefore(report: seq<int>, n: nat)
    requires n <= |report|
  {
    n >= 2 && (RiseBefore(report, n - 1) || (report[n - 2] != -1 && report[n - 1] - report[n - 2] > 0))
  }

  /** Some compared step among the first n levels falls. */
  predicate FallBefore(report: seq<int>, n: nat)
    requires n <= |report|
  {
    n >= 2 && (FallBefore(report, n - 1) || (report[n - 2] != -1 && report[n - 1] - report[n - 2] < 0))
  }

  /** A rise, if there is one, is at some compared step; if there is none, no compared step rises. */
  lemma {:induction false} RiseWitness(report: seq<int>, n: nat) returns (j: int)
    requires n <= |report|
    ensures RiseBefore(report, n) ==> Checked(report, j) && j + 1 < n && report[j + 1] - report[j] > 0
    ensures !RiseBefore(report, n) ==>
              forall k :: Checked(report, k) && k + 1 < n ==> report[k + 1] - report[k] <= 0
  {
    j := 0;
    if n >= 2 {
      j := RiseWitness(report, n - 1);
      if !RiseBefore(report, n - 1) {
        j := n - 2;
      }
    }
  }

  /** A fall, if there is one, is at some compared step; if there is none, no compared step falls. */
  lemma {:induction false} FallWitness(report: seq<int>, n: nat) returns (j: int)
    requires n <= |report|
    ensures FallBefore(report, n) ==> Checked(report, j) && j + 1 < n && report[j + 1] - report[j] < 0
    ensures !FallBefore(report, n) ==>
              forall k :: Checked(report, k) && k + 1 < n ==> report[k + 1] - report[k] >= 0
  {
    j := 0;
    if n >= 2 {
      j := FallWitness(report, n - 1);
      if !FallBefore(report, n - 1) {
        j := n - 2;
      }
    }
  }

  /** Every compared step among the first n levels changes by 1 to 3. */
  predicate GoodSteps(report: seq<int>, n: nat)
  {
    forall j :: 0 <= j < |report| - 1 && report[j] != -1 && j + 1 < n ==> 1 <= Abs(report[j + 1] - report[j]) <= 3
  }

  /** One more level keeps the compared steps good when the step it adds is good or not compared. */
  lemma GoodStepsNext(report: seq<int>, i: nat)
    requires i < |report| && GoodSteps(report, i)
    requires i >= 1 && report[i - 1] != -1 ==> 1 <= Abs(report[i] - report[i - 1]) <= 3
    ensures GoodSteps(report, i + 1)
  {
  }

  /** Level i adds its step to the rises and falls seen so far when the level before it is compared. */
  lemma RiseFallNext(report: seq<int>, i: nat)
    requires i < |report|
    ensures RiseBefore(report, i + 1) <==> RiseBefore(report, i) || (i >= 1 && report[i - 1] != -1 && report[i] - report[i - 1] > 0)
    ensures FallBefore(report, i + 1) <==> FallBefore(report, i) || (i >= 1 && report[i - 1] != -1 && report[i] - report[i - 1] < 0)
  {
  }

  /** At the end of the walk, good steps that never both rose and fell mean a safe report. */
  lemma SafeAtEnd(report: seq<int>)
    requires GoodSteps(report, |report|)
    requires !(RiseBefore(report, |report|) && FallBefore(report, |report|))
    ensures Safe(report)
  {
    var r := RiseWitness(report, |report|);
    var f := FallWitness(report, |report|);
  }

  /** The walk stops at level i because its step is bad or the walk has now both risen and fallen. */
  lemma StopUnsafe(report: seq<int>, i: nat)
    requires 1 <= i < |report| && report[i - 1] != -1
    requires var a := Abs(report[i] - report[i - 1]);
             a < 1 || a > 3 || (RiseBefore(report, i + 1) && FallBefore(report, i + 1))
    ensures !Safe(report)
  {
    var a := Abs(report[i] - report[i - 1]);
    if a < 1 || a > 3 {
      BadStepUnsafe(report, i - 1);
    } else {
      var r := RiseWitness(report, i + 1);
      var f := FallWitness(report, i + 1);
      MixedUnsafe(report, r, f);
    }
  }

  /**
   * `level_is_safe`: walks the report once, remembering the last level
   * and whether a rise or a fall has been seen, and gives up at the first
   * compared step that is flat, too steep, or turns the direction.
   */
  method LevelIsSafe(report: seq<int>) returns (safe: bool)
    ensures safe == Safe(report)
  {
    var lastLevel := -1;
    var increased := false;
    var decreased := false;
    for i := 0 to |report|
      invariant lastLevel == if i == 0 then -1 else report[i - 1]
      invariant increased == RiseBefore(report, i)
      invariant decreased == FallBefore(report, i)
      invariant !(increased && decreased)
      invariant GoodSteps(report, i)
    {
      RiseFallNext(report, i);
      var level := report[i];
      if lastLevel == -1 {
        GoodStepsNext(report, i);
        lastLevel := level;
        continue;
      }
      var difference := level - lastLevel;
      var abs := Abs(difference);
      if difference < 0 {
        decreased := true;
      } else if difference > 0 {
        increased := true;
      }
      if (increased && decreased) || (abs < 1 || abs > 3) {
        StopUnsafe(report, i);
        return false;
      }
      GoodStepsNext(report, i);
      lastLevel := level;
    }
    SafeAtEnd(report);
    return true;
  }

  /** Reports with fewer than two levels are safe. */
  lemma ShortReportSafe(report: seq<int>)
    requires |report| < 2
    ensures Safe(report)
  {
  }

  /** A compared step that is flat or steeper than 3 makes the report unsafe. */
  lemma BadStepUnsafe(report: seq<int>, j: int)
    requires Checked(report, j)
    requires Abs(report[j + 1] - report[j]) < 1 || Abs(report[j + 1] - report[j]) > 3
    ensures !Safe(report)
  {
  }

  /** A compared rise and a compared fall together make the report unsafe. */
  lemma MixedUnsafe(report: seq<int>, r: int, f: int)
    requires Checked(report, r) && report[r + 1] - report[r] > 0
    requires Checked(report, f) && report[f + 1] - report[f] < 0
    ensures !Safe(report)
  {
  }

  /** Without the sentinel value, the check is exactly the rule on all adjacent steps. */
  lemma SentinelFree(report: seq<int>)
    requires -1 !in report
    ensures Safe(report) <==> Gentle(report)
  {
    assert forall j :: 0 <= j < |report| - 1 ==> Checked(report, j);
  }

  /** A -1 level hides the step after it: [1, -1, 5] is judged safe although -1 to 5 rises by 6. */
  lemma SentinelSkipsStep()
    ensures Safe([1, -1, 5]) && !Gentle([1, -1, 5])
  {
    var r := [1, -1, 5];
    forall j | Checked(r, j) ensures -3 <= r[j + 1] - r[j] <= -1 {
      assert j == 0;
    }
    assert r[1] - r[0] == -2 && r[2] - r[1] == 6;
  }

  /** How many of the reports are safe. */
  function CountSafe(reports: seq<seq<int>>): (n: nat)
    ensures n <= |reports|
  {
    if reports == [] then 0
    else CountSafe(reports[..|reports| - 1]) + (if Safe(reports[|reports| - 1]) then 1 else 0)
  }

  /** Every report is counted exactly when every report is safe. */
  lemma {:induction false} CountSafeAll(reports: seq<seq<int>>)
    ensures CountSafe(reports) == |reports| <==> forall i :: 0 <= i < |reports| ==> Safe(reports[i])
  {
    if reports != [] {
      var front := reports[..|reports| - 1];
      CountSafeAll(front);
      assert forall i :: 0 <= i < |front| ==> front[i] == reports[i];
    }
  }

  /** `num_of_safe_levels`, returning the count it prints. */
  method NumOfSafeLevels(levels: seq<seq<int>>) returns (count: nat)
    ensures count == CountSafe(levels)
  {
    count := 0;
    for i := 0 to |levels|
      invariant count == CountSafe(levels[..i])
    {
      var safe := LevelIsSafe(levels[i]);
      assert levels[..i + 1][..i] == levels[..i];
      if safe {
        count := count + 1;
      }
    }
    assert levels[..|levels|] == levels;
  }
}
