/** Day 2: reactor reports (sequences of levels) judged safe when they
    move steadily in one direction; the dampened judgement tolerates one bad
    level. The reports arrive already parsed. */
module Day02Reports {

  /** Every adjacent pair `(a, b)` of the report satisfies `a <= b`. */
  predicate NonDecreasing(report: seq<int>)
  {
    forall i :: 0 <= i < |report| - 1 ==> report[i] <= report[i + 1]
  }

  /** Every adjacent pair `(a, b)` of the report satisfies `a >= b`. */
  predicate NonIncreasing(report: seq<int>)
  {
    forall i :: 0 <= i < |report| - 1 ==> report[i] >= report[i + 1]
  }

  /** Every adjacent pair differs by 1, 2 or 3. */
  predicate GentleSteps(report: seq<int>)
  {
    forall i :: 0 <= i < |report| - 1 ==> 1 <= Gap(report[i], report[i + 1]) <= 3
  }

  function Gap(a: int, b: int): nat
  {
    if a >= b then a - b else b - a
  }

  /** The safety judgement, built from the three window checks. */
  predicate Safe(report: seq<int>)
  {
    (NonIncreasing(report) || NonDecreasing(report)) && GentleSteps(report)
  }

  /** The same judgement said differently: every step rises by 1 to 3, or
      every step falls by 1 to 3. */
  predicate SteadyRun(report: seq<int>)
  {
    || (forall i :: 0 <= i < |report| - 1 ==> 1 <= report[i + 1] - report[i] <= 3)
    || (forall i :: 0 <= i < |report| - 1 ==> 1 <= report[i] - report[i + 1] <= 3)
  }

  lemma SafeIffSteadyRun(report: seq<int>)
    ensures Safe(report) <==> SteadyRun(report)
  {
  }

  /** Reports with fewer than two levels have no adjacent pair to fail. */
  lemma ShortReportsSafe(report: seq<int>)
    requires |report| <= 1
    ensures Safe(report)
  {
  }

  /** The report with level `i` left out. */
  function RemoveAt(report: seq<int>, i: nat): (r: seq<int>)
    requires i < |report|
    ensures |r| == |report| - 1
    ensures forall j :: 0 <= j < i ==> r[j] == report[j]
    ensures forall j :: i <= j < |r| ==> r[j] == report[j + 1]
  {
    report[..i] + report[i + 1..]
  }

  /** The dampened judgement: safe, or safe after removing one level. */
  predicate DampenedSafe(report: seq<int>)
  {
    Safe(report) || exists i :: 0 <= i < |report| && Safe(RemoveAt(report, i))
  }

  /** The program's dampened check: the plain check first, then every
      removal in turn, stopping at the first safe one. */
  method CheckDampened(report: seq<int>) returns (safe: bool)
    ensures safe <==> Safe(report) || exists i :: 0 <= i < |report| && Safe(RemoveAt(report, i))
  {
    if Safe(report) {
      return true;
    }
    var i := 0;
    while i < |report|
      invariant 0 <= i <= |report|
      invariant forall j :: 0 <= j < i ==> !Safe(RemoveAt(report, j))
    {
      if Safe(RemoveAt(report, i)) {
        return true;
      }
      i := i + 1;
    }
    return false;
  }

  /** Dropping the first level of a safe report leaves it safe, so every
      non-empty safe report already passes the removal loop. */
  lemma SafeWithoutFirst(report: seq<int>)
    requires Safe(report) && |report| >= 1
    ensures Safe(RemoveAt(report, 0))
  {
    var r := RemoveAt(report, 0);
    assert forall j :: 0 <= j < |r| ==> r[j] == report[j + 1];
  }

  /** Every safe report is dampened-safe. */
  lemma SafeIsDampenedSafe(report: seq<int>)
    requires Safe(report)
    ensures DampenedSafe(report)
  {
  }

  function CountSafe(reports: seq<seq<int>>): (n: nat)
    ensures n <= |reports|
  {
    if |reports| == 0 then 0
    else CountSafe(reports[..|reports| - 1]) + (if Safe(reports[|reports| - 1]) then 1 else 0)
  }

  function CountDampenedSafe(reports: seq<seq<int>>): (n: nat)
    ensures n <= |reports|
  {
    if |reports| == 0 then 0
    else CountDampenedSafe(reports[..|reports| - 1]) + (if DampenedSafe(reports[|reports| - 1]) then 1 else 0)
  }

  /** Part 2 never counts fewer reports than part 1. */
  lemma {:induction false} DampeningOnlyAdds(reports: seq<seq<int>>)
    ensures CountSafe(reports) <= CountDampenedSafe(reports)
  {
    if |reports| > 0 {
      DampeningOnlyAdds(reports[..|reports| - 1]);
      var last := reports[|reports| - 1];
      if Safe(last) {
        SafeIsDampenedSafe(last);
      }
    }
  }

  /** Two example reports that no single removal repairs ... */
  lemma ExampleHopelessRising(r: seq<int>)
    requires r == [1, 2, 7, 8, 9]
    ensures !DampenedSafe(r)
  {
    assert !(1 <= Gap(r[1], r[2]) <= 3);
    forall i | 0 <= i < 5
      ensures !Safe(RemoveAt(r, i))
    {
      var q := RemoveAt(r, i);
      if i <= 1 {
        assert !(1 <= Gap(q[0], q[1]) <= 3);
      } else {
        assert !(1 <= Gap(q[1], q[2]) <= 3);
      }
    }
  }

  lemma ExampleHopelessFalling(r: seq<int>)
    requires r == [9, 7, 6, 2, 1]
    ensures !DampenedSafe(r)
  {
    assert !(1 <= Gap(r[2], r[3]) <= 3);
    forall i | 0 <= i < 5
      ensures !Safe(RemoveAt(r, i))
    {
      var q := RemoveAt(r, i);
      if i <= 2 {
        assert !(1 <= Gap(q[1], q[2]) <= 3);
      } else {
        assert !(1 <= Gap(q[2], q[3]) <= 3);
      }
    }
  }

  /** ... and two that one removal does repair. */
  lemma ExampleRescuedRising(r: seq<int>)
    requires r == [1, 3, 2, 4, 5]
    ensures !Safe(r) && DampenedSafe(r)
  {
    assert r[0] < r[1] && r[1] > r[2];
    assert RemoveAt(r, 1) == [1, 2, 4, 5];
  }

  lemma ExampleRescuedFalling(r: seq<int>)
    requires r == [8, 6, 4, 4, 1]
    ensures !Safe(r) && DampenedSafe(r)
  {
    assert Gap(r[2], r[3]) == 0;
    assert RemoveAt(r, 2) == [8, 6, 4, 1];
  }

  /** Two example reports that are safe as they are. */
  lemma ExampleSafe(r: seq<int>, t: seq<int>)
    requires r == [7, 6, 4, 2, 1] && t == [1, 3, 6, 7, 9]
    ensures Safe(r) && Safe(t)
  {
    assert NonIncreasing(r) && GentleSteps(r);
    assert NonDecreasing(t) && GentleSteps(t);
  }

  /** The six example reports: two are safe and four dampened-safe. */
  lemma Example(reports: seq<seq<int>>)
    requires reports == [[7, 6, 4, 2, 1], [1, 2, 7, 8, 9], [9, 7, 6, 2, 1],
                         [1, 3, 2, 4, 5], [8, 6, 4, 4, 1], [1, 3, 6, 7, 9]]
    ensures CountSafe(reports) == 2
    ensures CountDampenedSafe(reports) == 4
  {
    ExampleSafe(reports[0], reports[5]);
    ExampleHopelessRising(reports[1]);
    ExampleHopelessFalling(reports[2]);
    ExampleRescuedRising(reports[3]);
    ExampleRescuedFalling(reports[4]);
    CountSixReports(reports);
  }

  lemma CountSixReports(p: seq<seq<int>>)
    requires |p| == 6
    requires Safe(p[0]) && Safe(p[5])
    requires !DampenedSafe(p[1]) && !DampenedSafe(p[2])
    requires !Safe(p[3]) && DampenedSafe(p[3]) && !Safe(p[4]) && DampenedSafe(p[4])
    ensures CountSafe(p) == 2 && CountDampenedSafe(p) == 4
  {
    SafeIsDampenedSafe(p[0]);
    SafeIsDampenedSafe(p[5]);
    assert CountSafe(p[..1]) == 1 && CountDampenedSafe(p[..1]) == 1;
    assert p[..2][..1] == p[..1] && p[..2][1] == p[1];
    assert CountSafe(p[..2]) == 1 && CountDampenedSafe(p[..2]) == 1;
    assert p[..3][..2] == p[..2] && p[..3][2] == p[2];
    assert CountSafe(p[..3]) == 1 && CountDampenedSafe(p[..3]) == 1;
    assert p[..4][..3] == p[..3] && p[..4][3] == p[3];
    assert CountSafe(p[..4]) == 1 && CountDampenedSafe(p[..4]) == 2;
    assert p[..5][..4] == p[..4] && p[..5][4] == p[4];
    assert CountSafe(p[..5]) == 1 && CountDampenedSafe(p[..5]) == 3;
    assert p[..6] == p && p[..6][..5] == p[..5];
  }
}
