/** Day 5: page-ordering rules, the check of an update against them, the
    repair loop that moves pages until every rule holds, and the sums of
    middle pages. Rules and updates arrive already parsed. */
module Day05Pages {
  import opened Common

  /** Page numbers (`u64`). */
  type Page = nat

  /** `before` must come no later than `after` in an update holding both. */
  datatype OrderingRule = OrderingRule(before: Page, after: Page)

  /** `usize::MIN` and `usize::MAX`, the stand-ins for a missing page. */
  const UsizeMin: nat := 0
  const UsizeMax: nat := 0xFFFF_FFFF_FFFF_FFFF

  /** `position`: the index of the first occurrence of `page`. */
  function Position(update: seq<Page>, page: Page): (r: Option<nat>)
    ensures r.Some? ==> r.value < |update| && update[r.value] == page && page !in update[..r.value]
    ensures r.None? <==> page !in update
  {
    if |update| == 0 then None
    else if update[0] == page then Some(0)
    else match Position(update[1..], page)
      case None => None
      case Some(i) =>
        assert update[..i + 1] == [update[0]] + update[1..][..i];
        Some(i + 1)
  }

  /** `check_rule`: a missing `before` page counts as index `usize::MIN`, a
      missing `after` page as `usize::MAX`; then the first indices compare. */
  function CheckRule(rule: OrderingRule, update: seq<Page>): bool
  {
    var b := match Position(update, rule.before) case Some(i) => i case None => UsizeMin;
    var a := match Position(update, rule.after) case Some(i) => i case None => UsizeMax;
    b <= a
  }

  /** Reference reading of a rule: when `before` occurs at all, it occurs
      at or before every occurrence of `after`. */
  predicate RuleRespected(rule: OrderingRule, update: seq<Page>)
  {
    rule.before in update ==>
      forall j :: 0 <= j < |update| && update[j] == rule.after ==> rule.before in update[..j + 1]
  }

  /** The index comparison decides exactly the reference reading (a slice
      never holds more than `usize::MAX` pages). */
  lemma CheckRuleRespected(rule: OrderingRule, update: seq<Page>)
    requires |update| <= UsizeMax
    ensures CheckRule(rule, update) <==> RuleRespected(rule, update)
  {
    var pb, pa := Position(update, rule.before), Position(update, rule.after);
    if pb.Some? && pa.Some? {
      var b, a := pb.value, pa.value;
      if b <= a {
        forall j | 0 <= j < |update| && update[j] == rule.after
          ensures rule.before in update[..j + 1]
        {
          assert update[..j + 1][b] == rule.before;
        }
      } else {
        assert update[a] == rule.after;
      }
    }
  }

  /** With every page distinct, a rule holds exactly when `before` sits at
      a smaller index than `after`. */
  lemma CheckRuleIndices(rule: OrderingRule, update: seq<Page>, i: nat, j: nat)
    requires i < |update| && j < |update| && update[i] == rule.before && update[j] == rule.after
    requires forall k, l :: 0 <= k < l < |update| ==> update[k] != update[l]
    ensures CheckRule(rule, update) <==> i <= j
  {
    var b, a := Position(update, rule.before).value, Position(update, rule.after).value;
    assert b == i;
    assert a == j;
  }

  /** A rule whose `before` page is missing holds whatever the update. */
  lemma AbsentBeforePasses(rule: OrderingRule, update: seq<Page>)
    requires rule.before !in update
    ensures CheckRule(rule, update)
  {
  }

  /** `check_rules`: every rule holds. */
  predicate CheckRules(rules: seq<OrderingRule>, update: seq<Page>)
  {
    if |rules| == 0 then true
    else CheckRule(rules[0], update) && CheckRules(rules[1..], update)
  }

  /** `all`: the rules hold together exactly when each one holds. */
  lemma {:induction false} CheckRulesAll(rules: seq<OrderingRule>, update: seq<Page>)
    ensures CheckRules(rules, update) <==> forall k :: 0 <= k < |rules| ==> CheckRule(rules[k], update)
  {
    if |rules| > 0 {
      CheckRulesAll(rules[1..], update);
      assert forall k :: 1 <= k < |rules| ==> rules[k] == rules[1..][k - 1];
    }
  }

  /** `update.swap(i, j)`. */
  function Swap(update: seq<Page>, i: nat, j: nat): (r: seq<Page>)
    requires i < |update| && j < |update|
    ensures |r| == |update|
  {
    update[i := update[j]][j := update[i]]
  }

  /** A swap keeps the same pages. */
  lemma SwapPermutes(update: seq<Page>, i: nat, j: nat)
    requires i < |update| && j < |update|
    ensures multiset(Swap(update, i, j)) == multiset(update)
  {
    if i != j {
      assert multiset(update[i := update[j]]) == multiset(update) - multiset{update[i]} + multiset{update[j]};
    }
  }

  /** The swap loop `for i in (after_idx..before_idx).rev() { swap(i, i + 1) }`. */
  function SwapsDown(update: seq<Page>, a: nat, b: nat): (r: seq<Page>)
    requires a <= b < |update|
    ensures |r| == |update|
    decreases b - a
  {
    if b == a then update else SwapsDown(Swap(update, b - 1, b), a, b - 1)
  }

  /** The swap loop keeps the same pages. */
  lemma {:induction false} SwapsDownPermutes(update: seq<Page>, a: nat, b: nat)
    requires a <= b < |update|
    ensures multiset(SwapsDown(update, a, b)) == multiset(update)
    decreases b - a
  {
    if b > a {
      SwapPermutes(update, b - 1, b);
      SwapsDownPermutes(Swap(update, b - 1, b), a, b - 1);
    }
  }

  /** Reference: the segment from `a` to `b` rotated right by one, which
      moves the page at `b` to `a` and shifts the pages in between along. */
  function RotateRight(update: seq<Page>, a: nat, b: nat): (r: seq<Page>)
    requires a <= b < |update|
    ensures |r| == |update|
  {
    seq(|update|, k requires 0 <= k < |update| =>
      if k < a || b < k then update[k] else if k == a then update[b] else update[k - 1])
  }

  /** The swap loop performs exactly that rotation. */
  lemma {:induction false} SwapsDownRotates(update: seq<Page>, a: nat, b: nat)
    requires a <= b < |update|
    ensures SwapsDown(update, a, b) == RotateRight(update, a, b)
    decreases b - a
  {
    if b > a {
      var u := Swap(update, b - 1, b);
      SwapsDownRotates(u, a, b - 1);
      RotateAfterSwap(update, a, b);
      SwapsDownStep(update, a, b, RotateRight(update, a, b));
    } else {
      var q := RotateRight(update, a, b);
      assert forall k :: 0 <= k < |q| ==> q[k] == update[k];
    }
  }

  lemma SwapsDownStep(update: seq<Page>, a: nat, b: nat, r: seq<Page>)
    requires a < b < |update|
    requires SwapsDown(Swap(update, b - 1, b), a, b - 1) == r
    ensures SwapsDown(update, a, b) == r
  {
  }

  /** Rotating one step less after the last swap is the whole rotation. */
  lemma RotateAfterSwap(update: seq<Page>, a: nat, b: nat)
    requires a < b < |update|
    ensures RotateRight(Swap(update, b - 1, b), a, b - 1) == RotateRight(update, a, b)
  {
    var u := Swap(update, b - 1, b);
    var r, q := RotateRight(u, a, b - 1), RotateRight(update, a, b);
    forall k | 0 <= k < |r|
      ensures r[k] == q[k]
    {
      if k < a || b < k {
      } else if k == a {
      } else if k < b {
      } else {
      }
    }
  }

  /** Moving the `before` page in front of the first `after` page repairs
      the rule that was broken. */
  lemma RotationRepairs(rule: OrderingRule, update: seq<Page>)
    requires Position(update, rule.before).Some? && Position(update, rule.after).Some?
    requires Position(update, rule.after).value < Position(update, rule.before).value
    ensures CheckRule(rule, RotateRight(update, Position(update, rule.after).value, Position(update, rule.before).value))
  {
    var a, b := Position(update, rule.after).value, Position(update, rule.before).value;
    var r := RotateRight(update, a, b);
    assert r[..a] == update[..a];
    var pb, pa := Position(r, rule.before), Position(r, rule.after);
    assert r[a] == rule.before;
    assert pb.Some? && pb.value <= a;
    assert r[a + 1] == rule.after;
    assert rule.after !in r[..a + 1] by {
      assert r[..a + 1] == update[..a] + [rule.before];
    }
    assert pa.Some? && pa.value >= a + 1;
  }

  /** Whether `fix_update` acts on the rule: both pages are present and
      the first `after` page comes before the first `before` page. */
  predicate Broken(rule: OrderingRule, update: seq<Page>)
  {
    var pb, pa := Position(update, rule.before), Position(update, rule.after);
    pb.Some? && pa.Some? && pa.value < pb.value
  }

  /** The update after `fix_update` has looked at the rule: the swap loop
      moves the `before` page in front of the `after` page when the rule is
      broken, and nothing changes otherwise. */
  function Moved(rule: OrderingRule, update: seq<Page>): (r: seq<Page>)
    ensures |r| == |update|
  {
    if Broken(rule, update) then
      SwapsDown(update, Position(update, rule.after).value, Position(update, rule.before).value)
    else update
  }

  /** A skipped rule is one the check accepts; an acted-on rule is one it
      rejects, and after the move the check accepts it. */
  lemma MovedRepairs(rule: OrderingRule, update: seq<Page>)
    ensures Broken(rule, update) ==> !CheckRule(rule, update)
    ensures |update| <= UsizeMax && !Broken(rule, update) ==> CheckRule(rule, update)
    ensures CheckRule(rule, Moved(rule, update)) || !Broken(rule, update)
    ensures multiset(Moved(rule, update)) == multiset(update)
  {
    if Broken(rule, update) {
      var a, b := Position(update, rule.after).value, Position(update, rule.before).value;
      SwapsDownRotates(update, a, b);
      SwapsDownPermutes(update, a, b);
      RotationRepairs(rule, update);
    }
  }

  /** `fix_update`: cycle through the rules from rule `k`; skip a rule with
      a missing page or already in order, otherwise move the `before` page
      into place and stop as soon as every rule holds. An empty rule list
      ends the cycle at once. An update that already satisfies every rule
      makes the loop cycle forever, which `fuel` bounds: `None` when it runs
      out. */
  function FixFrom(rules: seq<OrderingRule>, update: seq<Page>, k: nat, fuel: nat): (r: Option<seq<Page>>)
    requires |rules| == 0 || k < |rules|
    ensures r.Some? ==> CheckRules(rules, r.value)
    decreases fuel
  {
    if |rules| == 0 then Some(update)
    else if fuel == 0 then None
    else
      var moved := Moved(rules[k], update);
      if Broken(rules[k], update) && CheckRules(rules, moved) then Some(moved)
      else FixFrom(rules, moved, (k + 1) % |rules|, fuel - 1)
  }

  function FixUpdate(rules: seq<OrderingRule>, update: seq<Page>, fuel: nat): (r: Option<seq<Page>>)
    ensures r.Some? ==> CheckRules(rules, r.value)
  {
    FixFrom(rules, update, 0, fuel)
  }

  /** The repair only moves pages around: whatever it returns is a
      permutation of the update. */
  lemma {:induction false} FixFromPermutes(rules: seq<OrderingRule>, update: seq<Page>, k: nat, fuel: nat)
    requires |rules| == 0 || k < |rules|
    ensures FixFrom(rules, update, k, fuel).Some? ==> multiset(FixFrom(rules, update, k, fuel).value) == multiset(update)
    decreases fuel
  {
    if |rules| > 0 && fuel > 0 {
      var moved := Moved(rules[k], update);
      MovedRepairs(rules[k], update);
      FixFromPermutes(rules, moved, (k + 1) % |rules|, fuel - 1);
    }
  }

  lemma FixUpdatePermutes(rules: seq<OrderingRule>, update: seq<Page>, fuel: nat)
    ensures FixUpdate(rules, update, fuel).Some? ==> multiset(FixUpdate(rules, update, fuel).value) == multiset(update)
  {
    FixFromPermutes(rules, update, 0, fuel);
  }

  /** On an update that every rule already accepts, the loop never stops:
      however much fuel it gets, it returns nothing. */
  lemma {:induction false} FixValidNeverReturns(rules: seq<OrderingRule>, update: seq<Page>, k: nat, fuel: nat)
    requires 0 < |rules| && k < |rules| && CheckRules(rules, update)
    ensures FixFrom(rules, update, k, fuel).None?
    decreases fuel
  {
    if fuel > 0 {
      CheckRulesAll(rules, update);
      MovedRepairs(rules[k], update);
      FixValidNeverReturns(rules, update, (k + 1) % |rules|, fuel - 1);
    }
  }

  /** On a broken rule the move is the rotation that puts the `before`
      page at the first `after` page's index. */
  lemma MovedRotates(rule: OrderingRule, update: seq<Page>)
    requires Broken(rule, update)
    ensures Moved(rule, update) == RotateRight(update, Position(update, rule.after).value, Position(update, rule.before).value)
  {
    SwapsDownRotates(update, Position(update, rule.after).value, Position(update, rule.before).value);
  }

  /** The middle page, `update[len / 2]`; an empty update panics. */
  function Middle(update: seq<Page>): (r: Option<Page>)
    ensures r.Some? <==> |update| > 0
    ensures r.Some? ==> r.value in update
  {
    if |update| == 0 then None else Some(update[|update| / 2])
  }

  /** Adds an optional page to an optional total; `None` wins. */
  function AddPage(total: Option<nat>, page: Option<Page>): Option<nat>
  {
    if total.None? || page.None? then None else Some(total.value + page.value)
  }

  /** Part 1: the middle pages of the updates that satisfy every rule. */
  function SumValidMiddles(rules: seq<OrderingRule>, updates: seq<seq<Page>>): Option<nat>
  {
    if |updates| == 0 then Some(0)
    else
      var last := updates[|updates| - 1];
      var total := SumValidMiddles(rules, updates[..|updates| - 1]);
      if CheckRules(rules, last) then AddPage(total, Middle(last)) else total
  }

  /** Part 2: the middle pages of the updates that break some rule, after
      repair. */
  function SumFixedMiddles(rules: seq<OrderingRule>, updates: seq<seq<Page>>, fuel: nat): Option<nat>
  {
    if |updates| == 0 then Some(0)
    else
      var last := updates[|updates| - 1];
      var total := SumFixedMiddles(rules, updates[..|updates| - 1], fuel);
      if CheckRules(rules, last) then total
      else match FixUpdate(rules, last, fuel)
        case None => None
        case Some(fixed) => AddPage(total, Middle(fixed))
  }

  /** Part 2 adds nothing for an input whose updates all pass. */
  lemma {:induction false} SumFixedMiddlesAllValid(rules: seq<OrderingRule>, updates: seq<seq<Page>>, fuel: nat)
    requires forall i :: 0 <= i < |updates| ==> CheckRules(rules, updates[i])
    ensures SumFixedMiddles(rules, updates, fuel) == Some(0)
  {
    if |updates| > 0 {
      SumFixedMiddlesAllValid(rules, updates[..|updates| - 1], fuel);
    }
  }

  /** The page part 2 takes from a repaired update is one of the update's
      own pages, and the repaired update passes every rule. */
  lemma FixedMiddle(rules: seq<OrderingRule>, update: seq<Page>, fuel: nat)
    requires FixUpdate(rules, update, fuel).Some? && |update| > 0
    ensures CheckRules(rules, FixUpdate(rules, update, fuel).value)
    ensures Middle(FixUpdate(rules, update, fuel).value).Some?
    ensures Middle(FixUpdate(rules, update, fuel).value).value in update
  {
    var fixed := FixUpdate(rules, update, fuel).value;
    FixUpdatePermutes(rules, update, fuel);
    assert |fixed| == |update| by {
      assert |multiset(fixed)| == |multiset(update)|;
    }
    assert fixed[|fixed| / 2] in multiset(update);
  }

  /** Reference for part 1: the updates that pass every rule, in order. */
  function ValidUpdates(rules: seq<OrderingRule>, updates: seq<seq<Page>>): seq<seq<Page>>
  {
    if |updates| == 0 then []
    else
      var r := ValidUpdates(rules, updates[..|updates| - 1]);
      if CheckRules(rules, updates[|updates| - 1]) then r + [updates[|updates| - 1]] else r
  }

  /** The filter keeps exactly the updates that pass. */
  lemma {:induction false} ValidUpdatesMembers(rules: seq<OrderingRule>, updates: seq<seq<Page>>, u: seq<Page>)
    ensures u in ValidUpdates(rules, updates) <==> u in updates && CheckRules(rules, u)
  {
    if |updates| > 0 {
      var front := updates[..|updates| - 1];
      ValidUpdatesMembers(rules, front, u);
      assert updates == front + [updates[|updates| - 1]];
    }
  }

  function MiddleSum(updates: seq<seq<Page>>): Option<nat>
  {
    if |updates| == 0 then Some(0)
    else AddPage(MiddleSum(updates[..|updates| - 1]), Middle(updates[|updates| - 1]))
  }

  /** Part 1 is the middle-page sum of the updates that pass every rule. */
  lemma {:induction false} SumValidMiddlesFilter(rules: seq<OrderingRule>, updates: seq<seq<Page>>)
    ensures SumValidMiddles(rules, updates) == MiddleSum(ValidUpdates(rules, updates))
  {
    if |updates| > 0 {
      var last := updates[|updates| - 1];
      SumValidMiddlesFilter(rules, updates[..|updates| - 1]);
      var r := ValidUpdates(rules, updates[..|updates| - 1]);
      if CheckRules(rules, last) {
        assert (r + [last])[..|r|] == r;
      }
    }
  }

  /** Reference for part 2: the updates that break some rule, in order. */
  function InvalidUpdates(rules: seq<OrderingRule>, updates: seq<seq<Page>>): seq<seq<Page>>
  {
    if |updates| == 0 then []
    else
      var r := InvalidUpdates(rules, updates[..|updates| - 1]);
      if CheckRules(rules, updates[|updates| - 1]) then r else r + [updates[|updates| - 1]]
  }

  /** The filter keeps exactly the updates that break some rule. */
  lemma {:induction false} InvalidUpdatesMembers(rules: seq<OrderingRule>, updates: seq<seq<Page>>, u: seq<Page>)
    ensures u in InvalidUpdates(rules, updates) <==> u in updates && !CheckRules(rules, u)
  {
    if |updates| > 0 {
      var front := updates[..|updates| - 1];
      InvalidUpdatesMembers(rules, front, u);
      assert updates == front + [updates[|updates| - 1]];
    }
  }

  /** Every update repaired in turn; `None` when any repair runs out of
      fuel. */
  function RepairAll(rules: seq<OrderingRule>, us: seq<seq<Page>>, fuel: nat): Option<seq<seq<Page>>>
  {
    if |us| == 0 then Some([])
    else
      match RepairAll(rules, us[..|us| - 1], fuel)
      case None => None
      case Some(fs) =>
        match FixUpdate(rules, us[|us| - 1], fuel)
        case None => None
        case Some(fixed) => Some(fs + [fixed])
  }

  /** The repairs fail exactly when one of them does; otherwise the `i`-th
      result is the repair of the `i`-th update. */
  lemma {:induction false} RepairAllMeans(rules: seq<OrderingRule>, us: seq<seq<Page>>, fuel: nat)
    ensures RepairAll(rules, us, fuel).None? <==> exists i :: 0 <= i < |us| && FixUpdate(rules, us[i], fuel).None?
    ensures RepairAll(rules, us, fuel).Some? ==>
      var fs := RepairAll(rules, us, fuel).value;
      |fs| == |us| && forall i :: 0 <= i < |us| ==> FixUpdate(rules, us[i], fuel) == Some(fs[i])
  {
    if |us| > 0 {
      var front := us[..|us| - 1];
      RepairAllMeans(rules, front, fuel);
      assert forall i :: 0 <= i < |front| ==> us[i] == front[i];
      if RepairAll(rules, front, fuel).None? {
        var i :| 0 <= i < |front| && FixUpdate(rules, front[i], fuel).None?;
        assert FixUpdate(rules, us[i], fuel).None?;
      }
    }
  }

  /** Part 2 is the middle-page sum of the updates that break some rule,
      each repaired, and fails when a repair does. */
  lemma {:induction false} SumFixedMiddlesFilter(rules: seq<OrderingRule>, updates: seq<seq<Page>>, fuel: nat)
    ensures SumFixedMiddles(rules, updates, fuel)
         == match RepairAll(rules, InvalidUpdates(rules, updates), fuel)
            case None => None
            case Some(fixed) => MiddleSum(fixed)
  {
    if |updates| > 0 {
      var front := updates[..|updates| - 1];
      var last := updates[|updates| - 1];
      SumFixedMiddlesFilter(rules, front, fuel);
      var x := InvalidUpdates(rules, front);
      if !CheckRules(rules, last) {
        assert (x + [last])[..|x|] == x;
        match RepairAll(rules, x, fuel)
        case None =>
        case Some(fs) =>
          match FixUpdate(rules, last, fuel)
          case None =>
          case Some(fixed) =>
            assert (fs + [fixed])[..|fs|] == fs;
      }
    }
  }

  /** An empty update passes every rule, since both pages are missing from
      it ... */
  lemma EmptyPasses(rules: seq<OrderingRule>)
    ensures CheckRules(rules, [])
  {
    CheckRulesAll(rules, []);
  }

  /** ... so part 1 aborts exactly when some update is empty. */
  lemma {:induction false} SumValidMiddlesAborts(rules: seq<OrderingRule>, updates: seq<seq<Page>>)
    ensures SumValidMiddles(rules, updates).None? <==> [] in updates
  {
    if |updates| > 0 {
      var front := updates[..|updates| - 1];
      SumValidMiddlesAborts(rules, front);
      EmptyPasses(rules);
      assert updates == front + [updates[|updates| - 1]];
    }
  }

  /** The part 1 rule check on the first update of the example. */
  lemma ExampleValid(rules: seq<OrderingRule>, update: seq<Page>)
    requires rules == [OrderingRule(47, 53), OrderingRule(97, 13), OrderingRule(97, 61)]
    requires update == [75, 47, 61, 53, 29]
    ensures CheckRules(rules, update) && Middle(update) == Some(61)
  {
    CheckRuleIndices(rules[0], update, 1, 3);
    assert 97 !in update;
    AbsentBeforePasses(rules[1], update);
    AbsentBeforePasses(rules[2], update);
    assert CheckRules(rules[2..], update) by {
      assert rules[2..][1..] == [];
    }
    assert rules[1..][1..] == rules[2..];
  }

  /** The fourth update of the example breaks rule 97|75 and one rotation
      repairs it, leaving 47 in the middle. */
  lemma ExampleRepair(rules: seq<OrderingRule>, update: seq<Page>)
    requires rules == [OrderingRule(97, 75), OrderingRule(47, 53)]
    requires update == [75, 97, 47, 61, 53]
    ensures !CheckRules(rules, update)
    ensures FixUpdate(rules, update, 1) == Some([97, 75, 47, 61, 53])
  {
    var fixed := [97, 75, 47, 61, 53];
    ExampleMove(rules[0], update);
    ExampleFixedPasses(rules, fixed);
    assert Broken(rules[0], update);
    CheckRulesAll(rules, update);
  }

  lemma ExampleMove(rule: OrderingRule, update: seq<Page>)
    requires rule == OrderingRule(97, 75) && update == [75, 97, 47, 61, 53]
    ensures Broken(rule, update) && !CheckRule(rule, update)
    ensures Moved(rule, update) == [97, 75, 47, 61, 53]
  {
    CheckRuleIndices(rule, update, 1, 0);
    assert Position(update, 97) == Some(1) && Position(update, 75) == Some(0);
    MovedRotates(rule, update);
    var m := RotateRight(update, 0, 1);
    assert |m| == 5 && m[0] == 97 && m[1] == 75 && m[2] == 47 && m[3] == 61 && m[4] == 53;
  }

  lemma ExampleFixedPasses(rules: seq<OrderingRule>, fixed: seq<Page>)
    requires rules == [OrderingRule(97, 75), OrderingRule(47, 53)]
    requires fixed == [97, 75, 47, 61, 53]
    ensures CheckRules(rules, fixed)
  {
    CheckRuleIndices(rules[0], fixed, 0, 1);
    CheckRuleIndices(rules[1], fixed, 2, 4);
    CheckRulesAll(rules, fixed);
  }
}
