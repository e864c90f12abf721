/** Day 7: calibration equations. The operators between the operands are
    applied strictly left to right, with no precedence; an equation counts
    towards the total when some choice of operators turns its operands into
    its test value. */
module Day07Calibration {
  import opened Common
  import opened Decimal

  datatype Operator = Add | Multiply | Concatenate

  /** A test value and the operands it should be made from. The parser reads
      at least one operand on every line. */
  datatype Equation = Equation(testValue: nat, operands: seq<nat>)

  /** The operators of part 1 and of part 2. */
  const Part1Operators: seq<Operator> := [Add, Multiply]
  const Part2Operators: seq<Operator> := [Add, Multiply, Concatenate]

  /** `Operator::evaluate`. Concatenation writes both numbers in decimal,
      one after the other, and reads the digits back as one number: that
      shifts the left number by as many decimal places as the right one has
      digits, so the result is never below the right number. */
  function Evaluate(op: Operator, a: nat, b: nat): (r: nat)
    ensures op == Concatenate ==> r == a * Pow10(NumDigits(b)) + b && r >= b
  {
    match op
    case Add => a + b
    case Multiply => a * b
    case Concatenate =>
      ConcatenateShifts(a, b);
      Value(Show(a) + Show(b))
  }

  lemma ConcatenateShifts(a: nat, b: nat)
    ensures Value(Show(a) + Show(b)) == a * Pow10(NumDigits(b)) + b
    ensures Value(Show(a) + Show(b)) >= b
  {
    var s, t := Show(a), Show(b);
    ValueAppend(s, t);
    ValueShow(a);
    ValueShow(b);
    var p := Pow10(|t|);
    assert Value(s + t) == a * p + b;
    MulMono(0, a, p);
  }

  /** `bruteforce`: with operands left, some operator (tried in the order
      given) combined with the next operand leads to the test value; with
      none left, the accumulator is the test value. */
  function Bruteforce(ops: seq<Operator>, acc: nat, operands: seq<nat>, target: nat): bool
    decreases |operands|, |ops| + 1
  {
    if |operands| == 0 then acc == target
    else AnyOperator(ops, ops, acc, operands, target)
  }

  /** The `any` over the operator list: `rest` is the part not yet tried. */
  function AnyOperator(ops: seq<Operator>, rest: seq<Operator>, acc: nat, operands: seq<nat>, target: nat): bool
    requires |operands| > 0
    decreases |operands|, |rest|
  {
    |rest| > 0 &&
    (Bruteforce(ops, Evaluate(rest[0], acc, operands[0]), operands[1..], target)
     || AnyOperator(ops, rest[1..], acc, operands, target))
  }

  /** Reference semantics: the value of a row of operands under a chosen
      operator before each of them, folded left to right from `acc`. */
  function Fold(acc: nat, choice: seq<Operator>, operands: seq<nat>): nat
    requires |choice| == |operands|
    decreases |operands|
  {
    if |operands| == 0 then acc
    else Fold(Evaluate(choice[0], acc, operands[0]), choice[1..], operands[1..])
  }

  /** Every chosen operator is one of `ops`. */
  predicate Allowed(ops: seq<Operator>, choice: seq<Operator>)
  {
    forall i :: 0 <= i < |choice| ==> choice[i] in ops
  }

  /** Some choice of allowed operators folds `operands` from `acc` into
      `target`. */
  ghost predicate Reaches(ops: seq<Operator>, acc: nat, operands: seq<nat>, target: nat)
  {
    exists choice: seq<Operator> :: |choice| == |operands| && Allowed(ops, choice) && Fold(acc, choice, operands) == target
  }

  /** The equation can be made true with the operators `ops`. */
  ghost predicate Solvable(eq: Equation, ops: seq<Operator>)
    requires |eq.operands| > 0
  {
    Reaches(ops, eq.operands[0], eq.operands[1..], eq.testValue)
  }

  /** The `any` finds an operator exactly when one of the untried ones
      leads to the test value. */
  lemma {:induction false} AnyOperatorMeans(ops: seq<Operator>, rest: seq<Operator>, acc: nat, operands: seq<nat>, target: nat)
    requires |operands| > 0
    ensures AnyOperator(ops, rest, acc, operands, target) <==>
      exists op :: op in rest && Bruteforce(ops, Evaluate(op, acc, operands[0]), operands[1..], target)
    decreases |rest|
  {
    if |rest| > 0 {
      AnyOperatorMeans(ops, rest[1..], acc, operands, target);
      forall op | op in rest
        ensures op == rest[0] || op in rest[1..]
      {
      }
    }
  }

  /** The search is exact: it succeeds iff some operator choice reaches the
      test value. */
  lemma {:induction false} BruteforceMeans(ops: seq<Operator>, acc: nat, operands: seq<nat>, target: nat)
    ensures Bruteforce(ops, acc, operands, target) <==> Reaches(ops, acc, operands, target)
    decreases |operands|
  {
    if |operands| == 0 {
      var none: seq<Operator> := [];
      assert Allowed(ops, none) && Fold(acc, none, operands) == acc;
    } else {
      AnyOperatorMeans(ops, ops, acc, operands, target);
      if Bruteforce(ops, acc, operands, target) {
        var op :| op in ops && Bruteforce(ops, Evaluate(op, acc, operands[0]), operands[1..], target);
        BruteforceMeans(ops, Evaluate(op, acc, operands[0]), operands[1..], target);
        var tail: seq<Operator> :| |tail| == |operands[1..]| && Allowed(ops, tail)
          && Fold(Evaluate(op, acc, operands[0]), tail, operands[1..]) == target;
        var choice := [op] + tail;
        assert choice[1..] == tail;
        assert Allowed(ops, choice);
        assert Fold(acc, choice, operands) == target;
      }
      if Reaches(ops, acc, operands, target) {
        var choice: seq<Operator> :| |choice| == |operands| && Allowed(ops, choice) && Fold(acc, choice, operands) == target;
        var op := choice[0];
        assert Allowed(ops, choice[1..]);
        BruteforceMeans(ops, Evaluate(op, acc, operands[0]), operands[1..], target);
      }
    }
  }

  /** `try_solve_equation`: the test value when the equation can be solved,
      `None` otherwise. */
  function TrySolve(eq: Equation, ops: seq<Operator>): (r: Option<nat>)
    requires |eq.operands| > 0
    ensures r.Some? <==> Solvable(eq, ops)
    ensures r.Some? ==> r.value == eq.testValue
  {
    BruteforceMeans(ops, eq.operands[0], eq.operands[1..], eq.testValue);
    if Bruteforce(ops, eq.operands[0], eq.operands[1..], eq.testValue) then Some(eq.testValue) else None
  }

  /** Every equation has an operand, as the parser guarantees. */
  predicate Parsed(eqs: seq<Equation>)
  {
    forall i :: 0 <= i < |eqs| ==> |eqs[i].operands| > 0
  }

  /** The `filter_map(try_solve_equation).sum()` of both parts. It counts
      each solvable equation's test value once and nothing else: it is at
      most the total of all test values, and reaches that total when every
      equation is solvable. */
  function Calibration(eqs: seq<Equation>, ops: seq<Operator>): (r: nat)
    requires Parsed(eqs)
    ensures r <= TestValueTotal(eqs)
    ensures (forall i :: 0 <= i < |eqs| ==> Solvable(eqs[i], ops)) ==> r == TestValueTotal(eqs)
  {
    if |eqs| == 0 then 0
    else Calibration(eqs[..|eqs| - 1], ops) + match TrySolve(eqs[|eqs| - 1], ops) case Some(v) => v case None => 0
  }

  /** Total of all test values, solvable or not. */
  function TestValueTotal(eqs: seq<Equation>): nat
  {
    if |eqs| == 0 then 0 else TestValueTotal(eqs[..|eqs| - 1]) + eqs[|eqs| - 1].testValue
  }

  /** More operators can only make more equations solvable. */
  lemma SolvableMonotone(eq: Equation, ops: seq<Operator>, more: seq<Operator>)
    requires |eq.operands| > 0 && (forall op :: op in ops ==> op in more)
    requires Solvable(eq, ops)
    ensures Solvable(eq, more)
  {
    var choice: seq<Operator> :| |choice| == |eq.operands[1..]| && Allowed(ops, choice)
      && Fold(eq.operands[0], choice, eq.operands[1..]) == eq.testValue;
    assert Allowed(more, choice);
  }

  /** Part 2 adds concatenation to part 1's operators, so its total is at
      least part 1's, and every equation counted in part 1 counts in part 2. */
  lemma {:induction false} Part1AtMostPart2(eqs: seq<Equation>)
    requires Parsed(eqs)
    ensures Calibration(eqs, Part1Operators) <= Calibration(eqs, Part2Operators)
  {
    if |eqs| > 0 {
      var init := eqs[..|eqs| - 1];
      var last := eqs[|eqs| - 1];
      assert forall i :: 0 <= i < |init| ==> init[i] == eqs[i];
      Part1AtMostPart2(init);
      if Solvable(last, Part1Operators) {
        SolvableMonotone(last, Part1Operators, Part2Operators);
      }
    }
  }

  /** `190: 10 19` needs a multiplication. */
  lemma Example190()
    ensures TrySolve(Equation(190, [10, 19]), Part1Operators) == Some(190)
  {
    assert Bruteforce(Part1Operators, 190, [], 190);
  }

  /** `83: 17 5` has no solution, even with concatenation (175). */
  lemma Example83()
    ensures TrySolve(Equation(83, [17, 5]), Part2Operators).None?
  {
    assert [17, 5][1..] == [5];
    assert Evaluate(Concatenate, 17, 5) == 175;
    assert !Bruteforce(Part2Operators, 175, [], 83);
  }

  /** `156: 15 6` needs concatenation: part 1 cannot solve it, part 2 can. */
  lemma Example156()
    ensures TrySolve(Equation(156, [15, 6]), Part1Operators).None?
    ensures TrySolve(Equation(156, [15, 6]), Part2Operators) == Some(156)
  {
    assert [15, 6][1..] == [6];
    assert Evaluate(Concatenate, 15, 6) == 156;
    assert Bruteforce(Part2Operators, 156, [], 156);
  }
}
