/** Day 3: the instructions recovered from corrupted memory and the two
    ways of adding up their products. */
module Day03Program {

  /** `Mul(a, b)` multiplies two numbers; `Do` and `Dont` switch the
      multiplications after them on and off (they only matter in part 2). */
  datatype Instruction = Mul(a: nat, b: nat) | Do | Dont

  function Product(i: Instruction): nat
  {
    if i.Mul? then i.a * i.b else 0
  }

  /** Part 1: every multiplication counts, so the sum is at least each
      single product, and a program without multiplications sums to 0. */
  function SumOfProducts(program: seq<Instruction>): (r: nat)
    ensures forall k :: 0 <= k < |program| ==> Product(program[k]) <= r
    ensures (forall k :: 0 <= k < |program| ==> !program[k].Mul?) ==> r == 0
  {
    if |program| == 0 then 0
    else SumOfProducts(program[..|program| - 1]) + Product(program[|program| - 1])
  }

  /** Accumulator of the part 2 fold: running total and whether
      multiplications are currently enabled. */
  datatype FoldState = FoldState(total: nat, enabled: bool)

  function Step(s: FoldState, i: Instruction): FoldState
  {
    match i
    case Do => FoldState(s.total, true)
    case Dont => FoldState(s.total, false)
    case Mul(a, b) => if s.enabled then FoldState(s.total + a * b, true) else s
  }

  /** The fold over the whole program, starting enabled with total 0. Its
      flag is exactly "the last switch was not a `Dont`", and its total only
      ever grows by products that part 1 also counts. */
  function Run(program: seq<Instruction>): (r: FoldState)
    ensures r.enabled == EnabledAfter(program)
    ensures r.total <= SumOfProducts(program)
  {
    if |program| == 0 then FoldState(0, true)
    else Step(Run(program[..|program| - 1]), program[|program| - 1])
  }

  /** Part 2: the total of the fold, never more than part 1. */
  function SumOfEnabledProducts(program: seq<Instruction>): (r: nat)
    ensures r <= SumOfProducts(program)
  {
    Run(program).total
  }

  /** Whether the switch instructions in `prefix` leave multiplication on:
      the most recent `Do` or `Dont` decides, and with neither it is on. */
  predicate EnabledAfter(prefix: seq<Instruction>)
  {
    if |prefix| == 0 then true
    else match prefix[|prefix| - 1]
      case Do => true
      case Dont => false
      case Mul(_, _) => EnabledAfter(prefix[..|prefix| - 1])
  }

  /** Each multiplication contributes to part 2 exactly when the switches
      before it leave multiplication on. */
  lemma {:induction false} EnabledProductStep(program: seq<Instruction>, i: Instruction)
    ensures SumOfEnabledProducts(program + [i])
         == SumOfEnabledProducts(program) + (if EnabledAfter(program) then Product(i) else 0)
  {
    assert (program + [i])[..|program + [i]| - 1] == program;
  }

  /** Part 2 equals part 1 when no `Dont` occurs. */
  lemma {:induction false} NoDontEnablesAll(program: seq<Instruction>)
    requires forall k :: 0 <= k < |program| ==> program[k] != Dont
    ensures Run(program).enabled
    ensures SumOfEnabledProducts(program) == SumOfProducts(program)
  {
    if |program| > 0 {
      NoDontEnablesAll(program[..|program| - 1]);
    }
  }

  /** The instructions of the two examples give 161 and 48. */
  lemma Example(first: seq<Instruction>, second: seq<Instruction>)
    requires first == [Mul(2, 4), Mul(5, 5), Mul(11, 8), Mul(8, 5)]
    requires second == [Mul(2, 4), Dont, Mul(5, 5), Mul(11, 8), Do, Mul(8, 5)]
    ensures SumOfProducts(first) == 161
    ensures SumOfEnabledProducts(second) == 48
  {
    var p, q := first, second;
    assert p[..1][..0] == [] && SumOfProducts(p[..1]) == 8;
    assert p[..2][..1] == p[..1] && SumOfProducts(p[..2]) == 33;
    assert p[..3][..2] == p[..2] && SumOfProducts(p[..3]) == 121;
    assert p[..4][..3] == p[..3] && p[..4] == p;
    assert q[..1][..0] == [] && Run(q[..1]) == FoldState(8, true);
    assert q[..2][..1] == q[..1] && Run(q[..2]) == FoldState(8, false);
    assert q[..3][..2] == q[..2] && Run(q[..3]) == FoldState(8, false);
    assert q[..4][..3] == q[..3] && Run(q[..4]) == FoldState(8, false);
    assert q[..5][..4] == q[..4] && Run(q[..5]) == FoldState(8, true);
    assert q[..6][..5] == q[..5] && q[..6] == q;
  }
}
