/** Day 3 scanner: recovers `mul(a,b)`, `do()` and `don't()` from text
    that is otherwise noise. Each parser returns the value it read and the
    text after it, or `None` when it does not match at the start. */
module Day03Parse {
  import opened Common
  import opened Decimal
  import opened Day03Program

  /** Length of the run of decimal digits at the start of `s`. */
  function DigitRun(s: string): (k: nat)
    ensures k <= |s|
    ensures AllDigits(s[..k])
    ensures k < |s| ==> !IsDigit(s[k])
  {
    if |s| == 0 || !IsDigit(s[0]) then 0
    else
      var k := 1 + DigitRun(s[1..]);
      assert s[..k] == [s[0]] + s[1..][..k - 1];
      k
  }

  /** `number`: one or more digits, read greedily and converted to a
      `u64`; a run worth 2^64 or more fails the conversion. What it reads
      is a non-empty run of digits that no further digit follows, and the
      value is that run's. */
  function Number(s: string): (r: Option<(nat, string)>)
    ensures (|s| == 0 || !IsDigit(s[0])) ==> r.None?
    ensures r.Some? ==>
      && |r.value.1| < |s| && r.value.1 == s[|s| - |r.value.1|..]
      && AllDigits(s[..|s| - |r.value.1|]) && r.value.0 == Value(s[..|s| - |r.value.1|])
      && r.value.0 < U64Limit
      && (|r.value.1| == 0 || !IsDigit(r.value.1[0]))
  {
    var k := DigitRun(s);
    if k == 0 || Value(s[..k]) >= U64Limit then None else Some((Value(s[..k]), s[k..]))
  }

  /** `params`: "(" number "," number ")"; both numbers fit in a `u64`. */
  function Params(s: string): (r: Option<((nat, nat), string)>)
    ensures r.Some? ==>
      && |r.value.1| + 5 <= |s| && r.value.1 == s[|s| - |r.value.1|..]
      && r.value.0.0 < U64Limit && r.value.0.1 < U64Limit
  {
    if |s| == 0 || s[0] != '(' then None
    else match Number(s[1..])
      case None => None
      case Some((a, r1)) =>
        if |r1| == 0 || r1[0] != ',' then None
        else match Number(r1[1..])
          case None => None
          case Some((b, r2)) =>
            if |r2| == 0 || r2[0] != ')' then None
            else Some(((a, b), r2[1..]))
  }

  /** Whether `s` starts with `tag`, as the `tag` combinator checks it. */
  predicate StartsWith(s: string, tag: string)
  {
    |tag| <= |s| && s[..|tag|] == tag
  }

  /** `mul_instruction`: "mul" followed by parameters. */
  function MulInstruction(s: string): (r: Option<(Instruction, string)>)
    ensures r.Some? ==>
      && r.value.0.Mul? && r.value.0.a < U64Limit && r.value.0.b < U64Limit
      && StartsWith(s, "mul(") && |r.value.1| + 8 <= |s|
  {
    if !StartsWith(s, "mul") then None
    else match Params(s[3..])
      case None => None
      case Some(((a, b), rest)) => Some((Mul(a, b), rest))
  }

  /** `do_instruction`: the text `do()`, and nothing after it is read. */
  function DoInstruction(s: string): (r: Option<(Instruction, string)>)
    ensures r.Some? ==> r.value.0 == Do && s == Text(Do) + r.value.1
    ensures r.None? ==> !StartsWith(s, Text(Do))
  {
    if StartsWith(s, "do()") then Some((Do, s[4..])) else None
  }

  /** `dont_instruction`: the text `don't()`, and nothing after it is read. */
  function DontInstruction(s: string): (r: Option<(Instruction, string)>)
    ensures r.Some? ==> r.value.0 == Dont && s == Text(Dont) + r.value.1
    ensures r.None? ==> !StartsWith(s, Text(Dont))
  {
    if StartsWith(s, "don't()") then Some((Dont, s[7..])) else None
  }

  /** The three instruction parsers tried in order, first match wins. */
  function AnyInstruction(s: string): (r: Option<(Instruction, string)>)
    ensures r.Some? ==> |r.value.1| + 4 <= |s|
  {
    match MulInstruction(s)
    case Some(m) => Some(m)
    case None =>
      match DoInstruction(s)
      case Some(d) => Some(d)
      case None => DontInstruction(s)
  }

  /** `many_till(anychar, instruction)`: skip characters until an
      instruction matches at the current position; fails at the end of input. */
  function ScanOne(s: string): (r: Option<(Instruction, string)>)
    ensures r.Some? ==> |r.value.1| + 4 <= |s|
  {
    match AnyInstruction(s)
    case Some(m) => Some(m)
    case None => if |s| == 0 then None else ScanOne(s[1..])
  }

  /** `ScanOne` fails exactly when no instruction starts anywhere in the
      text. */
  lemma {:induction false} NoInstructionAnywhere(s: string)
    ensures ScanOne(s).None? <==> forall k :: 0 <= k <= |s| ==> AnyInstruction(s[k..]).None?
    decreases |s|
  {
    assert s[0..] == s;
    if |s| > 0 && AnyInstruction(s).None? {
      NoInstructionAnywhere(s[1..]);
      forall k | 1 <= k <= |s|
        ensures AnyInstruction(s[k..]) == AnyInstruction(s[1..][k - 1..])
      {
        assert s[k..] == s[1..][k - 1..];
      }
    }
  }

  /** Repeats `ScanOne` until it fails and collects the instructions in
      textual order; the text after the last instruction is dropped. Each
      instruction takes at least four characters. */
  function ScanAll(s: string): (r: seq<Instruction>)
    ensures 4 * |r| <= |s|
    decreases |s|
  {
    match ScanOne(s)
    case None => []
    case Some((i, rest)) => [i] + ScanAll(rest)
  }

  /** `many1`: at least one instruction is required, otherwise the program
      aborts (`None`): it fails exactly when no instruction starts anywhere
      in the text. */
  function Instructions(s: string): (r: Option<seq<Instruction>>)
    ensures r.None? <==> forall k :: 0 <= k <= |s| ==> AnyInstruction(s[k..]).None?
    ensures r.Some? ==> |r.value| >= 1 && r.value == ScanAll(s)
  {
    NoInstructionAnywhere(s);
    var all := ScanAll(s);
    if |all| == 0 then None else Some(all)
  }

  /** Reading a digit run that is followed by a non-digit: its value when
      that fits in a `u64`, a failure otherwise. */
  lemma NumberOfDigits(d: string, rest: string)
    requires |d| >= 1 && AllDigits(d)
    requires |rest| == 0 || !IsDigit(rest[0])
    ensures Number(d + rest) == if Value(d) < U64Limit then Some((Value(d), rest)) else None
  {
    var s := d + rest;
    assert s[..|d|] == d && s[|d|..] == rest;
    DigitRunOf(d, rest);
  }

  lemma {:induction false} DigitRunOf(d: string, rest: string)
    requires AllDigits(d)
    requires |rest| == 0 || !IsDigit(rest[0])
    ensures DigitRun(d + rest) == |d|
    decreases |d|
  {
    if |d| > 0 {
      assert (d + rest)[1..] == d[1..] + rest;
      DigitRunOf(d[1..], rest);
    } else {
      assert d + rest == rest;
    }
  }

  /** `params` accepts every "(" digits "," digits ")" ... */
  lemma ParamsComplete(d1: string, d2: string, rest: string)
    requires |d1| >= 1 && AllDigits(d1) && |d2| >= 1 && AllDigits(d2)
    requires Value(d1) < U64Limit && Value(d2) < U64Limit
    ensures Params("(" + d1 + "," + d2 + ")" + rest) == Some(((Value(d1), Value(d2)), rest))
  {
    var t2 := [')'] + rest;
    var t1 := [','] + (d2 + t2);
    var s := ['('] + (d1 + t1);
    assert s == "(" + d1 + "," + d2 + ")" + rest;
    assert s[1..] == d1 + t1;
    NumberOfDigits(d1, t1);
    assert t1[1..] == d2 + t2;
    NumberOfDigits(d2, t2);
    assert t2[1..] == rest;
    ParamsUnfold(s);
  }

  /** `Params` spelled out on a string that matches it. */
  lemma ParamsUnfold(s: string)
    requires |s| >= 1 && s[0] == '('
    requires Number(s[1..]).Some?
    requires var r1 := Number(s[1..]).value.1; |r1| >= 1 && r1[0] == ','
    requires Number(Number(s[1..]).value.1[1..]).Some?
    requires var r2 := Number(Number(s[1..]).value.1[1..]).value.1; |r2| >= 1 && r2[0] == ')'
    ensures Params(s) == Some(((Number(s[1..]).value.0, Number(Number(s[1..]).value.1[1..]).value.0),
                               Number(Number(s[1..]).value.1[1..]).value.1[1..]))
  {
  }

  /** ... and nothing else: whatever it accepts has exactly that shape,
      with no blanks anywhere. */
  lemma ParamsSound(s: string)
    requires Params(s).Some?
    ensures exists d1, d2 ::
      && |d1| >= 1 && AllDigits(d1) && |d2| >= 1 && AllDigits(d2)
      && s == "(" + d1 + "," + d2 + ")" + Params(s).value.1
      && Params(s).value.0 == (Value(d1), Value(d2))
  {
    var k1 := DigitRun(s[1..]);
    var d1 := s[1..][..k1];
    var r1 := s[1..][k1..];
    var k2 := DigitRun(r1[1..]);
    var d2 := r1[1..][..k2];
    var r2 := r1[1..][k2..];
    HeadTail(s);
    TakeDrop(s[1..], k1);
    HeadTail(r1);
    TakeDrop(r1[1..], k2);
    HeadTail(r2);
    Glue(s, '(', d1, ',', d2, ')', r2[1..]);
    assert Params(s).value == ((Value(d1), Value(d2)), r2[1..]);
  }

  /** Five pieces glued right to left are the same five glued left to right. */
  lemma Glue(s: string, x: char, a: string, y: char, b: string, z: char, c: string)
    requires s == [x] + (a + ([y] + (b + ([z] + c))))
    ensures s == [x] + a + [y] + b + [z] + c
  {
  }

  /** The operands of a multiplication fit in a `u64`, as the program's
      `Mul(u64, u64)` requires. */
  predicate Fits(i: Instruction)
  {
    i.Mul? ==> i.a < U64Limit && i.b < U64Limit
  }

  /** How an instruction is written. */
  function Text(i: Instruction): string
  {
    match i
    case Mul(a, b) => "mul(" + Show(a) + "," + Show(b) + ")"
    case Do => "do()"
    case Dont => "don't()"
  }

  /** Every instruction with `u64` operands is read back from its own text. */
  lemma ReadText(i: Instruction, rest: string)
    requires Fits(i)
    ensures AnyInstruction(Text(i) + rest) == Some((i, rest))
  {
    match i
    case Mul(a, b) =>
      ReadMul(a, b, rest);
    case Do =>
      var s := "do()" + rest;
      assert s[..3] != "mul" by { assert s[2] == '(' != "mul"[2]; }
      assert s[..4] == "do()";
    case Dont =>
      var s := "don't()" + rest;
      assert s[..3] != "mul" by { assert s[0] == 'd' != "mul"[0]; }
      assert s[..4] != "do()" by { assert s[2] == 'n' != "do()"[2]; }
      assert s[..7] == "don't()";
  }

  lemma ReadMul(a: nat, b: nat, rest: string)
    requires a < U64Limit && b < U64Limit
    ensures MulInstruction(Text(Mul(a, b)) + rest) == Some((Mul(a, b), rest))
  {
    var d1, d2 := Show(a), Show(b);
    var p := "(" + d1 + "," + d2 + ")" + rest;
    assert Text(Mul(a, b)) == "mul(" + d1 + "," + d2 + ")";
    MulText(d1, d2, rest);
    PrefixSplit("mul", p);
    ValueShow(a);
    ValueShow(b);
    ParamsComplete(d1, d2, rest);
  }

  lemma MulText(d1: string, d2: string, rest: string)
    ensures "mul(" + d1 + "," + d2 + ")" + rest == "mul" + ("(" + d1 + "," + d2 + ")" + rest)
  {
  }

  lemma PrefixSplit<T>(a: seq<T>, b: seq<T>)
    ensures (a + b)[..|a|] == a && (a + b)[|a|..] == b
  {
  }

  lemma DropFirst<T>(a: seq<T>, b: seq<T>, c: seq<T>)
    requires |a| > 0
    ensures (a + b + c)[1..] == a[1..] + b + c
    ensures forall k :: 0 <= k <= |a[1..] + b + c| ==> (a[1..] + b + c)[k..] == (a + b + c)[k + 1..]
  {
  }

  /** Positions after the first character of noise are positions of the
      shorter noise. */
  lemma NoiseTail(noise: string, i: Instruction, rest: string)
    requires |noise| > 0
    requires forall k :: 0 <= k < |noise| ==> AnyInstruction((noise + Text(i) + rest)[k..]).None?
    ensures (noise + Text(i) + rest)[1..] == noise[1..] + Text(i) + rest
    ensures forall k :: 0 <= k < |noise[1..]| ==> AnyInstruction((noise[1..] + Text(i) + rest)[k..]).None?
  {
    var s := noise + Text(i) + rest;
    DropFirst(noise, Text(i), rest);
    forall k | 0 <= k < |noise[1..]|
      ensures AnyInstruction((noise[1..] + Text(i) + rest)[k..]).None?
    {
      assert (noise[1..] + Text(i) + rest)[k..] == s[k + 1..];
    }
  }

  /** The scanner skips any prefix at none of whose positions an instruction
      starts, then reads the instruction that follows it. */
  lemma {:induction false} SkipNoise(noise: string, i: Instruction, rest: string)
    requires Fits(i)
    requires forall k :: 0 <= k < |noise| ==> AnyInstruction((noise + Text(i) + rest)[k..]).None?
    ensures ScanOne(noise + Text(i) + rest) == Some((i, rest))
    decreases |noise|
  {
    var s := noise + Text(i) + rest;
    if |noise| == 0 {
      assert s == Text(i) + rest;
      ReadText(i, rest);
    } else {
      assert AnyInstruction(s[0..]).None?;
      assert s[0..] == s;
      NoiseTail(noise, i, rest);
      SkipNoise(noise[1..], i, rest);
    }
  }

  /** Text written from a list of instructions, back to back. */
  function Program(program: seq<Instruction>): string
  {
    if |program| == 0 then "" else Text(program[0]) + Program(program[1..])
  }

  /** The scanner reads back every program written without noise. */
  lemma {:induction false} ScanProgram(program: seq<Instruction>)
    requires forall k :: 0 <= k < |program| ==> Fits(program[k])
    ensures ScanAll(Program(program)) == program
  {
    if |program| == 0 {
      assert ScanOne("").None?;
    } else {
      var rest := Program(program[1..]);
      assert Program(program) == Text(program[0]) + rest;
      ReadText(program[0], rest);
      assert ScanOne(Text(program[0]) + rest) == Some((program[0], rest));
      ScanProgram(program[1..]);
      HeadTail(program);
    }
  }

  /** Text starting with `m` is neither `do()` nor `don't()`. */
  lemma OnlyMul(s: string)
    requires |s| > 0 && s[0] == 'm'
    ensures DoInstruction(s).None? && DontInstruction(s).None?
  {
    assert !StartsWith(s, "do()") by {
      if |s| >= 4 {
        assert s[..4][0] == 'm';
      }
    }
    assert !StartsWith(s, "don't()") by {
      if |s| >= 7 {
        assert s[..7][0] == 'm';
      }
    }
  }

  /** Malformed fragments of the example yield no instruction: square
      brackets ... */
  lemma MalformedBrackets(s: string)
    requires s == "mul[3,7]"
    ensures AnyInstruction(s).None?
  {
    assert s[..3] == "mul" && s[3..] == "[3,7]";
    assert s[..4] != "do()" by { assert s[0] != 'd'; }
  }

  /** Two numbers closed by anything but `)` are not parameters. */
  lemma ParamsWrongClose(a: string, b: string, rest: string)
    requires |a| >= 1 && AllDigits(a) && |b| >= 1 && AllDigits(b)
    requires |rest| > 0 && rest[0] != ')' && !IsDigit(rest[0])
    ensures Params("(" + a + "," + b + rest).None?
  {
    var p := "(" + a + "," + b + rest;
    var r1 := "," + b + rest;
    assert p[1..] == a + r1;
    NumberOfDigits(a, r1);
    assert r1[1..] == b + rest;
    NumberOfDigits(b, rest);
  }

  /** ... a mismatched closing bracket ... */
  lemma MalformedClosing(s: string)
    requires s == "mul(32,64]"
    ensures AnyInstruction(s).None?
  {
    assert s[..3] == "mul" && s[3..] == "(" + "32" + "," + "64" + "]";
    ParamsWrongClose("32", "64", "]");
    OnlyMul(s);
  }

  /** ... and blanks inside the parameters. */
  lemma MalformedBlanks(s: string)
    requires s == "mul ( 2 , 4 )"
    ensures AnyInstruction(s).None?
  {
    assert s[..3] == "mul" && s[3..][0] == ' ';
    assert s[..4] != "do()" by { assert s[0] != 'd'; }
  }

  /** Whether `s` starts with "mu" or "do", as every instruction does. */
  predicate MayStartInstruction(s: string)
  {
    |s| >= 2 && ((s[0] == 'm' && s[1] == 'u') || (s[0] == 'd' && s[1] == 'o'))
  }

  /** No instruction starts where neither "mu" nor "do" does. */
  lemma NoInstructionHere(s: string)
    requires !MayStartInstruction(s)
    ensures AnyInstruction(s).None?
  {
    NotStartsWith(s, "mul(");
    NotStartsWith(s, "do()");
    NotStartsWith(s, "don't()");
  }

  lemma NotStartsWith(s: string, tag: string)
    requires |tag| >= 2 && (|s| < 2 || s[0] != tag[0] || s[1] != tag[1])
    ensures !StartsWith(s, tag)
  {
    if |tag| <= |s| {
      assert s[..|tag|][0] == s[0] && s[..|tag|][1] == s[1];
    }
  }
}
