/** Day 11 stones: one blink rewrites every stone by a three-case rule,
    in place and in order; the first puzzle blinks the list 25 times and
    counts the stones. Stone numbers are unbounded here (the source keeps
    them in 64 bits). */
module Day11Stones {
  import opened Common
  import opened Decimal

  /** What one stone becomes after a blink: 0 turns into 1; a stone with an
      even number of decimal digits splits into the numbers written by its
      left and right halves; any other stone is multiplied by 2024. */
  function Rule(stone: nat): (r: seq<nat>)
    ensures |r| == if stone != 0 && NumDigits(stone) % 2 == 0 then 2 else 1
  {
    if stone == 0 then [1]
    else if NumDigits(stone) % 2 == 0 then
      var p := Pow10(NumDigits(stone) / 2);
      [stone / p, stone % p]
    else [stone * 2024]
  }

  /** A run of `k` digits reads as less than `10^k`. */
  lemma {:induction false} ValueBelow(t: string)
    requires AllDigits(t)
    ensures Value(t) < Pow10(|t|)
  {
    if |t| > 0 {
      ValueBelow(t[..|t| - 1]);
    }
  }

  /** The two stones of a split are the numbers written by the left and the
      right half of the stone's digits (the right half may start with
      zeros, which the number drops). */
  lemma RuleSplitsDigits(stone: nat)
    requires stone != 0 && NumDigits(stone) % 2 == 0
    ensures var s, h := Show(stone), NumDigits(stone) / 2;
      Rule(stone) == [Value(s[..h]), Value(s[h..])]
  {
    var s, h := Show(stone), NumDigits(stone) / 2;
    var a, b := s[..h], s[h..];
    assert s == a + b;
    ValueShow(stone);
    ValueAppend(a, b);
    ValueBelow(b);
    DivModUnique(stone, Pow10(h), Value(a), Value(b));
  }

  /** One blink: every stone replaced, in place, by what the rule makes of
      it. */
  function Blink(s: seq<nat>): seq<nat>
  {
    if |s| == 0 then [] else Blink(s[..|s| - 1]) + Rule(s[|s| - 1])
  }

  /** The list after `n` blinks. */
  function Blinks(s: seq<nat>, n: nat): seq<nat>
  {
    if n == 0 then s else Blink(Blinks(s, n - 1))
  }

  /** Blinking works stone by stone: the stones of a concatenation blink
      into the concatenation of their results, so order is kept. */
  lemma {:induction false} BlinkAppend(a: seq<nat>, b: seq<nat>)
    ensures Blink(a + b) == Blink(a) + Blink(b)
    decreases |b|
  {
    if |b| == 0 {
      assert a + b == a;
    } else {
      assert (a + b)[..|a + b| - 1] == a + b[..|b| - 1];
      BlinkAppend(a, b[..|b| - 1]);
    }
  }

  /** A single stone blinks into exactly its rule's result. */
  lemma BlinkSingle(x: nat)
    ensures Blink([x]) == Rule(x)
  {
    assert [x][..0] == [];
  }

  /** The number of stones that split: nonzero with an even digit count. */
  function Splitting(s: seq<nat>): nat
  {
    if |s| == 0 then 0
    else Splitting(s[..|s| - 1]) + if s[|s| - 1] != 0 && NumDigits(s[|s| - 1]) % 2 == 0 then 1 else 0
  }

  /** A blink adds one stone for every stone that splits. */
  lemma {:induction false} BlinkLength(s: seq<nat>)
    ensures |Blink(s)| == |s| + Splitting(s)
    decreases |s|
  {
    if |s| > 0 {
      BlinkLength(s[..|s| - 1]);
    }
  }

  /** `blink_once`: walks the list by index, rewriting the stone in place;
      a split overwrites the stone by its left half, inserts the right half
      after it and steps over both. */
  method BlinkOnce(stones0: seq<nat>) returns (stones: seq<nat>)
    ensures stones == Blink(stones0)
  {
    stones := stones0;
    var i := 0;
    ghost var j := 0;
    while i < |stones|
      invariant j <= |stones0|
      invariant stones == Blink(stones0[..j]) + stones0[j..]
      invariant i == |Blink(stones0[..j])|
      decreases |stones| - i
    {
      var next, i' := BlinkAt(stones, i);
      BlinkLoopStep(stones0, j, stones, i, next, i');
      stones, i, j := next, i', j + 1;
    }
    assert stones0[..j] == stones0;
  }

  /** One round of `blink_once`'s loop: the stone at `i` is replaced by its
      rule's result and the index moves past it. */
  method BlinkAt(stones0: seq<nat>, i0: nat) returns (stones: seq<nat>, i: nat)
    requires i0 < |stones0|
    ensures stones == stones0[..i0] + Rule(stones0[i0]) + stones0[i0 + 1..]
    ensures i == i0 + |Rule(stones0[i0])|
  {
    stones, i := stones0, i0;
    var stone := stones[i];
    if stone == 0 {
      stones := stones[i := 1];
      i := i + 1;
      assert stones == stones0[..i0] + [1] + stones0[i0 + 1..];
    } else {
      var numDigits := |Show(stone)|;
      if numDigits % 2 == 0 {
        var tenToHalfLen := Pow10(numDigits / 2);
        DivNat(stone, tenToHalfLen);
        var left: nat, right: nat := stone / tenToHalfLen, stone % tenToHalfLen;
        stones := stones[i := left];
        assert stones[..i + 1] == stones0[..i0] + [left];
        assert stones[i + 1..] == stones0[i0 + 1..];
        stones := stones[..i + 1] + [right] + stones[i + 1..];
        i := i + 2;
        assert Rule(stone) == [left, right];
      } else {
        assert Rule(stone) == [stone * 2024];
        stones := stones[i := stone * 2024];
        i := i + 1;
        assert stones == stones0[..i0] + [stone * 2024] + stones0[i0 + 1..];
      }
    }
  }

  /** Dividing a stone number keeps both parts natural; stated apart so the
      loops that split stones see only this fact about division. */
  lemma DivNat(a: nat, b: nat)
    requires b >= 1
    ensures a / b >= 0 && a % b >= 0
  {
  }

  /** One round of the loop moves one more original stone into the blinked
      prefix. */
  lemma BlinkLoopStep(stones0: seq<nat>, j: nat, stones: seq<nat>, i: nat, next: seq<nat>, i': nat)
    requires j <= |stones0| && stones == Blink(stones0[..j]) + stones0[j..] && i == |Blink(stones0[..j])|
    requires i < |stones| && next == stones[..i] + Rule(stones[i]) + stones[i + 1..] && i' == i + |Rule(stones[i])|
    ensures j < |stones0|
    ensures next == Blink(stones0[..j + 1]) + stones0[j + 1..] && i' == |Blink(stones0[..j + 1])|
  {
    var done := Blink(stones0[..j]);
    Splice(done, stones0[j..], Rule(stones0[j]));
    assert stones0[j..][1..] == stones0[j + 1..];
    BlinkStep(stones0, j);
  }

  /** Replacing the element just after `done` by `r`. */
  lemma Splice(done: seq<nat>, rest: seq<nat>, r: seq<nat>)
    requires |rest| > 0
    ensures (done + rest)[|done|] == rest[0]
    ensures (done + rest)[..|done|] + r + (done + rest)[|done| + 1..] == done + r + rest[1..]
  {
    assert (done + rest)[..|done|] == done;
    assert (done + rest)[|done| + 1..] == rest[1..];
  }

  lemma BlinkStep(s: seq<nat>, j: nat)
    requires j < |s|
    ensures Blink(s[..j + 1]) == Blink(s[..j]) + Rule(s[j])
  {
    assert s[..j + 1][..j] == s[..j];
  }

  /** `solve_part_1`: the number of stones after 25 blinks; `None` where
      the input does not parse. */
  method SolvePart1(input: string) returns (r: Option<nat>)
    ensures r.None? <==> ParseInput(input).None?
    ensures r.Some? ==> r.value == |Blinks(ParseInput(input).value, 25)|
  {
    match ParseInput(input)
    case None => r := None;
    case Some(stones0) =>
      var stones := stones0;
      for k := 0 to 25
        invariant stones == Blinks(stones0, k)
      {
        stones := BlinkOnce(stones);
      }
      r := Some(|stones|);
  }

  /** `char::is_whitespace`: the characters with the Unicode White_Space
      property. */
  predicate IsWhitespace(c: char)
  {
    || '\t' <= c <= '\r'
    || c == ' '
    || c == '\U{85}'
    || c == '\U{A0}'
    || c == '\U{1680}'
    || '\U{2000}' <= c <= '\U{200A}'
    || c == '\U{2028}'
    || c == '\U{2029}'
    || c == '\U{202F}'
    || c == '\U{205F}'
    || c == '\U{3000}'
  }

  /** `s` without its leading whitespace. */
  function TrimStart(s: string): (r: string)
    ensures |r| <= |s| && r == s[|s| - |r|..]
    ensures forall i :: 0 <= i < |s| - |r| ==> IsWhitespace(s[i])
    ensures |r| > 0 ==> !IsWhitespace(r[0])
  {
    if |s| == 0 || !IsWhitespace(s[0]) then s else TrimStart(s[1..])
  }

  /** `s` without its trailing whitespace. */
  function TrimEnd(s: string): (r: string)
    ensures |r| <= |s| && r == s[..|r|]
    ensures forall i :: |r| <= i < |s| ==> IsWhitespace(s[i])
    ensures |r| > 0 ==> !IsWhitespace(r[|r| - 1])
  {
    if |s| == 0 || !IsWhitespace(s[|s| - 1]) then s else TrimEnd(s[..|s| - 1])
  }

  /** `str::trim`. */
  function Trim(s: string): string
  {
    TrimEnd(TrimStart(s))
  }

  /** A string that neither starts nor ends with whitespace is its own trim. */
  lemma TrimKeeps(s: string)
    requires |s| > 0 && !IsWhitespace(s[0]) && !IsWhitespace(s[|s| - 1])
    ensures Trim(s) == s
  {
  }

  /** The index of the first `c` in `s`. */
  function FirstIndex(s: string, c: char): (i: nat)
    requires c in s
    ensures i < |s| && s[i] == c && c !in s[..i]
  {
    if s[0] == c then 0 else 1 + FirstIndex(s[1..], c)
  }

  /** `str::split` on one character: the pieces between the separators,
      empty ones included. */
  function Split(s: string, sep: char): (r: seq<string>)
    ensures |r| > 0 && forall i :: 0 <= i < |r| ==> sep !in r[i]
    decreases |s|
  {
    if sep !in s then [s]
    else
      var i := FirstIndex(s, sep);
      [s[..i]] + Split(s[i + 1..], sep)
  }

  /** The pieces put back together with the separator between them. */
  function Join(ps: seq<string>, sep: char): string
    requires |ps| > 0
  {
    if |ps| == 1 then ps[0] else ps[0] + [sep] + Join(ps[1..], sep)
  }

  /** Splitting loses nothing: joining the pieces gives the string back. */
  lemma {:induction false} JoinSplit(s: string, sep: char)
    ensures Join(Split(s, sep), sep) == s
    decreases |s|
  {
    if sep in s {
      var i := FirstIndex(s, sep);
      JoinSplit(s[i + 1..], sep);
      assert s == s[..i] + [sep] + s[i + 1..];
    }
  }

  /** Pieces without the separator come back from their join unchanged. */
  lemma {:induction false} SplitJoin(ps: seq<string>, sep: char)
    requires |ps| > 0 && forall i :: 0 <= i < |ps| ==> sep !in ps[i]
    ensures Split(Join(ps, sep), sep) == ps
    decreases |ps|
  {
    if |ps| > 1 {
      var a, b := ps[0], Join(ps[1..], sep);
      SplitJoin(ps[1..], sep);
      SplitAt(a, sep, b);
      assert Join(ps, sep) == a + [sep] + b;
      HeadTail(ps);
    }
  }

  /** Splitting stops at the first separator. */
  lemma SplitAt(a: string, sep: char, b: string)
    requires sep !in a
    ensures Split(a + [sep] + b, sep) == [a] + Split(b, sep)
  {
    var s := a + [sep] + b;
    ConcatParts(a, sep, b);
    FirstIndexAt(s, sep, |a|);
  }

  /** The parts of `a`, a separator and `b`. */
  lemma ConcatParts(a: string, sep: char, b: string)
    ensures var s := a + [sep] + b;
      s[|a|] == sep && s[..|a|] == a && s[|a| + 1..] == b
  {
  }

  /** The first index of `c` is the position of a `c` with none before it. */
  lemma FirstIndexAt(s: string, c: char, i: nat)
    requires i < |s| && s[i] == c && c !in s[..i]
    ensures FirstIndex(s, c) == i
  {
  }

  /** `u64::from_str`: an optional `+`, then at least one decimal digit,
      with a value below 2^64. */
  function ParseU64(t: string): (r: Option<nat>)
    ensures r.Some? ==> r.value < U64Limit
  {
    var d := if |t| > 0 && t[0] == '+' then t[1..] else t;
    if |d| > 0 && AllDigits(d) && Value(d) < U64Limit then Some(Value(d)) else None
  }

  /** What `to_string` writes, `from_str` reads back; so it does after a
      `+`. Empty pieces, signs alone and other characters are rejected. */
  lemma ParseU64Show(n: nat)
    requires n < U64Limit
    ensures ParseU64(Show(n)) == Some(n)
    ensures ParseU64(['+'] + Show(n)) == Some(n)
    ensures ParseU64("") == None && ParseU64("+") == None
  {
    ValueShow(n);
    assert (['+'] + Show(n))[1..] == Show(n);
  }

  /** Every piece read as a number; `None` when any fails. */
  function ParseAll(pieces: seq<string>): (r: Option<seq<nat>>)
    ensures r.None? <==> exists i :: 0 <= i < |pieces| && ParseU64(pieces[i]).None?
    ensures r.Some? ==> |r.value| == |pieces| && forall i :: 0 <= i < |pieces| ==> ParseU64(pieces[i]) == Some(r.value[i])
  {
    if |pieces| == 0 then Some([])
    else match (ParseU64(pieces[0]), ParseAll(pieces[1..]))
      case (Some(x), Some(xs)) => Some([x] + xs)
      case (None, _) => None
      case (_, None) =>
        var i :| 0 <= i < |pieces[1..]| && ParseU64(pieces[1..][i]).None?;
        assert ParseU64(pieces[i + 1]).None?;
        None
  }

  /** `parse_input`: the trimmed input split at single spaces, each piece a
      64-bit number; `None` where the source panics. */
  function ParseInput(input: string): (r: Option<seq<nat>>)
    ensures r.Some? ==> |r.value| >= 1 && forall i :: 0 <= i < |r.value| ==> r.value[i] < U64Limit
    ensures Trim(input) == [] ==> r.None?
  {
    ParseAll(Split(Trim(input), ' '))
  }

  /** The decimal notations of the stones, in order. */
  function ShowAll(stones: seq<nat>): (r: seq<string>)
    ensures |r| == |stones|
    ensures forall i :: 0 <= i < |r| ==> r[i] != [] && AllDigits(r[i]) && Value(r[i]) == stones[i]
  {
    var r := seq(|stones|, i requires 0 <= i < |stones| => Show(stones[i]));
    ShownValues(stones, r);
    r
  }

  /** Decimal notations read back as the numbers they show. */
  lemma ShownValues(stones: seq<nat>, r: seq<string>)
    requires |r| == |stones| && forall i :: 0 <= i < |r| ==> r[i] == Show(stones[i])
    ensures forall i :: 0 <= i < |r| ==> r[i] != [] && AllDigits(r[i]) && Value(r[i]) == stones[i]
  {
    forall i | 0 <= i < |r|
      ensures r[i] != [] && AllDigits(r[i]) && Value(r[i]) == stones[i]
    {
      ValueShow(stones[i]);
      NumDigitsBounds(stones[i]);
    }
  }

  /** The stones written out with single spaces between them parse back
      to the same stones. */
  lemma ParseInputShow(stones: seq<nat>)
    requires |stones| > 0 && forall i :: 0 <= i < |stones| ==> stones[i] < U64Limit
    ensures ParseInput(Join(ShowAll(stones), ' ')) == Some(stones)
  {
    var ps := ShowAll(stones);
    var s := Join(ps, ' ');
    JoinEnds(ps, ' ');
    var first, last := ps[0], ps[|ps| - 1];
    assert IsDigit(first[0]) && IsDigit(last[|last| - 1]);
    TrimKeeps(s);
    forall i | 0 <= i < |ps|
      ensures ' ' !in ps[i]
    {
      assert AllDigits(ps[i]);
    }
    SplitJoin(ps, ' ');
    ParseAllShow(stones);
  }

  /** Each stone's notation parses back to the stone. */
  lemma ParseAllShow(stones: seq<nat>)
    requires forall i :: 0 <= i < |stones| ==> stones[i] < U64Limit
    ensures ParseAll(ShowAll(stones)) == Some(stones)
  {
    var ps := ShowAll(stones);
    forall i | 0 <= i < |ps|
      ensures ParseU64(ps[i]) == Some(stones[i])
    {
      ParseU64Show(stones[i]);
    }
    var r := ParseAll(ps);
    assert r.value == stones;
  }

  /** A join starts with its first piece's first character and ends with
      its last piece's last character. */
  lemma {:induction false} JoinEnds(ps: seq<string>, sep: char)
    requires |ps| > 0 && forall i :: 0 <= i < |ps| ==> |ps[i]| > 0
    ensures var s := Join(ps, sep);
      |s| > 0 && s[0] == ps[0][0] && s[|s| - 1] == ps[|ps| - 1][|ps[|ps| - 1]| - 1]
    decreases |ps|
  {
    if |ps| > 1 {
      JoinEnds(ps[1..], sep);
    }
  }
}
