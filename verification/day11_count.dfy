/** Day 11 counting by multiplicity: `count_stones_after_blinks` never
    builds the list; it keeps a map from stone number to how many stones
    carry it and rewrites every entry once per blink. The model proves that
    a map standing for a list keeps standing for the blinked list whatever
    order the entries are visited in, and that the final sum is the list's
    length. */
module Day11Count {
  import opened Common
  import opened Decimal
  import opened Day11Stones

  /** How many stones numbered `k` the map holds; a missing key holds none. */
  function Count(cache: map<nat, nat>, k: nat): nat
  {
    if k in cache then cache[k] else 0
  }

  /** The map holds, for every number, exactly as many stones as the list
      `s` does. */
  ghost predicate Represents(cache: map<nat, nat>, s: seq<nat>)
  {
    forall k :: Count(cache, k) == multiset(s)[k]
  }

  /** `entry(k).and_modify(|n| *n += c).or_insert(c)`: `c` more stones
      numbered `k`, every other count unchanged. */
  function Add(cache: map<nat, nat>, k: nat, c: nat): (r: map<nat, nat>)
    ensures forall j :: Count(r, j) == Count(cache, j) + if j == k then c else 0
  {
    cache[k := Count(cache, k) + c]
  }

  /** `c` stones numbered `k`. */
  function Copies(k: nat, c: nat): (r: seq<nat>)
    ensures |r| == c
  {
    if c == 0 then [] else Copies(k, c - 1) + [k]
  }

  lemma {:induction false} CopiesCount(k: nat, c: nat)
    ensures forall j :: multiset(Copies(k, c))[j] == if j == k then c else 0
  {
    if c > 0 {
      CopiesCount(k, c - 1);
    }
  }

  /** Every stone of `s` replaced by the stones `f` makes of it, in order:
      a blink with the rule left abstract, so that facts about counting need
      not look inside the rule's arithmetic. */
  function ConcatMap(f: nat -> seq<nat>, s: seq<nat>): seq<nat>
  {
    if |s| == 0 then [] else ConcatMap(f, s[..|s| - 1]) + f(s[|s| - 1])
  }

  /** A blink is the rule applied to every stone in turn. */
  lemma {:induction false} BlinkConcatMap(s: seq<nat>)
    ensures Blink(s) == ConcatMap(Rule, s)
  {
    if |s| > 0 {
      BlinkConcatMap(s[..|s| - 1]);
    }
  }

  lemma {:induction false} ConcatMapAppend(f: nat -> seq<nat>, a: seq<nat>, b: seq<nat>)
    ensures ConcatMap(f, a + b) == ConcatMap(f, a) + ConcatMap(f, b)
    decreases |b|
  {
    if |b| > 0 {
      var b' := b[..|b| - 1];
      assert (a + b)[..|a + b| - 1] == a + b';
      ConcatMapAppend(f, a, b');
    } else {
      assert a + b == a;
    }
  }

  /** `c` equal stones make `c` times as many of each number as one does. */
  lemma {:induction false} ConcatMapCopies(f: nat -> seq<nat>, k: nat, c: nat)
    ensures forall j :: multiset(ConcatMap(f, Copies(k, c)))[j] == c * multiset(f(k))[j]
  {
    if c > 0 {
      var prev := Copies(k, c - 1);
      ConcatMapCopies(f, k, c - 1);
      Snoc(prev, k);
      var whole := ConcatMap(f, prev) + f(k);
      assert ConcatMap(f, Copies(k, c)) == whole;
      assert multiset(whole) == multiset(ConcatMap(f, prev)) + multiset(f(k));
      forall j
        ensures multiset(whole)[j] == c * multiset(f(k))[j]
      {
        MulSucc(c - 1, multiset(f(k))[j]);
      }
    }
  }

  /** A number a list holds can be taken out of it: the list is what lies
      before it, the number, and what lies after it. */
  lemma PickOut(t: seq<nat>, x: nat) returns (before: seq<nat>, after: seq<nat>)
    requires x in multiset(t)
    ensures t == before + [x] + after
    ensures multiset(t) == multiset(before + after) + multiset{x}
  {
    assert x in t;
    var i :| 0 <= i < |t| && t[i] == x;
    before, after := t[..i], t[i + 1..];
    assert t == before + [x] + after;
  }

  /** Multisets cancel: equal sums with a common part agree elsewhere. */
  lemma Cancel(a: multiset<nat>, b: multiset<nat>, c: multiset<nat>)
    requires a + c == b + c
    ensures a == b
  {
    forall y
      ensures a[y] == b[y]
    {
      assert (a + c)[y] == (b + c)[y];
    }
  }

  /** Rearranging a sum of three multisets. */
  lemma Regroup(p: multiset<nat>, a: multiset<nat>, b: multiset<nat>, x: multiset<nat>)
    requires p == a + b
    ensures p + x == a + x + b
  {
  }

  /** What `f` makes of a list depends only on how many of each number the
      list holds, not on their order. */
  lemma {:induction false} ConcatMapPermutation(f: nat -> seq<nat>, s: seq<nat>, t: seq<nat>)
    requires multiset(s) == multiset(t)
    ensures multiset(ConcatMap(f, s)) == multiset(ConcatMap(f, t))
    decreases |s|
  {
    if |s| > 0 {
      var init, x := s[..|s| - 1], s[|s| - 1];
      assert s == init + [x];
      assert multiset(s) == multiset(init) + multiset{x};
      var before, after := PickOut(t, x);
      var rest := before + after;
      Cancel(multiset(init), multiset(rest), multiset{x});
      ConcatMapPermutation(f, init, rest);
      ConcatMapAppend(f, before + [x], after);
      ConcatMapAppend(f, before, [x]);
      ConcatMapAppend(f, before, after);
      assert ConcatMap(f, [x]) == f(x) by {
        assert [x][..0] == [];
      }
      var fb, fa, fx := ConcatMap(f, before), ConcatMap(f, after), f(x);
      assert ConcatMap(f, t) == fb + fx + fa;
      assert ConcatMap(f, s) == ConcatMap(f, init) + fx;
      Regroup(multiset(ConcatMap(f, rest)), multiset(fb), multiset(fa), multiset(fx));
    }
  }

  /** How many stones a blink makes of a list depends only on how many of
      each number the list holds. */
  lemma BlinkPermutation(s: seq<nat>, t: seq<nat>)
    requires multiset(s) == multiset(t)
    ensures multiset(Blink(s)) == multiset(Blink(t))
  {
    BlinkConcatMap(s);
    BlinkConcatMap(t);
    ConcatMapPermutation(Rule, s, t);
  }

  /** `c` equal stones blink into `c` times the stones one of them makes. */
  lemma BlinkCopies(k: nat, c: nat)
    ensures forall j :: multiset(Blink(Copies(k, c)))[j] == c * multiset(Rule(k))[j]
  {
    BlinkConcatMap(Copies(k, c));
    ConcatMapCopies(Rule, k, c);
  }

  /** Adding `c` stones for the one stone a rule makes. */
  lemma AddOne(cache: map<nat, nat>, x: nat, c: nat, made: seq<nat>)
    requires made == [x]
    ensures forall j :: Count(Add(cache, x, c), j) == Count(cache, j) + c * multiset(made)[j]
  {
  }

  /** Adding `c` stones for each of the two stones a split makes, which
      lands twice on one entry when the halves are equal. */
  lemma AddTwo(cache: map<nat, nat>, a: nat, b: nat, c: nat, made: seq<nat>)
    requires made == [a, b]
    ensures forall j :: Count(Add(Add(cache, a, c), b, c), j) == Count(cache, j) + c * multiset(made)[j]
  {
    forall j
      ensures Count(Add(Add(cache, a, c), b, c), j) == Count(cache, j) + c * multiset(made)[j]
    {
      var one, two := if j == a then 1 else 0, if j == b then 1 else 0;
      assert multiset(made)[j] == one + two;
      assert c * (one + two) == c * one + c * two;
    }
  }

  /** The body of the inner loop for one entry: its count is added to the
      entry of each stone the rule makes of it (twice to one entry when a
      split gives two equal halves), just as the list would grow by the
      blink of that many equal stones. */
  method AddRule(cache: map<nat, nat>, stone: nat, numStones: nat) returns (r: map<nat, nat>)
    ensures forall j :: Count(r, j) == Count(cache, j) + numStones * multiset(Rule(stone))[j]
  {
    if stone == 0 {
      r := Add(cache, 1, numStones);
      AddOne(cache, 1, numStones, Rule(stone));
      return;
    }
    var numDigits := |Show(stone)|;
    if numDigits % 2 == 0 {
      var tenToHalfLen := Pow10(numDigits / 2);
      DivNat(stone, tenToHalfLen);
      var left: nat, right: nat := stone / tenToHalfLen, stone % tenToHalfLen;
      r := Add(Add(cache, left, numStones), right, numStones);
      AddTwo(cache, left, right, numStones, Rule(stone));
      return;
    }
    r := Add(cache, stone * 2024, numStones);
    AddOne(cache, stone * 2024, numStones, Rule(stone));
  }

  /** The state of the rewrite loop: the entries not yet visited are those
      in `remaining`, the visited ones stand for the list `done`, and the new
      map stands for the blink of `done`. */
  ghost predicate BlinkCacheInv(cache: map<nat, nat>, remaining: set<nat>, done: seq<nat>, next: map<nat, nat>)
  {
    && remaining <= cache.Keys
    && (forall k :: multiset(done)[k] == if k in remaining then 0 else Count(cache, k))
    && Represents(next, Blink(done))
  }

  /** Adding the blink of `c` stones numbered `stone` to a map standing for
      the blink of `done` gives a map standing for the blink of `done`
      followed by those stones. */
  lemma RepresentsStep(next: map<nat, nat>, done: seq<nat>, stone: nat, c: nat, next': map<nat, nat>)
    requires Represents(next, Blink(done))
    requires forall j :: Count(next', j) == Count(next, j) + c * multiset(Rule(stone))[j]
    ensures Represents(next', Blink(done + Copies(stone, c)))
  {
    BlinkAppend(done, Copies(stone, c));
    BlinkCopies(stone, c);
    var done' := done + Copies(stone, c);
    forall j
      ensures Count(next', j) == multiset(Blink(done'))[j]
    {
      assert multiset(Blink(done'))[j] == multiset(Blink(done))[j] + multiset(Blink(Copies(stone, c)))[j];
    }
  }

  /** Visiting one more entry moves its stones from `remaining` to `done`. */
  lemma DoneStep(cache: map<nat, nat>, remaining: set<nat>, done: seq<nat>, stone: nat)
    requires stone in remaining && remaining <= cache.Keys
    requires forall k :: multiset(done)[k] == if k in remaining then 0 else Count(cache, k)
    ensures forall k :: multiset(done + Copies(stone, cache[stone]))[k] == if k in remaining - {stone} then 0 else Count(cache, k)
  {
    CopiesCount(stone, cache[stone]);
  }

  /** Visiting one more entry keeps the loop state. */
  lemma BlinkCacheStep(cache: map<nat, nat>, remaining: set<nat>, done: seq<nat>, next: map<nat, nat>, stone: nat, next': map<nat, nat>)
    requires BlinkCacheInv(cache, remaining, done, next)
    requires stone in remaining
    requires forall j :: Count(next', j) == Count(next, j) + cache[stone] * multiset(Rule(stone))[j]
    ensures BlinkCacheInv(cache, remaining - {stone}, done + Copies(stone, cache[stone]), next')
  {
    RepresentsStep(next, done, stone, cache[stone], next');
    DoneStep(cache, remaining, done, stone);
  }

  /** One blink on the map: the old map is taken apart entry by entry, in
      whatever order the hash map yields them, and each entry is rewritten
      into the new map. A map standing for `s` becomes one standing for
      `Blink(s)`. */
  method BlinkCache(cache: map<nat, nat>, ghost s: seq<nat>) returns (next: map<nat, nat>)
    requires Represents(cache, s)
    ensures Represents(next, Blink(s))
  {
    next := map[];
    var remaining := cache.Keys;
    ghost var done: seq<nat> := [];
    while remaining != {}
      invariant BlinkCacheInv(cache, remaining, done, next)
      decreases |remaining|
    {
      var stone :| stone in remaining;
      var numStones := cache[stone];
      var next' := AddRule(next, stone, numStones);
      BlinkCacheStep(cache, remaining, done, next, stone, next');
      remaining := remaining - {stone};
      done := done + Copies(stone, numStones);
      next := next';
    }
    assert multiset(done) == multiset(s);
    BlinkPermutation(s, done);
  }

  /** `cache.into_values().sum()`, adding the counts in whatever order the
      hash map yields them: the number of stones the map stands for. */
  method SumValues(cache: map<nat, nat>, ghost s: seq<nat>) returns (total: nat)
    requires Represents(cache, s)
    ensures total == |s|
  {
    total := 0;
    var remaining := cache.Keys;
    ghost var left := multiset(s);
    while remaining != {}
      invariant remaining <= cache.Keys
      invariant forall k :: left[k] == if k in remaining then Count(cache, k) else 0
      invariant total + |left| == |s|
      decreases |remaining|
    {
      var k :| k in remaining;
      ghost var rest := left[k := 0];
      CopiesCount(k, cache[k]);
      assert left == rest + multiset(Copies(k, cache[k]));
      total := total + cache[k];
      remaining := remaining - {k};
      left := rest;
    }
    assert left == multiset{};
  }

  /** The blinking loop and the final sum, from a map standing for `s`. */
  method CountFrom(cache0: map<nat, nat>, ghost s: seq<nat>, numBlinks: nat) returns (total: nat)
    requires Represents(cache0, s)
    ensures total == |Blinks(s, numBlinks)|
  {
    var cache := cache0;
    for b := 0 to numBlinks
      invariant Represents(cache, Blinks(s, b))
    {
      cache := BlinkCache(cache, Blinks(s, b));
    }
    total := SumValues(cache, Blinks(s, numBlinks));
  }

  /** The numbers of `s` with repeats dropped, first occurrences kept. */
  function Dedup(s: seq<nat>): seq<nat>
  {
    if |s| == 0 then []
    else if s[|s| - 1] in s[..|s| - 1] then Dedup(s[..|s| - 1])
    else Dedup(s[..|s| - 1]) + [s[|s| - 1]]
  }

  /** Dropping repeats leaves each number of `s` exactly once. */
  lemma {:induction false} DedupCounts(s: seq<nat>)
    ensures forall k :: multiset(Dedup(s))[k] == if k in s then 1 else 0
    decreases |s|
  {
    if |s| > 0 {
      var init, x := s[..|s| - 1], s[|s| - 1];
      DedupCounts(init);
      assert s == init + [x];
      assert forall k :: k in s <==> k in init || k == x;
    }
  }

  /** A list without repeats is left alone; any other gets shorter. */
  lemma {:induction false} DedupShorter(s: seq<nat>)
    ensures Distinct(s) ==> Dedup(s) == s
    ensures !Distinct(s) ==> |Dedup(s)| < |s|
    ensures |Dedup(s)| <= |s|
    decreases |s|
  {
    if |s| > 0 {
      var init, x := s[..|s| - 1], s[|s| - 1];
      DedupShorter(init);
      assert s == init + [x];
      if Distinct(s) {
        assert Distinct(init);
        assert x !in init;
      } else if x !in init {
        var i, j :| 0 <= i < j < |s| && s[i] == s[j];
        assert j < |s| - 1;
        assert !Distinct(init);
      }
    }
  }

  /** `count_stones_after_blinks` as written: the map starts with count 1
      for every number that occurs, however often it occurs, so it counts
      the stones grown from the distinct input numbers only. For an input
      without repeated numbers that is the length of the blinked list. */
  method CountStonesAfterBlinks(stones: seq<nat>, numBlinks: nat) returns (total: nat)
    ensures total == |Blinks(Dedup(stones), numBlinks)|
    ensures Distinct(stones) ==> total == |Blinks(stones, numBlinks)|
  {
    var cache := map k | k in stones :: 1;
    DedupCounts(stones);
    DedupShorter(stones);
    total := CountFrom(cache, Dedup(stones), numBlinks);
  }

  /** Two stones numbered 0 are counted as one by the as-written count,
      before any blink and after one. */
  lemma DuplicatesCollapse()
    ensures Dedup([0, 0]) == [0]
    ensures |Blinks(Dedup([0, 0]), 0)| == 1 && |Blinks([0, 0], 0)| == 2
    ensures |Blinks(Dedup([0, 0]), 1)| == 1 && |Blinks([0, 0], 1)| == 2
  {
    assert [0, 0][..1] == [0];
    assert [0][..0] == [];
    BlinkLength([0]);
    BlinkLength([0, 0]);
    assert Splitting([0]) == 0;
    assert Splitting([0, 0]) == 0;
  }

  /** The corrected count: the map starts with the number of occurrences of
      each number, and the result is the length of the blinked list for
      every input. */
  method CountStonesCorrected(stones: seq<nat>, numBlinks: nat) returns (total: nat)
    ensures total == |Blinks(stones, numBlinks)|
  {
    var cache := map k | k in stones :: multiset(stones)[k];
    total := CountFrom(cache, stones, numBlinks);
  }

  /** `solve_part_2` as written: the as-written count after 75 blinks, so
      repeated input numbers are counted once; `None` where the input does
      not parse. */
  method SolvePart2(input: string) returns (r: Option<nat>)
    ensures r.None? <==> ParseInput(input).None?
    ensures r.Some? ==> r.value == |Blinks(Dedup(ParseInput(input).value), 75)|
    ensures r.Some? && Distinct(ParseInput(input).value) ==>
      r.value == |Blinks(ParseInput(input).value, 75)|
  {
    match ParseInput(input)
    case None => r := None;
    case Some(stones) =>
      var total := CountStonesAfterBlinks(stones, 75);
      r := Some(total);
  }

  /** Part 2 with the corrected count: the number of stones after 75
      blinks, counted by multiplicity, for every input that parses. */
  method SolvePart2Corrected(input: string) returns (r: Option<nat>)
    ensures r.None? <==> ParseInput(input).None?
    ensures r.Some? ==> r.value == |Blinks(ParseInput(input).value, 75)|
  {
    match ParseInput(input)
    case None => r := None;
    case Some(stones) =>
      var total := CountStonesCorrected(stones, 75);
      r := Some(total);
  }
}
