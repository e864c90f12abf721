/** Day 8 antinodes. Antennas are grouped by frequency; every two antennas
    of one frequency make antinodes on the line through them: in part 1 the
    two points as far beyond each antenna as the antennas are apart, in part
    2 every point of the line at a whole multiple of that spacing. Only
    points on the map count. */
module Day08Antinodes {
  import opened Common
  import opened Day08Map

  /** The order in which the hash map yields its antennas, which the program
      does not fix: every antenna exactly once. */
  predicate Listing(m: Map, order: seq<Position>)
  {
    (forall i :: 0 <= i < |order| ==> order[i] in m.antennae)
    && (forall p :: p in m.antennae ==> p in order)
    && (forall i, j :: 0 <= i < j < |order| ==> order[i] != order[j])
  }

  /** Some listing of a finite set of positions. */
  ghost function ListOf(s: set<Position>): (r: seq<Position>)
    ensures forall p :: p in r <==> p in s
    ensures forall i, j :: 0 <= i < j < |r| ==> r[i] != r[j]
  {
    if s == {} then []
    else
      var p :| p in s;
      [p] + ListOf(s - {p})
  }

  /** `into_group_map`: the antennas of frequency `c`, in listing order. */
  function Group(m: Map, order: seq<Position>, c: char): (r: seq<Position>)
    ensures forall p :: p in r <==> p in order && p in m.antennae && m.antennae[p] == c
  {
    if |order| == 0 then []
    else
      var p := order[|order| - 1];
      Group(m, order[..|order| - 1], c) + if p in m.antennae && m.antennae[p] == c then [p] else []
  }

  /** A group drawn from a listing names each antenna once. */
  lemma {:induction false} GroupDistinct(m: Map, order: seq<Position>, c: char)
    requires forall i, j :: 0 <= i < j < |order| ==> order[i] != order[j]
    ensures forall i, j :: 0 <= i < j < |Group(m, order, c)| ==> Group(m, order, c)[i] != Group(m, order, c)[j]
  {
    if |order| > 0 {
      var init, p := order[..|order| - 1], order[|order| - 1];
      GroupDistinct(m, init, c);
      var gi := Group(m, init, c);
      assert p !in init;
      assert p !in gi;
    }
  }

  /** Two distinct antennas of one frequency. */
  predicate SameFrequency(m: Map, p: Position, q: Position)
  {
    p in m.antennae && q in m.antennae && p != q && m.antennae[p] == m.antennae[q]
  }

  /** The points made by every pair `(ps[i], ps[j])` with `i < j`
      (`tuple_combinations`), pair by pair. */
  function Pairs(f: (Position, Position) -> set<Position>, ps: seq<Position>): set<Position>
  {
    if |ps| == 0 then {} else PairsWith(f, ps[0], ps[1..]) + Pairs(f, ps[1..])
  }

  /** The points made by `p` with each of `qs`. */
  function PairsWith(f: (Position, Position) -> set<Position>, p: Position, qs: seq<Position>): set<Position>
  {
    if |qs| == 0 then {} else f(p, qs[0]) + PairsWith(f, p, qs[1..])
  }

  lemma {:induction false} PairsWithMeans(f: (Position, Position) -> set<Position>, p: Position, qs: seq<Position>, a: Position)
    ensures a in PairsWith(f, p, qs) <==> exists j :: 0 <= j < |qs| && a in f(p, qs[j])
  {
    if |qs| > 0 {
      PairsWithMeans(f, p, qs[1..], a);
      if a in PairsWith(f, p, qs[1..]) {
        var j :| 0 <= j < |qs[1..]| && a in f(p, qs[1..][j]);
        assert qs[j + 1] == qs[1..][j];
      }
      if exists j :: 0 <= j < |qs| && a in f(p, qs[j]) {
        var j :| 0 <= j < |qs| && a in f(p, qs[j]);
        if j > 0 {
          assert qs[1..][j - 1] == qs[j];
        }
      }
    }
  }

  /** A point is made by the pairs of a group iff some earlier-later pair
      makes it. */
  lemma {:induction false} PairsMeans(f: (Position, Position) -> set<Position>, ps: seq<Position>, a: Position)
    ensures a in Pairs(f, ps) <==> exists i, j :: 0 <= i < j < |ps| && a in f(ps[i], ps[j])
  {
    if |ps| > 0 {
      PairsMeans(f, ps[1..], a);
      PairsWithMeans(f, ps[0], ps[1..], a);
      if a in PairsWith(f, ps[0], ps[1..]) {
        var j :| 0 <= j < |ps[1..]| && a in f(ps[0], ps[1..][j]);
        assert ps[1..][j] == ps[j + 1];
      }
      if a in Pairs(f, ps[1..]) {
        var i, j :| 0 <= i < j < |ps[1..]| && a in f(ps[1..][i], ps[1..][j]);
        assert ps[1..][i] == ps[i + 1] && ps[1..][j] == ps[j + 1];
      }
      if exists i, j :: 0 <= i < j < |ps| && a in f(ps[i], ps[j]) {
        var i, j :| 0 <= i < j < |ps| && a in f(ps[i], ps[j]);
        if i == 0 {
          assert ps[1..][j - 1] == ps[j];
        } else {
          assert ps[1..][i - 1] == ps[i] && ps[1..][j - 1] == ps[j];
        }
      }
    }
  }

  /** The rule makes the same points whichever antenna of the pair comes
      first. */
  ghost predicate Symmetric(f: (Position, Position) -> set<Position>)
  {
    forall p, q :: f(p, q) == f(q, p)
  }

  /** The outer loop over the frequency groups: everything the pairs of each
      group make. */
  function Collect(m: Map, order: seq<Position>, f: (Position, Position) -> set<Position>): set<Position>
  {
    set c, a | c in m.antennae.Values && a in Pairs(f, Group(m, order, c)) :: a
  }

  /** Whatever the listing order, the points collected are those that a
      symmetric rule makes from two distinct antennas of one frequency. */
  lemma CollectMeans(m: Map, order: seq<Position>, f: (Position, Position) -> set<Position>, a: Position)
    requires Listing(m, order) && Symmetric(f)
    ensures a in Collect(m, order, f) <==> exists p, q :: SameFrequency(m, p, q) && a in f(p, q)
  {
    if a in Collect(m, order, f) {
      var c :| c in m.antennae.Values && a in Pairs(f, Group(m, order, c));
      var g := Group(m, order, c);
      PairsMeans(f, g, a);
      GroupDistinct(m, order, c);
      var i, j :| 0 <= i < j < |g| && a in f(g[i], g[j]);
      assert g[i] in g && g[j] in g;
      assert SameFrequency(m, g[i], g[j]);
    }
    if exists p, q :: SameFrequency(m, p, q) && a in f(p, q) {
      var p, q :| SameFrequency(m, p, q) && a in f(p, q);
      var c := m.antennae[p];
      var g := Group(m, order, c);
      assert p in g && q in g;
      var i :| 0 <= i < |g| && g[i] == p;
      var j :| 0 <= j < |g| && g[j] == q;
      PairsMeans(f, g, a);
      if i < j {
        assert a in f(g[i], g[j]);
      } else {
        assert f(q, p) == f(p, q);
        assert a in f(g[j], g[i]);
      }
      assert c in m.antennae.Values;
    }
  }

  /** Part 1 rule for a pair: the point beyond `p1` and the point beyond
      `p2`, each as far from its antenna as the antennas are apart, when on
      the map. */
  function PairAntinodes(m: Map, p1: Position, p2: Position): (r: set<Position>)
    ensures forall a :: a in r <==> InBounds(m, a) && (a == Sub(p1, Sub(p2, p1)) || a == Sub(p2, Sub(p1, p2)))
  {
    var offset := Sub(p2, p1);
    (if InBounds(m, Sub(p1, offset)) then {Sub(p1, offset)} else {})
    + (if InBounds(m, Add(p2, offset)) then {Add(p2, offset)} else {})
  }

  /** The part 1 rule as a function of the pair. */
  function Rule(m: Map): (Position, Position) -> set<Position>
  {
    (p, q) => PairAntinodes(m, p, q)
  }

  lemma RuleSymmetric(m: Map)
    ensures Symmetric(Rule(m))
  {
    forall p, q
      ensures Rule(m)(p, q) == Rule(m)(q, p)
    {
      assert forall a :: a in PairAntinodes(m, p, q) <==> a in PairAntinodes(m, q, p);
    }
  }

  /** `determine_antinodes`, walking the antennas in the order `order`. */
  function Antinodes(m: Map, order: seq<Position>): set<Position>
  {
    Collect(m, order, Rule(m))
  }

  /** Reference for part 1: a point on the map twice as far from one antenna
      as from another of the same frequency, on the line through both. */
  ghost predicate IsAntinode(m: Map, a: Position)
  {
    InBounds(m, a) && exists p, q :: SameFrequency(m, p, q) && a == Sub(p, Sub(q, p))
  }

  lemma AntinodesMeans(m: Map, order: seq<Position>, a: Position)
    requires Listing(m, order)
    ensures a in Antinodes(m, order) <==> IsAntinode(m, a)
  {
    var f := Rule(m);
    RuleSymmetric(m);
    CollectMeans(m, order, f, a);
    if a in Antinodes(m, order) {
      var p, q :| SameFrequency(m, p, q) && a in f(p, q);
      if a != Sub(p, Sub(q, p)) {
        assert SameFrequency(m, q, p) && a == Sub(q, Sub(p, q));
      }
    }
    if IsAntinode(m, a) {
      var p, q :| SameFrequency(m, p, q) && a == Sub(p, Sub(q, p));
      assert a in f(p, q);
    }
  }

  /** The points on the map at `k` steps of `d` from `p`, for all `k`: the
      walk of the part 2 loops, which stops at the map's edge. */
  function Walk(m: Map, p: Position, d: Position): (r: set<Position>)
    requires d != Position(0, 0)
    ensures forall a :: a in r ==> InBounds(m, a)
    ensures InBounds(m, p) <==> p in r
    decreases Room(m, p, d)
  {
    if !InBounds(m, p) then {} else {p} + Walk(m, Add(p, d), d)
  }

  /** Steps left before a walk in direction `d` leaves the map. */
  function Room(m: Map, p: Position, d: Position): nat
  {
    if !InBounds(m, p) then 0
    else if d.x > 0 then m.width - p.x
    else if d.x < 0 then p.x + 1
    else if d.y > 0 then m.height - p.y
    else p.y + 1
  }

  /** One coordinate of a straight walk: if the start and the point `k`
      steps on are in `[0, n)`, so is the point one step on. */
  lemma Between(x: int, dx: int, k: nat, n: int)
    requires 1 <= k && 0 <= x < n && 0 <= x + k * dx < n
    ensures 0 <= x + dx < n
  {
    if dx >= 0 {
      assert (k - 1) * dx >= 0;
    } else {
      assert (k - 1) * dx <= 0;
    }
  }

  /** A walk holds exactly the points on the map at whole multiples of the
      step from a start on the map: the map is a rectangle, so nothing past
      its edge is lost. */
  lemma {:induction false} WalkMeans(m: Map, p: Position, d: Position, a: Position)
    requires d != Position(0, 0)
    ensures a in Walk(m, p, d) <==> InBounds(m, p) && InBounds(m, a) && exists k: nat :: a == Add(p, Scale(k, d))
    decreases Room(m, p, d)
  {
    if InBounds(m, p) {
      var next := Add(p, d);
      WalkMeans(m, next, d, a);
      if a in Walk(m, p, d) {
        if a == p {
          assert a == Add(p, Scale(0, d));
        } else {
          var k: nat :| a == Add(next, Scale(k, d));
          ScaleStep(p, d, k);
        }
      }
      if InBounds(m, a) && exists k: nat :: a == Add(p, Scale(k, d)) {
        var k: nat :| a == Add(p, Scale(k, d));
        if k > 0 {
          Between(p.x, d.x, k, m.width);
          Between(p.y, d.y, k, m.height);
          ScaleStep(p, d, k - 1);
        }
      }
    }
  }

  /** `k + 1` steps are one step and then `k`. */
  lemma ScaleStep(p: Position, d: Position, k: nat)
    ensures Add(Add(p, d), Scale(k, d)) == Add(p, Scale(k + 1, d))
  {
    assert (k + 1) * d.x == k * d.x + d.x;
    assert (k + 1) * d.y == k * d.y + d.y;
  }

  /** Part 2 rule for a pair: both walks outward from the antennas, one
      stepping back by the offset from `p1`, one stepping on by it from
      `p2`. Stepping back by the offset is stepping by its negation. Every
      point found is on the map, and so is each antenna that is on it. */
  function TPairAntinodes(m: Map, p1: Position, p2: Position): (r: set<Position>)
    requires p1 != p2
    ensures forall a :: a in r ==> InBounds(m, a)
    ensures InBounds(m, p1) ==> p1 in r
    ensures InBounds(m, p2) ==> p2 in r
  {
    var offset := Sub(p2, p1);
    Walk(m, p1, Neg(offset)) + Walk(m, p2, offset)
  }

  /** The rule for all pairs, with a pair of equal positions (which a hash
      map never holds) making nothing. */
  function TRule(m: Map, p: Position, q: Position): set<Position>
  {
    if p == q then {} else TPairAntinodes(m, p, q)
  }

  /** The part 2 rule as a function of the pair. */
  function TRuleOf(m: Map): (Position, Position) -> set<Position>
  {
    (p, q) => TRule(m, p, q)
  }

  lemma TRuleSymmetric(m: Map)
    ensures Symmetric(TRuleOf(m))
  {
    forall p, q | p != q
      ensures TPairAntinodes(m, p, q) == TPairAntinodes(m, q, p)
    {
      forall b
        ensures b in TPairAntinodes(m, p, q) <==> b in TPairAntinodes(m, q, p)
      {
        TPairMeans(m, p, q, b);
        TPairMeans(m, q, p, b);
      }
    }
  }

  /** `determine_t_antinodes`, walking the antennas in the order `order`. */
  function TAntinodes(m: Map, order: seq<Position>): set<Position>
  {
    Collect(m, order, TRuleOf(m))
  }

  /** Reference for part 2: a point on the map on the line through two
      antennas of one frequency, a whole number of spacings from an antenna
      that is itself on the map. */
  ghost predicate IsTAntinode(m: Map, a: Position)
  {
    InBounds(m, a) && exists p, q, k: nat :: SameFrequency(m, p, q) && InBounds(m, p) && a == Add(p, Scale(k, Sub(p, q)))
  }

  /** Membership in one pair's part 2 points. */
  lemma TPairMeans(m: Map, p: Position, q: Position, a: Position)
    requires p != q
    ensures a in TPairAntinodes(m, p, q) <==>
      InBounds(m, a) && ((InBounds(m, p) && exists k: nat :: a == Add(p, Scale(k, Sub(p, q))))
                        || (InBounds(m, q) && exists k: nat :: a == Add(q, Scale(k, Sub(q, p)))))
  {
    PositionAlgebra(q, p);
    WalkMeans(m, p, Neg(Sub(q, p)), a);
    WalkMeans(m, q, Sub(q, p), a);
  }

  lemma TAntinodesMeans(m: Map, order: seq<Position>, a: Position)
    requires Listing(m, order)
    ensures a in TAntinodes(m, order) <==> IsTAntinode(m, a)
  {
    var f := TRuleOf(m);
    TRuleSymmetric(m);
    CollectMeans(m, order, f, a);
    if a in TAntinodes(m, order) {
      var p, q :| SameFrequency(m, p, q) && a in f(p, q);
      TPairMeans(m, p, q, a);
      if !(InBounds(m, p) && exists k: nat :: a == Add(p, Scale(k, Sub(p, q)))) {
        assert SameFrequency(m, q, p);
      }
    }
    if IsTAntinode(m, a) {
      var p, q, k: nat :| SameFrequency(m, p, q) && InBounds(m, p) && a == Add(p, Scale(k, Sub(p, q)));
      TPairMeans(m, p, q, a);
      assert a in f(p, q);
    }
  }

  /** Every antinode of either part is on the map. */
  lemma AntinodesInBounds(m: Map, order: seq<Position>, a: Position)
    requires Listing(m, order)
    ensures a in Antinodes(m, order) ==> InBounds(m, a)
    ensures a in TAntinodes(m, order) ==> InBounds(m, a)
  {
    AntinodesMeans(m, order, a);
    TAntinodesMeans(m, order, a);
  }

  /** With every antenna on the map, each part 1 antinode is a part 2
      antinode: it is one spacing beyond an antenna. */
  lemma Part1InPart2(m: Map, order: seq<Position>)
    requires Listing(m, order)
    requires forall p :: p in m.antennae ==> InBounds(m, p)
    ensures Antinodes(m, order) <= TAntinodes(m, order)
  {
    forall a | a in Antinodes(m, order)
      ensures a in TAntinodes(m, order)
    {
      AntinodesMeans(m, order, a);
      var p, q :| SameFrequency(m, p, q) && a == Sub(p, Sub(q, p));
      assert a == Add(p, Scale(1, Sub(p, q)));
      TAntinodesMeans(m, order, a);
    }
  }

  /** The points of the map satisfying `IsAntinode`, the part 1 answer's
      set. */
  ghost function AntinodeSet(m: Map): set<Position>
  {
    set x: int, y: int | 0 <= x < m.width && 0 <= y < m.height && IsAntinode(m, Position(x, y)) :: Position(x, y)
  }

  /** Part 1: the number of antinodes, `None` when the input has no lines.
      The hash map's order is whichever listing `order` gives. */
  function SolvePart1(lines: seq<string>, order: seq<Position>): (r: Option<nat>)
    requires |lines| > 0 ==> Listing(Parse(lines).value, order)
    ensures r.None? <==> |lines| == 0
    ensures r.Some? ==> r.value == |AntinodeSet(Parse(lines).value)|
  {
    match Parse(lines)
    case None => None
    case Some(m) =>
      assert Antinodes(m, order) == AntinodeSet(m) by {
        forall a
          ensures a in Antinodes(m, order) <==> a in AntinodeSet(m)
        {
          AntinodesMeans(m, order, a);
          assert a == Position(a.x, a.y);
        }
      }
      Some(|Antinodes(m, order)|)
  }

  /** The points of the map satisfying `IsTAntinode`. */
  ghost function TAntinodeSet(m: Map): set<Position>
  {
    set x: int, y: int | 0 <= x < m.width && 0 <= y < m.height && IsTAntinode(m, Position(x, y)) :: Position(x, y)
  }

  /** Part 2: the number of antinodes counting whole multiples. */
  function SolvePart2(lines: seq<string>, order: seq<Position>): (r: Option<nat>)
    requires |lines| > 0 ==> Listing(Parse(lines).value, order)
    ensures r.None? <==> |lines| == 0
    ensures r.Some? ==> r.value == |TAntinodeSet(Parse(lines).value)|
  {
    match Parse(lines)
    case None => None
    case Some(m) =>
      assert TAntinodes(m, order) == TAntinodeSet(m) by {
        forall a
          ensures a in TAntinodes(m, order) <==> a in TAntinodeSet(m)
        {
          TAntinodesMeans(m, order, a);
          assert a == Position(a.x, a.y);
        }
      }
      Some(|TAntinodes(m, order)|)
  }

  /** Every line as long as the first: each antenna is on the map. */
  lemma RectangularInBounds(lines: seq<string>)
    requires |lines| > 0 && forall y :: 0 <= y < |lines| ==> |lines[y]| == |lines[0]|
    ensures forall p :: p in Parse(lines).value.antennae ==> InBounds(Parse(lines).value, p)
  {
  }

  /** Two 'a' antennas on the diagonal of a 4 by 4 map: part 1 finds the two
      corners, part 2 the whole diagonal. */
  lemma PairExample()
    ensures PairAntinodes(Map(4, 4, map[]), Position(1, 1), Position(2, 2)) == {Position(0, 0), Position(3, 3)}
  {
  }

  lemma WalkExample()
    ensures TPairAntinodes(Map(4, 4, map[]), Position(1, 1), Position(2, 2))
      == {Position(0, 0), Position(1, 1), Position(2, 2), Position(3, 3)}
  {
    var m := Map(4, 4, map[]);
    var back, on := Position(-1, -1), Position(1, 1);
    assert Walk(m, Position(-1, -1), back) == {};
    assert Walk(m, Position(0, 0), back) == {Position(0, 0)};
    assert Walk(m, Position(1, 1), back) == {Position(1, 1), Position(0, 0)};
    assert Walk(m, Position(4, 4), on) == {};
    assert Walk(m, Position(3, 3), on) == {Position(3, 3)};
    assert Walk(m, Position(2, 2), on) == {Position(2, 2), Position(3, 3)};
  }
}
