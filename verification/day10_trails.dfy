/** Day 10 trail search: from every trailhead the programs walk every
    hiking trail (each step to a neighbouring cell exactly one higher)
    with an explicit stack, and count per trailhead the distinct peaks
    reached (the score) and the trails themselves (the rating). The model
    defines the trails directly, by recursion on the height, and proves
    that the stack search finds exactly them. */
module Day10Trails {
  import opened Common
  import opened Day10Map

  /** The four neighbours in the order the search pushes them: up, down,
      left, right. */
  function Steps(p: Position): seq<Position>
  {
    [Position(p.x, p.y - 1), Position(p.x, p.y + 1), Position(p.x - 1, p.y), Position(p.x + 1, p.y)]
  }

  lemma StepsDistinct(p: Position)
    ensures Distinct(Steps(p))
  {
  }

  function Height(m: TopoMap, p: Position): nat
    requires WellFormed(m) && InBounds(m, p)
  {
    Get(m, p.x, p.y).value
  }

  /** Those of `qs` that lie on the map exactly one above `p`, in order. */
  function ClimbsAmong(m: TopoMap, p: Position, qs: seq<Position>): (r: seq<Position>)
    requires WellFormed(m) && InBounds(m, p)
    ensures forall q :: q in r ==> InBounds(m, q) && Height(m, q) == Height(m, p) + 1
  {
    if |qs| == 0 then []
    else
      var before := ClimbsAmong(m, p, qs[..|qs| - 1]);
      var q := qs[|qs| - 1];
      if Get(m, q.x, q.y) == Some(Height(m, p) + 1) then before + [q] else before
  }

  /** The filter keeps exactly the cells of `qs` one above `p`, never more
      than it is given, and no cell twice if `qs` has none twice. */
  lemma {:induction false} ClimbsAmongExact(m: TopoMap, p: Position, qs: seq<Position>)
    requires WellFormed(m) && InBounds(m, p)
    ensures |ClimbsAmong(m, p, qs)| <= |qs|
    ensures forall q :: q in ClimbsAmong(m, p, qs) <==> q in qs && Get(m, q.x, q.y) == Some(Height(m, p) + 1)
    ensures Distinct(qs) ==> Distinct(ClimbsAmong(m, p, qs))
    decreases |qs|
  {
    if |qs| > 0 {
      ClimbsAmongExact(m, p, qs[..|qs| - 1]);
      assert forall k :: k in qs <==> k in qs[..|qs| - 1] || k == qs[|qs| - 1];
    }
  }

  /** Filtering one more cell appends it exactly when it is one higher. */
  lemma ClimbsAmongSnoc(m: TopoMap, p: Position, qs: seq<Position>, q: Position)
    requires WellFormed(m) && InBounds(m, p)
    ensures ClimbsAmong(m, p, qs + [q]) ==
      if Get(m, q.x, q.y) == Some(Height(m, p) + 1) then ClimbsAmong(m, p, qs) + [q] else ClimbsAmong(m, p, qs)
  {
    assert (qs + [q])[..|qs|] == qs;
  }

  /** The neighbours of `p` one step higher, in push order. */
  function Climbs(m: TopoMap, p: Position): (r: seq<Position>)
    requires WellFormed(m) && InBounds(m, p)
    ensures forall q :: q in r ==> InBounds(m, q) && Height(m, q) == Height(m, p) + 1
  {
    ClimbsAmong(m, p, Steps(p))
  }

  /** `[p]` put in front of each trail of `ts`. */
  function Prepend(p: Position, ts: seq<seq<Position>>): (r: seq<seq<Position>>)
    ensures |r| == |ts|
    ensures forall i :: 0 <= i < |r| ==> |r[i]| > 0 && r[i][0] == p && r[i][1..] == ts[i]
  {
    seq(|ts|, i requires 0 <= i < |ts| => [p] + ts[i])
  }

  /** Every hiking trail from `p` up to a cell of height 9: none off the
      map, the one-cell trail on a peak, and otherwise `p` followed by a
      trail from each higher neighbour in turn. */
  function Paths(m: TopoMap, p: Position): seq<seq<Position>>
    requires WellFormed(m)
    decreases if InBounds(m, p) then 9 - Height(m, p) else 0, 1, 0
  {
    if !InBounds(m, p) then []
    else if Height(m, p) == 9 then [[p]]
    else PathsVia(m, p, Climbs(m, p))
  }

  /** The trails from `p` whose second cell is one of `qs`. */
  function PathsVia(m: TopoMap, p: Position, qs: seq<Position>): seq<seq<Position>>
    requires WellFormed(m) && InBounds(m, p)
    requires forall q :: q in qs ==> InBounds(m, q) && Height(m, q) == Height(m, p) + 1
    decreases 9 - Height(m, p), 0, |qs|
  {
    if |qs| == 0 then []
    else PathsVia(m, p, qs[..|qs| - 1]) + Prepend(p, Paths(m, qs[|qs| - 1]))
  }

  /** A hiking trail: cells on the map, each a neighbour of the one before
      and exactly one higher. */
  predicate Trail(m: TopoMap, t: seq<Position>)
    requires WellFormed(m)
  {
    && |t| > 0
    && (forall i :: 0 <= i < |t| ==> InBounds(m, t[i]))
    && forall i :: 0 <= i < |t| - 1 ==> t[i + 1] in Steps(t[i]) && Height(m, t[i + 1]) == Height(m, t[i]) + 1
  }

  /** A trail from `p` that ends on a peak. */
  predicate Complete(m: TopoMap, p: Position, t: seq<Position>)
    requires WellFormed(m)
  {
    Trail(m, t) && t[0] == p && Height(m, t[|t| - 1]) == 9
  }

  /** A trail without its first cell is still a trail. */
  lemma TrailTail(m: TopoMap, t: seq<Position>)
    requires WellFormed(m) && Trail(m, t) && |t| >= 2
    ensures Trail(m, t[1..])
  {
    var u := t[1..];
    forall i | 0 <= i < |u| - 1
      ensures u[i + 1] in Steps(u[i]) && Height(m, u[i + 1]) == Height(m, u[i]) + 1
    {
      assert u[i] == t[i + 1] && u[i + 1] == t[i + 2];
    }
  }

  /** A trail extended backwards by a neighbour one lower is a trail. */
  lemma TrailCons(m: TopoMap, p: Position, u: seq<Position>)
    requires WellFormed(m) && InBounds(m, p) && Trail(m, u)
    requires u[0] in Steps(p) && Height(m, u[0]) == Height(m, p) + 1
    ensures Trail(m, [p] + u)
  {
    var t := [p] + u;
    forall i | 0 <= i < |t|
      ensures InBounds(m, t[i])
    {
      if i > 0 {
        assert t[i] == u[i - 1];
      }
    }
    forall i | 0 <= i < |t| - 1
      ensures t[i + 1] in Steps(t[i]) && Height(m, t[i + 1]) == Height(m, t[i]) + 1
    {
      if i > 0 {
        assert t[i] == u[i - 1] && t[i + 1] == u[i];
      }
    }
  }

  /** Everything `Paths` lists is a complete trail from `p`. */
  lemma {:induction false} PathsSound(m: TopoMap, p: Position)
    requires WellFormed(m)
    ensures forall t :: t in Paths(m, p) ==> Complete(m, p, t)
    decreases if InBounds(m, p) then 9 - Height(m, p) else 0, 1, 0
  {
    if InBounds(m, p) && Height(m, p) != 9 {
      ClimbsAmongExact(m, p, Steps(p));
      PathsViaSound(m, p, Climbs(m, p));
    }
  }

  /** The trails via `qs` are complete trails from `p` whose second cell is
      in `qs` and whose tail is a trail the second cell lists. */
  lemma {:induction false} PathsViaSound(m: TopoMap, p: Position, qs: seq<Position>)
    requires WellFormed(m) && InBounds(m, p)
    requires forall q :: q in qs ==> InBounds(m, q) && Height(m, q) == Height(m, p) + 1
    requires forall q :: q in qs ==> q in Steps(p)
    ensures forall t :: t in PathsVia(m, p, qs) ==>
      && Complete(m, p, t) && |t| >= 2 && t[1] in qs && t[1..] in Paths(m, t[1])
    decreases 9 - Height(m, p), 0, |qs|
  {
    if |qs| > 0 {
      var q := qs[|qs| - 1];
      PathsViaSound(m, p, qs[..|qs| - 1]);
      PathsSound(m, q);
      forall t | t in Prepend(p, Paths(m, q))
        ensures Complete(m, p, t) && |t| >= 2 && t[1] in qs && t[1..] in Paths(m, t[1])
      {
        var i :| 0 <= i < |Paths(m, q)| && t == [p] + Paths(m, q)[i];
        var u := Paths(m, q)[i];
        assert u in Paths(m, q);
        TrailCons(m, p, u);
        assert t[1..] == u;
        assert t[|t| - 1] == u[|u| - 1];
      }
    }
  }

  /** A trail from `p` through a listed neighbour `q` is listed via `qs`. */
  lemma {:induction false} PathsViaHas(m: TopoMap, p: Position, qs: seq<Position>, q: Position, u: seq<Position>)
    requires WellFormed(m) && InBounds(m, p)
    requires forall k :: k in qs ==> InBounds(m, k) && Height(m, k) == Height(m, p) + 1
    requires q in qs && u in Paths(m, q)
    ensures [p] + u in PathsVia(m, p, qs)
    decreases |qs|
  {
    var last := qs[|qs| - 1];
    if q == last {
      var i :| 0 <= i < |Paths(m, q)| && Paths(m, q)[i] == u;
      assert Prepend(p, Paths(m, q))[i] == [p] + u;
    } else {
      assert q in qs[..|qs| - 1] by {
        var j :| 0 <= j < |qs| && qs[j] == q;
        assert j < |qs| - 1;
      }
      PathsViaHas(m, p, qs[..|qs| - 1], q, u);
    }
  }

  /** Every complete trail from `p` is listed. */
  lemma {:induction false} PathsComplete(m: TopoMap, p: Position, t: seq<Position>)
    requires WellFormed(m) && Complete(m, p, t)
    ensures t in Paths(m, p)
    decreases |t|
  {
    if |t| == 1 {
      assert t == [p];
    } else {
      var q := t[1];
      var u := t[1..];
      assert [p] + u == t;
      TrailTail(m, t);
      assert u[|u| - 1] == t[|t| - 1];
      PathsComplete(m, q, u);
      assert Get(m, q.x, q.y) == Some(Height(m, p) + 1);
      ClimbsAmongExact(m, p, Steps(p));
      assert q in Climbs(m, p);
      PathsViaHas(m, p, Climbs(m, p), q, u);
      assert Height(m, p) != 9 && Paths(m, p) == PathsVia(m, p, Climbs(m, p));
    }
  }

  /** No trail is listed twice. */
  lemma {:induction false} PathsDistinct(m: TopoMap, p: Position)
    requires WellFormed(m)
    ensures Distinct(Paths(m, p))
    decreases if InBounds(m, p) then 9 - Height(m, p) else 0, 1, 0
  {
    if InBounds(m, p) && Height(m, p) != 9 {
      StepsDistinct(p);
      ClimbsAmongExact(m, p, Steps(p));
      PathsViaDistinct(m, p, Climbs(m, p));
    }
  }

  lemma {:induction false} PathsViaDistinct(m: TopoMap, p: Position, qs: seq<Position>)
    requires WellFormed(m) && InBounds(m, p)
    requires forall q :: q in qs ==> InBounds(m, q) && Height(m, q) == Height(m, p) + 1
    requires forall q :: q in qs ==> q in Steps(p)
    requires Distinct(qs)
    ensures Distinct(PathsVia(m, p, qs))
    decreases 9 - Height(m, p), 0, |qs|
  {
    if |qs| > 0 {
      var init, q := qs[..|qs| - 1], qs[|qs| - 1];
      PathsViaDistinct(m, p, init);
      PathsDistinct(m, q);
      PrependDistinct(p, Paths(m, q));
      assert q !in init;
      PathsSound(m, q);
      var a, b := PathsVia(m, p, init), Prepend(p, Paths(m, q));
      PathsViaSecond(m, p, init);
      PrependSecond(p, Paths(m, q), q);
      forall i, j | 0 <= i < |a| && 0 <= j < |b|
        ensures a[i] != b[j]
      {
        assert a[i] in a && b[j] in b;
      }
      DistinctAppend(a, b);
    }
  }

  /** The trails via `qs` have a second cell, taken from `qs`. */
  lemma PathsViaSecond(m: TopoMap, p: Position, qs: seq<Position>)
    requires WellFormed(m) && InBounds(m, p)
    requires forall q :: q in qs ==> InBounds(m, q) && Height(m, q) == Height(m, p) + 1
    requires forall q :: q in qs ==> q in Steps(p)
    ensures forall t :: t in PathsVia(m, p, qs) ==> |t| >= 2 && t[1] in qs
  {
    PathsViaSound(m, p, qs);
  }

  /** Prepending to the trails from `q` gives trails whose second cell is `q`. */
  lemma PrependSecond(p: Position, ts: seq<seq<Position>>, q: Position)
    requires forall t :: t in ts ==> |t| > 0 && t[0] == q
    ensures forall t :: t in Prepend(p, ts) ==> |t| >= 2 && t[1] == q
  {
    forall t | t in Prepend(p, ts)
      ensures |t| >= 2 && t[1] == q
    {
      var i :| 0 <= i < |ts| && Prepend(p, ts)[i] == t;
      assert ts[i] in ts;
    }
  }

  lemma PrependDistinct(p: Position, ts: seq<seq<Position>>)
    requires Distinct(ts)
    ensures Distinct(Prepend(p, ts))
  {
    var b := Prepend(p, ts);
    forall i, j | 0 <= i < j < |b|
      ensures b[i] != b[j]
    {
      assert b[i][1..] == ts[i] && b[j][1..] == ts[j];
    }
  }

  lemma DistinctAppend<T>(a: seq<T>, b: seq<T>)
    requires Distinct(a) && Distinct(b)
    requires forall i, j :: 0 <= i < |a| && 0 <= j < |b| ==> a[i] != b[j]
    ensures Distinct(a + b)
  {
    forall i, j | 0 <= i < j < |a + b|
      ensures (a + b)[i] != (a + b)[j]
    {
      if j < |a| {
      } else if i >= |a| {
        assert (a + b)[i] == b[i - |a|] && (a + b)[j] == b[j - |a|];
      } else {
        assert (a + b)[j] == b[j - |a|];
      }
    }
  }

  /** The last cells of the nonempty trails of `ts`. */
  function Lasts(ts: seq<seq<Position>>): set<Position>
  {
    set t | t in ts && |t| > 0 :: t[|t| - 1]
  }

  /** The distinct peaks reachable from `p`: what the score counts. */
  function Peaks(m: TopoMap, p: Position): set<Position>
    requires WellFormed(m)
  {
    Lasts(Paths(m, p))
  }

  /** A cell is one of `p`'s peaks exactly when some complete trail from
      `p` ends there. */
  lemma PeaksReachable(m: TopoMap, p: Position, q: Position)
    requires WellFormed(m)
    ensures q in Peaks(m, p) <==> exists t :: Complete(m, p, t) && t[|t| - 1] == q
  {
    PathsSound(m, p);
    if exists t :: Complete(m, p, t) && t[|t| - 1] == q {
      var t :| Complete(m, p, t) && t[|t| - 1] == q;
      PathsComplete(m, p, t);
    }
  }

  /** Every trail ends on a peak, and no more peaks than trails: score is
      at most rating. */
  lemma ScoreAtMostRating(m: TopoMap, p: Position)
    requires WellFormed(m)
    ensures |Peaks(m, p)| <= |Paths(m, p)|
    ensures |Peaks(m, p)| > 0 <==> |Paths(m, p)| > 0
  {
    LastsCard(Paths(m, p));
    PathsSound(m, p);
    if |Paths(m, p)| > 0 {
      var t := Paths(m, p)[0];
      assert t in Paths(m, p);
      assert t[|t| - 1] in Peaks(m, p);
    }
  }

  lemma {:induction false} LastsCard(ts: seq<seq<Position>>)
    ensures |Lasts(ts)| <= |ts|
  {
    if |ts| > 0 {
      var init, t := ts[..|ts| - 1], ts[|ts| - 1];
      LastsCard(init);
      assert ts == init + [t];
      LastsAppend(init, [t]);
      if |t| == 0 {
        assert Lasts([t]) == {};
      } else {
        assert Lasts([t]) == {t[|t| - 1]};
      }
    }
  }

  lemma LastsAppend(a: seq<seq<Position>>, b: seq<seq<Position>>)
    ensures Lasts(a + b) == Lasts(a) + Lasts(b)
  {
    assert forall t :: t in a + b <==> t in a || t in b;
  }

  /** Putting a cell in front of each trail keeps their last cells. */
  lemma LastsPrepend(p: Position, ts: seq<seq<Position>>)
    requires forall t :: t in ts ==> |t| > 0
    ensures Lasts(Prepend(p, ts)) == Lasts(ts)
  {
    forall x | x in Lasts(ts)
      ensures x in Lasts(Prepend(p, ts))
    {
      var t :| t in ts && |t| > 0 && t[|t| - 1] == x;
      var i :| 0 <= i < |ts| && ts[i] == t;
      assert Prepend(p, ts)[i] in Prepend(p, ts);
    }
    forall x | x in Lasts(Prepend(p, ts))
      ensures x in Lasts(ts)
    {
      var t :| t in Prepend(p, ts) && |t| > 0 && t[|t| - 1] == x;
      var i :| 0 <= i < |ts| && Prepend(p, ts)[i] == t;
      assert ts[i] in ts;
      assert t[|t| - 1] == ts[i][|ts[i]| - 1];
    }
  }

  /** A search entry: the trailhead a walk started from and the cell it
      has reached. */
  type Entry = (Position, Position)

  /** The members of a list of pairs built position by position from two
      lists are pairs of entries at a common position. */
  lemma PairedMembers(r: seq<Entry>, xs: seq<Position>, ys: seq<Position>)
    requires |r| == |xs| == |ys| && forall i :: 0 <= i < |r| ==> r[i] == (xs[i], ys[i])
    ensures forall e :: e in r <==> exists i :: 0 <= i < |r| && e == (xs[i], ys[i])
  {
  }

  /** One entry `(head, q)` per cell `q` of `qs`, in order. */
  function Tag(head: Position, qs: seq<Position>): (r: seq<Entry>)
    ensures |r| == |qs|
    ensures forall e :: e in r <==> e.0 == head && e.1 in qs
  {
    var r := seq(|qs|, i requires 0 <= i < |qs| => (head, qs[i]));
    PairedMembers(r, seq(|qs|, _ => head), qs);
    r
  }

  lemma TagSnoc(head: Position, qs: seq<Position>, q: Position)
    ensures Tag(head, qs + [q]) == Tag(head, qs) + [(head, q)]
  {
  }

  /** The initial stack: every trailhead paired with itself. */
  function Seed(heads: seq<Position>): (r: seq<Entry>)
    ensures |r| == |heads|
    ensures forall e :: e in r <==> e.0 in heads && e.1 == e.0
  {
    var r := seq(|heads|, i requires 0 <= i < |heads| => (heads[i], heads[i]));
    PairedMembers(r, heads, heads);
    r
  }

  /** The peaks still to be found for trailhead `h` by the entries of `st`. */
  function PendingPeaks(m: TopoMap, st: seq<Entry>, h: Position): set<Position>
    requires WellFormed(m)
  {
    if |st| == 0 then {}
    else
      var e := st[|st| - 1];
      PendingPeaks(m, st[..|st| - 1], h) + if e.0 == h then Peaks(m, e.1) else {}
  }

  /** The trails still to be counted for trailhead `h` by the entries of `st`. */
  function PendingRating(m: TopoMap, st: seq<Entry>, h: Position): nat
    requires WellFormed(m)
  {
    if |st| == 0 then 0
    else
      var e := st[|st| - 1];
      PendingRating(m, st[..|st| - 1], h) + if e.0 == h then |Paths(m, e.1)| else 0
  }

  /** How many entries the search pops for one pushed cell, counting the
      ones pushed after it. */
  function Size(m: TopoMap, p: Position): nat
    requires WellFormed(m)
    decreases if InBounds(m, p) then 9 - Height(m, p) else 0, 1, 0
  {
    if !InBounds(m, p) || Height(m, p) == 9 then 1 else 1 + SizeVia(m, p, Climbs(m, p))
  }

  function SizeVia(m: TopoMap, p: Position, qs: seq<Position>): nat
    requires WellFormed(m) && InBounds(m, p)
    requires forall q :: q in qs ==> InBounds(m, q) && Height(m, q) == Height(m, p) + 1
    decreases 9 - Height(m, p), 0, |qs|
  {
    if |qs| == 0 then 0 else SizeVia(m, p, qs[..|qs| - 1]) + Size(m, qs[|qs| - 1])
  }

  /** How many entries the search still pops for the stack `st`. */
  function Work(m: TopoMap, st: seq<Entry>): nat
    requires WellFormed(m)
  {
    if |st| == 0 then 0 else Work(m, st[..|st| - 1]) + Size(m, st[|st| - 1].1)
  }

  /** Pending peaks, pending trails and remaining work of two stacks one on
      top of the other add up. */
  lemma {:induction false} StackAppend(m: TopoMap, a: seq<Entry>, b: seq<Entry>, h: Position)
    requires WellFormed(m)
    ensures PendingPeaks(m, a + b, h) == PendingPeaks(m, a, h) + PendingPeaks(m, b, h)
    ensures PendingRating(m, a + b, h) == PendingRating(m, a, h) + PendingRating(m, b, h)
    ensures Work(m, a + b) == Work(m, a) + Work(m, b)
    decreases |b|
  {
    if |b| == 0 {
      assert a + b == a;
    } else {
      assert (a + b)[..|a + b| - 1] == a + b[..|b| - 1];
      StackAppend(m, a, b[..|b| - 1], h);
    }
  }

  /** The entries pushed for the higher neighbours `qs` of `p` carry for
      their head exactly the peaks, trails and work of the trails from `p`
      via `qs`, and nothing for any other trailhead. */
  lemma {:induction false} TagPending(m: TopoMap, p: Position, qs: seq<Position>, head: Position, h: Position)
    requires WellFormed(m) && InBounds(m, p)
    requires forall q :: q in qs ==> InBounds(m, q) && Height(m, q) == Height(m, p) + 1
    ensures PendingPeaks(m, Tag(head, qs), h) == if h == head then Lasts(PathsVia(m, p, qs)) else {}
    ensures PendingRating(m, Tag(head, qs), h) == if h == head then |PathsVia(m, p, qs)| else 0
    ensures Work(m, Tag(head, qs)) == SizeVia(m, p, qs)
    decreases |qs|
  {
    if |qs| > 0 {
      var init, q := qs[..|qs| - 1], qs[|qs| - 1];
      assert Tag(head, qs)[..|qs| - 1] == Tag(head, init);
      TagPending(m, p, init, head, h);
      PathsSound(m, q);
      LastsAppend(PathsVia(m, p, init), Prepend(p, Paths(m, q)));
      LastsPrepend(p, Paths(m, q));
    }
  }

  /** Popping the entry `(head, pos)` of a cell below 9 and pushing its
      higher neighbours leaves the pending peaks and trails unchanged. */
  lemma Expand(m: TopoMap, rest: seq<Entry>, head: Position, pos: Position, h: Position)
    requires WellFormed(m) && InBounds(m, pos) && Height(m, pos) < 9
    ensures PendingPeaks(m, rest + Tag(head, Climbs(m, pos)), h)
      == PendingPeaks(m, rest + [(head, pos)], h)
    ensures PendingRating(m, rest + Tag(head, Climbs(m, pos)), h)
      == PendingRating(m, rest + [(head, pos)], h)
  {
    StackAppend(m, rest, Tag(head, Climbs(m, pos)), h);
    TagPending(m, pos, Climbs(m, pos), head, h);
    assert (rest + [(head, pos)])[..|rest|] == rest;
  }

  /** Popping the entry `(head, pos)` of a cell off the map or on a peak:
      it leads to no peak, respectively to the cell itself. */
  lemma PopPeaks(m: TopoMap, rest: seq<Entry>, head: Position, pos: Position, h: Position)
    requires WellFormed(m)
    requires !InBounds(m, pos) || Height(m, pos) == 9
    ensures var found := if h == head && InBounds(m, pos) then {pos} else {};
      PendingPeaks(m, rest + [(head, pos)], h) == PendingPeaks(m, rest, h) + found
  {
    assert (rest + [(head, pos)])[..|rest|] == rest;
    if InBounds(m, pos) {
      assert Lasts([[pos]]) == {pos};
    } else {
      assert Lasts([]) == {};
    }
  }

  /** The same entry carries no trail, respectively the one-cell trail. */
  lemma PopRating(m: TopoMap, rest: seq<Entry>, head: Position, pos: Position, h: Position)
    requires WellFormed(m)
    requires !InBounds(m, pos) || Height(m, pos) == 9
    ensures var found := if h == head && InBounds(m, pos) then 1 else 0;
      PendingRating(m, rest + [(head, pos)], h) == PendingRating(m, rest, h) + found
  {
    assert (rest + [(head, pos)])[..|rest|] == rest;
  }

  /** At the start every trailhead still has all its peaks and trails
      pending, and no other cell has any. */
  lemma {:induction false} SeedPending(m: TopoMap, heads: seq<Position>, h: Position)
    requires WellFormed(m) && Distinct(heads)
    ensures PendingPeaks(m, Seed(heads), h) == if h in heads then Peaks(m, h) else {}
    ensures PendingRating(m, Seed(heads), h) == if h in heads then |Paths(m, h)| else 0
    decreases |heads|
  {
    if |heads| > 0 {
      var init := heads[..|heads| - 1];
      assert Seed(heads)[..|heads| - 1] == Seed(init);
      assert forall k :: k in heads <==> k in init || k == heads[|heads| - 1];
      SeedPending(m, init, h);
    }
  }

  /** Popping an entry without pushing lowers the remaining work. */
  lemma WorkPop(m: TopoMap, rest: seq<Entry>, e: Entry)
    requires WellFormed(m)
    ensures Work(m, rest) < Work(m, rest + [e])
  {
    assert (rest + [e])[..|rest|] == rest;
  }

  /** Popping the entry of a cell below 9 and pushing its higher
      neighbours lowers the remaining work. */
  lemma WorkExpand(m: TopoMap, rest: seq<Entry>, e: Entry)
    requires WellFormed(m) && InBounds(m, e.1) && Height(m, e.1) < 9
    ensures Work(m, rest + Tag(e.0, Climbs(m, e.1))) < Work(m, rest + [e])
  {
    StackAppend(m, rest, Tag(e.0, Climbs(m, e.1)), e.0);
    TagPending(m, e.1, Climbs(m, e.1), e.0, e.0);
    assert (rest + [e])[..|rest|] == rest;
  }

  lemma SplitLast<T>(s: seq<T>)
    requires |s| > 0
    ensures s == s[..|s| - 1] + [s[|s| - 1]]
  {
  }

  /** The neighbour loop of both searches: pushes `(head, q)` for each
      neighbour `q` of `pos` exactly one higher, trying up, down, left and
      right in that order. */
  method PushClimbs(m: TopoMap, head: Position, pos: Position, trails: seq<Entry>) returns (r: seq<Entry>)
    requires WellFormed(m) && InBounds(m, pos)
    ensures r == trails + Tag(head, Climbs(m, pos))
  {
    var height := Get(m, pos.x, pos.y).value;
    var steps := Steps(pos);
    ghost var climbs: seq<Position> := [];
    r := trails;
    for k := 0 to 4
      invariant climbs == ClimbsAmong(m, pos, steps[..k])
      invariant r == trails + Tag(head, climbs)
    {
      var q := steps[k];
      PushStep(m, pos, steps, k);
      if Get(m, q.x, q.y) == Some(height + 1) {
        TagSnoc(head, climbs, q);
        assert trails + (Tag(head, climbs) + [(head, q)]) == r + [(head, q)];
        r := r + [(head, q)];
        climbs := climbs + [q];
      }
    }
    assert steps[..4] == steps;
  }

  /** One round of the neighbour loop filters one more step. */
  lemma PushStep(m: TopoMap, pos: Position, steps: seq<Position>, k: nat)
    requires WellFormed(m) && InBounds(m, pos) && k < |steps|
    ensures ClimbsAmong(m, pos, steps[..k + 1]) ==
      if Get(m, steps[k].x, steps[k].y) == Some(Height(m, pos) + 1)
      then ClimbsAmong(m, pos, steps[..k]) + [steps[k]]
      else ClimbsAmong(m, pos, steps[..k])
  {
    assert steps[..k + 1] == steps[..k] + [steps[k]];
    ClimbsAmongSnoc(m, pos, steps[..k], steps[k]);
  }

  function Found(visited: map<Position, set<Position>>, h: Position): set<Position>
  {
    if h in visited then visited[h] else {}
  }

  function Counted(ratings: map<Position, nat>, h: Position): nat
  {
    if h in ratings then ratings[h] else 0
  }

  /** The scores of the trailheads of `heads` that reach a peak, in order. */
  function Scores(m: TopoMap, heads: seq<Position>): seq<nat>
    requires WellFormed(m)
  {
    if |heads| == 0 then []
    else
      var h := heads[|heads| - 1];
      Scores(m, heads[..|heads| - 1]) + if Peaks(m, h) != {} then [|Peaks(m, h)|] else []
  }

  /** The ratings of the trailheads of `heads` that reach a peak, in order. */
  function Ratings(m: TopoMap, heads: seq<Position>): seq<nat>
    requires WellFormed(m)
  {
    if |heads| == 0 then []
    else
      var h := heads[|heads| - 1];
      Ratings(m, heads[..|heads| - 1]) + if Paths(m, h) != [] then [|Paths(m, h)|] else []
  }

  /** What the score search keeps: every trailhead's peaks are those
      recorded for it plus those its stacked entries still lead to; only
      trailheads are recorded, and only with a peak. */
  ghost predicate ScoreInv(m: TopoMap, heads: seq<Position>, visited: map<Position, set<Position>>, trails: seq<Entry>)
    requires WellFormed(m)
  {
    && (forall h :: h in visited ==> h in heads && visited[h] != {})
    && (forall h :: h in heads ==> Peaks(m, h) == Found(visited, h) + PendingPeaks(m, trails, h))
    && (forall h :: h !in heads ==> PendingPeaks(m, trails, h) == {})
  }

  /** The rating search's counterpart of `ScoreInv`, counting trails. */
  ghost predicate RatingInv(m: TopoMap, heads: seq<Position>, ratings: map<Position, nat>, trails: seq<Entry>)
    requires WellFormed(m)
  {
    && (forall h :: h in ratings ==> h in heads && ratings[h] > 0)
    && (forall h :: h in heads ==> |Paths(m, h)| == Counted(ratings, h) + PendingRating(m, trails, h))
    && (forall h :: h !in heads ==> PendingRating(m, trails, h) == 0)
  }

  lemma SeedInv(m: TopoMap, heads: seq<Position>)
    requires WellFormed(m) && Distinct(heads)
    ensures ScoreInv(m, heads, map[], Seed(heads))
    ensures RatingInv(m, heads, map[], Seed(heads))
  {
    forall h {
      SeedPending(m, heads, h);
    }
  }

  /** Popping an entry off the map changes nothing else. */
  lemma ScoreOff(m: TopoMap, heads: seq<Position>, visited: map<Position, set<Position>>, rest: seq<Entry>, e: Entry)
    requires WellFormed(m) && !InBounds(m, e.1)
    requires ScoreInv(m, heads, visited, rest + [e])
    ensures ScoreInv(m, heads, visited, rest)
  {
    forall h {
      PopPeaks(m, rest, e.0, e.1, h);
    }
  }

  /** Moving one peak of `head` from the pending part to the map keeps
      every trailhead's total; the totals and the pending parts are left
      abstract. */
  lemma RecordFound(heads: seq<Position>, visited: map<Position, set<Position>>, total: Position -> set<Position>,
                    before: Position -> set<Position>, after: Position -> set<Position>, head: Position, peak: Position)
    requires forall h :: h in heads ==> total(h) == Found(visited, h) + before(h)
    requires forall h :: before(h) == after(h) + if h == head then {peak} else {}
    ensures forall h :: h in heads ==> total(h) == Found(visited[head := Found(visited, head) + {peak}], h) + after(h)
  {
    var visited' := visited[head := Found(visited, head) + {peak}];
    forall h | h in heads
      ensures total(h) == Found(visited', h) + after(h)
    {
      if h == head {
        assert Found(visited', h) == Found(visited, h) + {peak};
      } else {
        assert Found(visited', h) == Found(visited, h);
      }
    }
  }

  /** Popping a peak takes it out of its own trailhead's pending peaks
      and out of no other's. */
  lemma PopPeak(m: TopoMap, rest: seq<Entry>, e: Entry)
    requires WellFormed(m) && InBounds(m, e.1) && Height(m, e.1) == 9
    ensures forall h :: PendingPeaks(m, rest + [e], h) == PendingPeaks(m, rest, h) + if h == e.0 then {e.1} else {}
  {
    forall h
      ensures PendingPeaks(m, rest + [e], h) == PendingPeaks(m, rest, h) + if h == e.0 then {e.1} else {}
    {
      PopPeaks(m, rest, e.0, e.1, h);
    }
  }

  /** Popping a peak records it for the entry's trailhead. */
  lemma ScorePeak(m: TopoMap, heads: seq<Position>, visited: map<Position, set<Position>>, rest: seq<Entry>, e: Entry)
    requires WellFormed(m) && InBounds(m, e.1) && Height(m, e.1) == 9
    requires ScoreInv(m, heads, visited, rest + [e])
    ensures ScoreInv(m, heads, visited[e.0 := Found(visited, e.0) + {e.1}], rest)
  {
    PopPeak(m, rest, e);
    RecordFound(heads, visited, h => Peaks(m, h), h => PendingPeaks(m, rest + [e], h), h => PendingPeaks(m, rest, h), e.0, e.1);
  }

  /** Replacing a lower entry by its higher neighbours keeps the invariant. */
  lemma ScoreExpand(m: TopoMap, heads: seq<Position>, visited: map<Position, set<Position>>, rest: seq<Entry>, e: Entry)
    requires WellFormed(m) && InBounds(m, e.1) && Height(m, e.1) < 9
    requires ScoreInv(m, heads, visited, rest + [e])
    ensures ScoreInv(m, heads, visited, rest + Tag(e.0, Climbs(m, e.1)))
  {
    forall h {
      Expand(m, rest, e.0, e.1, h);
    }
  }

  lemma RatingOff(m: TopoMap, heads: seq<Position>, ratings: map<Position, nat>, rest: seq<Entry>, e: Entry)
    requires WellFormed(m) && !InBounds(m, e.1)
    requires RatingInv(m, heads, ratings, rest + [e])
    ensures RatingInv(m, heads, ratings, rest)
  {
    forall h {
      PopRating(m, rest, e.0, e.1, h);
    }
  }

  /** Popping a peak counts one more trail for the entry's trailhead. */
  lemma RatingPeak(m: TopoMap, heads: seq<Position>, ratings: map<Position, nat>, rest: seq<Entry>, e: Entry)
    requires WellFormed(m) && InBounds(m, e.1) && Height(m, e.1) == 9
    requires RatingInv(m, heads, ratings, rest + [e])
    ensures RatingInv(m, heads, ratings[e.0 := Counted(ratings, e.0) + 1], rest)
  {
    var ratings' := ratings[e.0 := Counted(ratings, e.0) + 1];
    PopRating(m, rest, e.0, e.1, e.0);
    assert e.0 in heads;
    forall h | h in heads
      ensures |Paths(m, h)| == Counted(ratings', h) + PendingRating(m, rest, h)
    {
      PopRating(m, rest, e.0, e.1, h);
      assert Counted(ratings', h) + PendingRating(m, rest, h) == Counted(ratings, h) + PendingRating(m, rest + [e], h);
    }
    forall h | h !in heads
      ensures PendingRating(m, rest, h) == 0
    {
      PopRating(m, rest, e.0, e.1, h);
    }
  }

  lemma RatingExpand(m: TopoMap, heads: seq<Position>, ratings: map<Position, nat>, rest: seq<Entry>, e: Entry)
    requires WellFormed(m) && InBounds(m, e.1) && Height(m, e.1) < 9
    requires RatingInv(m, heads, ratings, rest + [e])
    ensures RatingInv(m, heads, ratings, rest + Tag(e.0, Climbs(m, e.1)))
  {
    forall h {
      Expand(m, rest, e.0, e.1, h);
    }
  }

  /** With the stack empty, the records are complete. */
  lemma ScoreDone(m: TopoMap, heads: seq<Position>, visited: map<Position, set<Position>>)
    requires WellFormed(m) && ScoreInv(m, heads, visited, [])
    ensures forall h :: h in visited <==> h in heads && Peaks(m, h) != {}
    ensures forall h :: h in visited ==> visited[h] == Peaks(m, h)
  {
  }

  lemma RatingDone(m: TopoMap, heads: seq<Position>, ratings: map<Position, nat>)
    requires WellFormed(m) && RatingInv(m, heads, ratings, [])
    ensures forall h :: h in ratings <==> h in heads && Paths(m, h) != []
    ensures forall h :: h in ratings ==> ratings[h] == |Paths(m, h)|
  {
  }

  /** `hiking_trails_scores`: the depth-first search from all trailheads
      records for each trailhead the peaks it reaches; the trailheads that
      reach one are exactly the keys, each with its set of peaks. */
  method HikingTrailsScores(m: TopoMap) returns (visited: map<Position, set<Position>>)
    requires WellFormed(m)
    ensures forall h :: h in visited <==> h in Trailheads(m) && Peaks(m, h) != {}
    ensures forall h :: h in visited ==> visited[h] == Peaks(m, h)
  {
    var heads := Trailheads(m);
    TrailheadsExact(m);
    SeedInv(m, heads);
    var trails := Seed(heads);
    visited := map[];
    while |trails| > 0
      invariant ScoreInv(m, heads, visited, trails)
      decreases Work(m, trails)
    {
      var rest, e := trails[..|trails| - 1], trails[|trails| - 1];
      SplitLast(trails);
      var head, pos := e.0, e.1;
      var got := Get(m, pos.x, pos.y);
      if got.None? {
        ScoreOff(m, heads, visited, rest, e);
        WorkPop(m, rest, e);
        trails := rest;
      } else if got.value == 9 {
        ScorePeak(m, heads, visited, rest, e);
        WorkPop(m, rest, e);
        visited := visited[head := Found(visited, head) + {pos}];
        trails := rest;
      } else {
        ScoreExpand(m, heads, visited, rest, e);
        WorkExpand(m, rest, e);
        trails := PushClimbs(m, head, pos, rest);
      }
    }
    ScoreDone(m, heads, visited);
  }

  /** `hiking_trails_ratings`: the same search counting, for each
      trailhead, the trails that reach a peak; the trailheads with a trail
      are exactly the keys, each with its number of distinct complete
      trails. */
  method HikingTrailsRatings(m: TopoMap) returns (ratings: map<Position, nat>)
    requires WellFormed(m)
    ensures forall h :: h in ratings <==> h in Trailheads(m) && Paths(m, h) != []
    ensures forall h :: h in ratings ==> ratings[h] == |Paths(m, h)|
  {
    var heads := Trailheads(m);
    TrailheadsExact(m);
    SeedInv(m, heads);
    var trails := Seed(heads);
    ratings := map[];
    while |trails| > 0
      invariant RatingInv(m, heads, ratings, trails)
      decreases Work(m, trails)
    {
      var rest, e := trails[..|trails| - 1], trails[|trails| - 1];
      SplitLast(trails);
      var head, pos := e.0, e.1;
      var got := Get(m, pos.x, pos.y);
      if got.None? {
        RatingOff(m, heads, ratings, rest, e);
        WorkPop(m, rest, e);
        trails := rest;
      } else if got.value == 9 {
        RatingPeak(m, heads, ratings, rest, e);
        WorkPop(m, rest, e);
        ratings := ratings[head := Counted(ratings, head) + 1];
        trails := rest;
      } else {
        RatingExpand(m, heads, ratings, rest, e);
        WorkExpand(m, rest, e);
        trails := PushClimbs(m, head, pos, rest);
      }
    }
    RatingDone(m, heads, ratings);
  }

  /** The map's values as the puzzle sums them, listed in trailhead order
      (each trailhead is one key at most). */
  method ScoreValues(m: TopoMap, heads: seq<Position>, visited: map<Position, set<Position>>) returns (scores: seq<nat>)
    requires WellFormed(m)
    requires forall h :: h in heads ==> (h in visited <==> Peaks(m, h) != {})
    requires forall h :: h in visited ==> visited[h] == Peaks(m, h)
    ensures scores == Scores(m, heads)
  {
    scores := [];
    for k := 0 to |heads|
      invariant scores == Scores(m, heads[..k])
    {
      assert heads[..k + 1][..k] == heads[..k];
      if heads[k] in visited {
        var v: nat := |visited[heads[k]]|;
        scores := scores + [v];
      }
    }
    assert heads[..|heads|] == heads;
  }

  method RatingValues(m: TopoMap, heads: seq<Position>, ratings: map<Position, nat>) returns (values: seq<nat>)
    requires WellFormed(m)
    requires forall h :: h in heads ==> (h in ratings <==> Paths(m, h) != [])
    requires forall h :: h in ratings ==> ratings[h] == |Paths(m, h)|
    ensures values == Ratings(m, heads)
  {
    values := [];
    for k := 0 to |heads|
      invariant values == Ratings(m, heads[..k])
    {
      assert heads[..k + 1][..k] == heads[..k];
      if heads[k] in ratings {
        values := values + [ratings[heads[k]]];
      }
    }
    assert heads[..|heads|] == heads;
  }

  /** A trailhead's score never exceeds its rating, so neither do the
      totals. */
  lemma {:induction false} ScoresAtMostRatings(m: TopoMap, heads: seq<Position>)
    requires WellFormed(m)
    ensures Sum(Scores(m, heads)) <= Sum(Ratings(m, heads))
    ensures |Scores(m, heads)| == |Ratings(m, heads)|
    decreases |heads|
  {
    if |heads| > 0 {
      var init, h := heads[..|heads| - 1], heads[|heads| - 1];
      ScoresAtMostRatings(m, init);
      ScoreAtMostRating(m, h);
      SumAppend(Scores(m, init), if Peaks(m, h) != {} then [|Peaks(m, h)|] else []);
      SumAppend(Ratings(m, init), if Paths(m, h) != [] then [|Paths(m, h)|] else []);
    }
  }

  /** `solve_part_1`: the sum of the trailhead scores; `None` where parsing
      aborts. */
  method SolvePart1(lines: seq<string>) returns (r: Option<nat>)
    ensures r.None? <==> Parse(lines).None?
    ensures r.Some? ==> r.value == Sum(Scores(Parse(lines).value, Trailheads(Parse(lines).value)))
  {
    match Parse(lines)
    case None => r := None;
    case Some(m) =>
      var visited := HikingTrailsScores(m);
      var scores := ScoreValues(m, Trailheads(m), visited);
      SumNonNegative(scores);
      r := Some(Sum(scores));
  }

  /** `solve_part_2`: the sum of the trailhead ratings; `None` where
      parsing aborts. */
  method SolvePart2(lines: seq<string>) returns (r: Option<nat>)
    ensures r.None? <==> Parse(lines).None?
    ensures r.Some? ==> r.value == Sum(Ratings(Parse(lines).value, Trailheads(Parse(lines).value)))
  {
    match Parse(lines)
    case None => r := None;
    case Some(m) =>
      var ratings := HikingTrailsRatings(m);
      var values := RatingValues(m, Trailheads(m), ratings);
      SumNonNegative(values);
      r := Some(Sum(values));
  }
}
