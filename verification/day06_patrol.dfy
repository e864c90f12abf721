/** Day 6 patrol: running the guard until it leaves the map (part 1), the
    loop check that records (position, heading) states (part 2), and the
    search for single obstructions that trap the guard in a loop. */
module Day06Patrol {
  import opened Common
  import opened Day06Map

  /** What the loop check records at each tick. */
  datatype GuardState = GuardState(pos: Position, facing: Direction)

  /** The guard's state, `None` once it has left the map. */
  function State(m: Map): (r: Option<GuardState>)
    requires WellFormed(m)
    ensures r.Some? <==> GuardPosition(m).Some?
    ensures r.Some? ==> InBounds(m, r.value.pos) && Get(m, r.value.pos) == Some(Guard(r.value.facing))
  {
    match GuardPosition(m)
    case None => None
    case Some(p) => Some(GuardState(p, Get(m, p).value.facing))
  }

  /** The map after `k` ticks. */
  function Iterate(m: Map, k: nat): (r: Map)
    requires WellFormed(m)
    ensures WellFormed(r) && r.width == m.width && r.height == m.height
    decreases k
  {
    if k == 0 then m else Iterate(Tick(m), k - 1)
  }

  /** One more tick after `t` ticks. */
  lemma {:induction false} IterateStep(m: Map, t: nat)
    requires WellFormed(m)
    ensures Iterate(m, t + 1) == Tick(Iterate(m, t))
    decreases t
  {
    if t > 0 {
      IterateStep(Tick(m), t - 1);
    }
  }

  /** The guard's state after `k` ticks. */
  function StateAt(m: Map, k: nat): Option<GuardState>
    requires WellFormed(m)
    decreases k
  {
    if k == 0 then State(m) else StateAt(Tick(m), k - 1)
  }

  /** The state after `k` ticks is the state of the map after `k` ticks. */
  lemma {:induction false} StateAtIterate(m: Map, k: nat)
    requires WellFormed(m)
    ensures StateAt(m, k) == State(Iterate(m, k))
    decreases k
  {
    if k > 0 {
      StateAtIterate(Tick(m), k - 1);
    }
  }

  /** The guard is on the map for ticks `0` to `j`. */
  ghost predicate PresentThrough(m: Map, j: nat)
    requires WellFormed(m)
  {
    forall k :: 0 <= k <= j ==> StateAt(m, k).Some?
  }

  /** The guard is on the map for the first `n` ticks and gone after `n`. */
  ghost predicate LeavesAt(m: Map, n: nat)
    requires WellFormed(m)
  {
    (forall k :: 0 <= k < n ==> StateAt(m, k).Some?) && StateAt(m, n).None?
  }

  /** The states recorded in the first `t` ticks. */
  ghost function Seen(m: Map, t: nat): set<GuardState>
    requires WellFormed(m)
  {
    if t == 0 then {}
    else Seen(m, t - 1) + if StateAt(m, t - 1).Some? then {StateAt(m, t - 1).value} else {}
  }

  /** The positions held in the first `t` ticks. */
  ghost function Occupied(m: Map, t: nat): set<Position>
    requires WellFormed(m)
  {
    if t == 0 then {}
    else Occupied(m, t - 1) + if StateAt(m, t - 1).Some? then {StateAt(m, t - 1).value.pos} else {}
  }

  /** At each of the first `t` ticks the guard was on the map, in a state
      it had not been in before. */
  ghost predicate Fresh(m: Map, t: nat)
    requires WellFormed(m)
  {
    t == 0 || (Fresh(m, t - 1) && StateAt(m, t - 1).Some? && StateAt(m, t - 1).value !in Seen(m, t - 1))
  }

  /** Recording one more state, not seen before. */
  lemma Record(m: Map, t: nat)
    requires WellFormed(m) && Fresh(m, t) && StateAt(m, t).Some? && StateAt(m, t).value !in Seen(m, t)
    ensures Fresh(m, t + 1) && Seen(m, t + 1) == Seen(m, t) + {StateAt(m, t).value}
  {
  }

  /** Everything recorded was the guard's state at some earlier tick. */
  lemma {:induction false} SeenMeans(m: Map, t: nat, v: GuardState)
    requires WellFormed(m) && v in Seen(m, t)
    ensures exists k :: 0 <= k < t && StateAt(m, k) == Some(v)
  {
    if StateAt(m, t - 1) != Some(v) {
      SeenMeans(m, t - 1, v);
    }
  }

  /** Every state the guard was in is recorded. */
  lemma {:induction false} SeenHas(m: Map, t: nat, k: nat)
    requires WellFormed(m) && k < t && StateAt(m, k).Some?
    ensures StateAt(m, k).value in Seen(m, t)
  {
    if k < t - 1 {
      SeenHas(m, t - 1, k);
    }
  }

  /** `Fresh` means present throughout and never in the same state twice. */
  lemma {:induction false} FreshMeans(m: Map, t: nat)
    requires WellFormed(m) && Fresh(m, t)
    ensures forall k :: 0 <= k < t ==> StateAt(m, k).Some?
    ensures forall i, j :: 0 <= i < j < t ==> StateAt(m, i) != StateAt(m, j)
  {
    if t > 0 {
      FreshMeans(m, t - 1);
      forall i | 0 <= i < t - 1
        ensures StateAt(m, i) != StateAt(m, t - 1)
      {
        SeenHas(m, t - 1, i);
      }
    }
  }

  /** Every state the guard can be in on a `width` by `height` map. */
  ghost function AllStates(m: Map): set<GuardState>
  {
    set x: int, y: int, d: Direction | 0 <= x < m.width && 0 <= y < m.height && d in {Up, Down, Left, Right}
      :: GuardState(Position(x, y), d)
  }

  /** The guard's states stay on the map. */
  lemma StateInside(m: Map, k: nat)
    requires WellFormed(m) && StateAt(m, k).Some?
    ensures StateAt(m, k).value in AllStates(m)
  {
    StateAtIterate(m, k);
    var s := StateAt(m, k).value;
    assert s.facing in {Up, Down, Left, Right} by {
      match s.facing
      case Up =>
      case Down =>
      case Left =>
      case Right =>
    }
    assert s == GuardState(Position(s.pos.x, s.pos.y), s.facing);
  }

  /** Reference for the loop check: while still on the map, the guard comes
      back to a state it was in at an earlier tick. */
  ghost predicate Revisits(m: Map)
    requires WellFormed(m)
  {
    exists i: nat, j: nat :: i < j && PresentThrough(m, j) && StateAt(m, i) == StateAt(m, j)
  }

  /** Meeting a recorded state is a revisit. */
  lemma Repeats(m: Map, t: nat)
    requires WellFormed(m) && Fresh(m, t) && StateAt(m, t).Some? && StateAt(m, t).value in Seen(m, t)
    ensures Revisits(m)
  {
    FreshMeans(m, t);
    SeenMeans(m, t, StateAt(m, t).value);
    var i :| 0 <= i < t && StateAt(m, i) == StateAt(m, t);
    assert PresentThrough(m, t);
  }

  /** Leaving after `t` fresh ticks means no state ever came back. */
  lemma Exits(m: Map, t: nat)
    requires WellFormed(m) && Fresh(m, t) && StateAt(m, t).None?
    ensures !Revisits(m)
  {
    FreshMeans(m, t);
    forall i: nat, j: nat | i < j && PresentThrough(m, j)
      ensures StateAt(m, i) != StateAt(m, j)
    {
      assert j < t by {
        assert StateAt(m, t).None?;
      }
    }
  }

  lemma StatesShrink(all: set<GuardState>, visited: set<GuardState>, s: GuardState)
    requires s in all && s !in visited
    ensures |all - (visited + {s})| < |all - visited|
  {
    assert all - visited == (all - (visited + {s})) + {s};
  }

  /** `check_guard_stuck_in_loop`: run the guard, recording its states,
      until it leaves (not stuck) or meets a recorded state (stuck). The
      loop always ends: each round records a new state out of the finitely
      many a guard can have on the map. */
  method CheckGuardStuck(m0: Map) returns (stuck: bool)
    requires WellFormed(m0)
    ensures stuck <==> Revisits(m0)
  {
    var m := m0;
    var visited: set<GuardState> := {};
    ghost var t: nat := 0;
    while GuardPosition(m).Some?
      invariant WellFormed(m) && m == Iterate(m0, t)
      invariant visited == Seen(m0, t) && Fresh(m0, t)
      invariant visited <= AllStates(m0)
      decreases |AllStates(m0) - visited|
    {
      var s := State(m).value;
      if s in visited {
        StateAtIterate(m0, t);
        Repeats(m0, t);
        return true;
      }
      m, visited, t := RecordAndTick(m0, m, visited, t);
    }
    StateAtIterate(m0, t);
    Exits(m0, t);
    return false;
  }

  /** One round of the loop check on a state not seen before: record it
      and tick. */
  method RecordAndTick(ghost m0: Map, m: Map, visited: set<GuardState>, ghost t: nat) returns (m': Map, visited': set<GuardState>, ghost t': nat)
    requires WellFormed(m0) && WellFormed(m) && m == Iterate(m0, t)
    requires visited == Seen(m0, t) && Fresh(m0, t) && visited <= AllStates(m0)
    requires GuardPosition(m).Some? && State(m).value !in visited
    ensures WellFormed(m') && m' == Iterate(m0, t')
    ensures visited' == Seen(m0, t') && Fresh(m0, t') && visited' <= AllStates(m0)
    ensures |AllStates(m0) - visited'| < |AllStates(m0) - visited|
  {
    t' := t + 1;
    var s := State(m).value;
    StateAtIterate(m0, t);
    Record(m0, t);
    StateInside(m0, t);
    StatesShrink(AllStates(m0), visited, s);
    IterateStep(m0, t);
    m' := Tick(m);
    visited' := visited + {s};
  }

  /** `get_all_visited_positions`: record the guard's position and tick
      until the guard is gone. The loop need not end, so it is given `fuel`
      ticks and gives `None` when they run out with the guard still on the
      map. */
  method VisitedPositions(m0: Map, fuel: nat) returns (r: Option<set<Position>>)
    requires WellFormed(m0)
    ensures r.None? ==> PresentThrough(m0, fuel)
    ensures r.Some? ==> exists n: nat :: n <= fuel && LeavesAt(m0, n) && r.value == Occupied(m0, n)
  {
    var m := m0;
    var visited: set<Position> := {};
    var t: nat := 0;
    while GuardPosition(m).Some?
      invariant t <= fuel
      invariant WellFormed(m) && m == Iterate(m0, t)
      invariant visited == Occupied(m0, t) && PresentBefore(m0, t)
      decreases fuel - t
    {
      if t == fuel {
        StillPresent(m0, t);
        return None;
      }
      m, visited, t := VisitAndTick(m0, m, visited, t);
    }
    StateAtIterate(m0, t);
    assert LeavesAt(m0, t);
    return Some(visited);
  }

  /** The guard is on the map for the first `t` ticks. */
  ghost predicate PresentBefore(m: Map, t: nat)
    requires WellFormed(m)
  {
    forall k :: 0 <= k < t ==> StateAt(m, k).Some?
  }

  /** Present before tick `t` and at it. */
  lemma StillPresent(m0: Map, t: nat)
    requires WellFormed(m0) && PresentBefore(m0, t) && GuardPosition(Iterate(m0, t)).Some?
    ensures PresentThrough(m0, t)
  {
    StateAtIterate(m0, t);
  }

  /** One round of the part 1 loop: record the guard's position and tick. */
  method VisitAndTick(ghost m0: Map, m: Map, visited: set<Position>, t: nat) returns (m': Map, visited': set<Position>, t': nat)
    requires WellFormed(m0) && WellFormed(m) && m == Iterate(m0, t)
    requires visited == Occupied(m0, t) && PresentBefore(m0, t)
    requires GuardPosition(m).Some?
    ensures t' == t + 1
    ensures WellFormed(m') && m' == Iterate(m0, t')
    ensures visited' == Occupied(m0, t') && PresentBefore(m0, t')
  {
    t' := t + 1;
    StateAtIterate(m0, t);
    IterateStep(m0, t);
    assert StateAt(m0, t).Some? && StateAt(m0, t).value.pos == GuardPosition(m).value;
    m' := Tick(m);
    visited' := visited + {GuardPosition(m).value};
  }

  /** The positions of the first `n` ticks include the start. */
  lemma {:induction false} OccupiedHasStart(m: Map, n: nat)
    requires WellFormed(m) && 0 < n && GuardPosition(m).Some?
    ensures GuardPosition(m).value in Occupied(m, n)
  {
    if n > 1 {
      OccupiedHasStart(m, n - 1);
    }
  }

  /** Every position the guard occupies lies inside the map, so reading its
      tile in part 2 never aborts. */
  lemma {:induction false} OccupiedInside(m: Map, n: nat)
    requires WellFormed(m)
    ensures forall p :: p in Occupied(m, n) ==> InBounds(m, p)
  {
    if n > 0 {
      OccupiedInside(m, n - 1);
      StateAtIterate(m, n - 1);
    }
  }

  /** Part 1: the number of distinct positions the guard visits; `None`
      where parsing aborts or the guard is still on the map after `fuel`
      ticks. */
  method SolvePart1(lines: seq<string>, fuel: nat) returns (r: Option<nat>)
    ensures Parse(lines).None? ==> r.None?
    ensures Parse(lines).Some? && r.Some? ==>
      var m := Parse(lines).value;
      exists n: nat :: n <= fuel && LeavesAt(m, n) && r.value == |Occupied(m, n)|
    ensures Parse(lines).Some? && r.None? ==> PresentThrough(Parse(lines).value, fuel)
  {
    var parsed := Parse(lines);
    if parsed.None? {
      return None;
    }
    var visited := VisitedPositions(parsed.value, fuel);
    if visited.None? {
      return None;
    }
    return Some(|visited.value|);
  }

  /** Whether an obstruction at `p` traps the guard: `p` holds an empty
      tile, and on the map with the obstruction placed the guard revisits a
      state. */
  ghost predicate Traps(m: Map, p: Position)
    requires WellFormed(m)
  {
    Get(m, p) == Some(Empty) && Revisits(Set(m, p, Obstruction))
  }

  /** The trapping positions among `candidates`. */
  ghost function Blocking(m: Map, candidates: set<Position>): set<Position>
    requires WellFormed(m)
  {
    set p | p in candidates && Traps(m, p)
  }

  lemma BlockingAdd(m: Map, seen: set<Position>, p: Position)
    requires WellFormed(m) && p !in seen
    ensures |Blocking(m, seen + {p})| == |Blocking(m, seen)| + if Traps(m, p) then 1 else 0
  {
    if Traps(m, p) {
      assert Blocking(m, seen + {p}) == Blocking(m, seen) + {p};
    } else {
      assert Blocking(m, seen + {p}) == Blocking(m, seen);
    }
  }

  /** The counting loop of part 2: each candidate is tried, in any order,
      on its own copy of the original map; candidates that do not hold an
      empty tile (the guard's start) are skipped. */
  method CountBlocking(m: Map, candidates: set<Position>) returns (count: nat)
    requires WellFormed(m)
    ensures count == |Blocking(m, candidates)|
  {
    var rest := candidates;
    count := 0;
    ghost var seen: set<Position> := {};
    while rest != {}
      invariant seen + rest == candidates && seen !! rest
      invariant count == |Blocking(m, seen)|
      decreases |rest|
    {
      var p :| p in rest;
      BlockingAdd(m, seen, p);
      if Get(m, p) == Some(Empty) {
        var stuck := CheckGuardStuck(Set(m, p, Obstruction));
        if stuck {
          count := count + 1;
        }
      }
      rest := rest - {p};
      seen := seen + {p};
    }
    assert seen == candidates;
  }

  /** Part 2: how many of the positions the unobstructed guard visits trap
      it when obstructed; `None` where parsing aborts or the unobstructed
      guard is still on the map after `fuel` ticks. */
  method SolvePart2(lines: seq<string>, fuel: nat) returns (r: Option<nat>)
    ensures Parse(lines).None? ==> r.None?
    ensures Parse(lines).Some? && r.Some? ==>
      var m := Parse(lines).value;
      exists n: nat :: n <= fuel && LeavesAt(m, n) && r.value == |Blocking(m, Occupied(m, n))|
    ensures Parse(lines).Some? && r.None? ==> PresentThrough(Parse(lines).value, fuel)
  {
    var parsed := Parse(lines);
    if parsed.None? {
      return None;
    }
    var visited := VisitedPositions(parsed.value, fuel);
    if visited.None? {
      return None;
    }
    var count := CountBlocking(parsed.value, visited.value);
    return Some(count);
  }

  /** The guard's start is visited but never trapping, so part 2 counts
      fewer positions than part 1. */
  lemma StartExcluded(m: Map, n: nat)
    requires WellFormed(m) && 0 < n && GuardPosition(m).Some?
    ensures GuardPosition(m).value in Occupied(m, n)
    ensures !Traps(m, GuardPosition(m).value)
    ensures |Blocking(m, Occupied(m, n))| < |Occupied(m, n)|
  {
    var start := GuardPosition(m).value;
    OccupiedHasStart(m, n);
    assert !Traps(m, start);
    Smaller(Blocking(m, Occupied(m, n)), Occupied(m, n), start);
  }

  /** A proper subset is smaller. */
  lemma Smaller<T>(a: set<T>, b: set<T>, x: T)
    requires a <= b && x in b && x !in a
    ensures |a| < |b|
  {
    var c := b - {x};
    assert c == a + (c - a);
    assert |c| == |a| + |c - a|;
    assert b == c + {x};
  }
}
