/** Day 6 lab map: a rectangle of tiles stored row by row, one of which may
    hold the guard, and the guard's one-tick move (turn right in front of an
    obstruction, otherwise step forward, leaving the map at its edge). */
module Day06Map {
  import opened Common

  datatype Direction = Up | Down | Left | Right

  /** Coordinates are signed: a step off the top or the left edge gives -1. */
  datatype Position = Position(x: int, y: int)

  /** One step in direction `d`; `y` grows downwards. */
  function Step(p: Position, d: Direction): (r: Position)
    ensures AbsDiff(r.x, p.x) + AbsDiff(r.y, p.y) == 1
    ensures d == Up || d == Down ==> r.x == p.x
    ensures d == Left || d == Right ==> r.y == p.y
  {
    match d
    case Up => Position(p.x, p.y - 1)
    case Down => Position(p.x, p.y + 1)
    case Left => Position(p.x - 1, p.y)
    case Right => Position(p.x + 1, p.y)
  }

  function RotateClockwise(d: Direction): (r: Direction)
    ensures r != d
  {
    match d
    case Up => Right
    case Right => Down
    case Down => Left
    case Left => Up
  }

  /** The reverse heading. */
  function Opposite(d: Direction): Direction
  {
    match d
    case Up => Down
    case Down => Up
    case Left => Right
    case Right => Left
  }

  /** A step is undone by a step the opposite way, so distinct positions
      step to distinct positions. */
  lemma StepBack(p: Position, d: Direction)
    ensures Step(Step(p, d), Opposite(d)) == p
  {
  }

  /** Two clockwise turns face the opposite way, and four turn full circle,
      passing through four distinct headings. */
  lemma RotationCycle(d: Direction)
    ensures RotateClockwise(RotateClockwise(d)) == Opposite(d)
    ensures RotateClockwise(RotateClockwise(RotateClockwise(RotateClockwise(d)))) == d
    ensures RotateClockwise(RotateClockwise(RotateClockwise(d))) != d
  {
  }

  datatype Tile = Empty | Obstruction | Guard(facing: Direction)

  /** Reading one character of the map; any character other than the
      three below aborts (`None`). The guard always starts facing up. */
  function TileOf(c: char): (r: Option<Tile>)
    ensures r.Some? <==> c in {'.', '#', '^'}
  {
    match c
    case '.' => Some(Empty)
    case '#' => Some(Obstruction)
    case '^' => Some(Guard(Up))
    case _ => None
  }

  /** How a tile is drawn; a guard is drawn as `^` whichever way it faces. */
  function Symbol(t: Tile): char
  {
    match t
    case Empty => '.'
    case Obstruction => '#'
    case Guard(_) => '^'
  }

  /** A character is read as exactly the tile it draws. */
  lemma TileOfSymbol(c: char, t: Tile)
    ensures TileOf(c) == Some(t) <==> c == Symbol(t) && t != Guard(Down) && t != Guard(Left) && t != Guard(Right)
  {
    if TileOf(c) == Some(t) {
      assert c == '.' || c == '#' || c == '^';
    }
    match t
    case Empty =>
    case Obstruction =>
    case Guard(d) =>
      if c == '^' {
        assert TileOf(c) == Some(Guard(Up));
        assert Guard(d) == Guard(Up) <==> d == Up;
      }
  }

  /** Tiles row by row, `width` per row and `height` rows. */
  datatype Map = Map(tiles: seq<Tile>, width: nat, height: nat)

  /** The shape parsing establishes and every operation keeps. */
  predicate WellFormed(m: Map)
  {
    |m.tiles| == m.width * m.height
  }

  /** `check_bounds`. */
  predicate InBounds(m: Map, p: Position)
  {
    0 <= p.x < m.width && 0 <= p.y < m.height
  }

  /** Where position `p` is kept, `x + y * width`, for a position inside the map. */
  function Index(m: Map, p: Position): nat
    requires InBounds(m, p)
  {
    RowMajor(p.y, m.width, p.x)
  }

  lemma IndexInside(m: Map, p: Position)
    requires InBounds(m, p)
    ensures WellFormed(m) ==> Index(m, p) < |m.tiles|
  {
    RowMajorIndex(p.y, m.width, p.x);
    CellIndex(p.x, p.y, m.width, m.height);
  }

  /** Distinct positions inside the map are kept at distinct places. */
  lemma {:induction false} IndexInjective(w: nat, y1: nat, x1: nat, y2: nat, x2: nat)
    requires x1 < w && x2 < w
    requires RowMajor(y1, w, x1) == RowMajor(y2, w, x2)
    ensures x1 == x2 && y1 == y2
  {
    if y1 > 0 && y2 > 0 {
      IndexInjective(w, y1 - 1, x1, y2 - 1, x2);
    } else if y1 > 0 {
      RowMajorAtLeast(y1, w, x1);
    } else if y2 > 0 {
      RowMajorAtLeast(y2, w, x2);
    }
  }

  lemma {:induction false} RowMajorAtLeast(y: nat, w: nat, x: nat)
    requires y > 0
    ensures RowMajor(y, w, x) >= w
  {
    if y > 1 {
      RowMajorAtLeast(y - 1, w, x);
    }
  }

  /** `get`: `None` outside the map, otherwise the tile at `x + y * width`
      (and `None` as well should the tiles run short). */
  function Get(m: Map, p: Position): (r: Option<Tile>)
    ensures WellFormed(m) ==> (r.Some? <==> InBounds(m, p))
  {
    if !InBounds(m, p) then None
    else
      IndexInside(m, p);
      if Index(m, p) < |m.tiles| then Some(m.tiles[Index(m, p)]) else None
  }

  /** `set`: outside the map nothing changes; inside, only the tile at `p`. */
  function Set(m: Map, p: Position, t: Tile): (r: Map)
    requires WellFormed(m)
    ensures WellFormed(r) && r.width == m.width && r.height == m.height
    ensures Get(r, p) == if InBounds(m, p) then Some(t) else None
  {
    if !InBounds(m, p) then m
    else
      IndexInside(m, p);
      m.(tiles := m.tiles[Index(m, p) := t])
  }

  /** Setting one tile leaves every other position as it was. */
  lemma SetOthers(m: Map, p: Position, t: Tile, q: Position)
    requires WellFormed(m) && q != p
    ensures Get(Set(m, p, t), q) == Get(m, q)
  {
    if InBounds(m, p) && InBounds(m, q) {
      if Index(m, p) == Index(m, q) {
        IndexInjective(m.width, p.y, p.x, q.y, q.x);
      }
    }
  }

  /** Index of the first guard tile (`iter().position`). */
  function FirstGuard(tiles: seq<Tile>): (r: Option<nat>)
    ensures r.Some? ==> r.value < |tiles| && tiles[r.value].Guard?
  {
    if |tiles| == 0 then None
    else if tiles[0].Guard? then Some(0)
    else match FirstGuard(tiles[1..])
      case None => None
      case Some(i) => Some(i + 1)
  }

  /** `FirstGuard` finds the earliest guard, and finds none only when
      there is none. */
  lemma {:induction false} FirstGuardEarliest(tiles: seq<Tile>)
    ensures FirstGuard(tiles).Some? ==> forall k :: 0 <= k < FirstGuard(tiles).value ==> !tiles[k].Guard?
    ensures FirstGuard(tiles).None? <==> forall k :: 0 <= k < |tiles| ==> !tiles[k].Guard?
  {
    if |tiles| > 0 && !tiles[0].Guard? {
      FirstGuardEarliest(tiles[1..]);
      assert forall k :: 1 <= k < |tiles| ==> tiles[k] == tiles[1..][k - 1];
    }
  }

  /** Stored place `i` of a `w`-wide map is row `i / w`, column `i % w`. */
  lemma Decode(i: nat, w: nat, h: nat)
    requires i < w * h
    ensures w > 0 && i / w < h && RowMajor(i / w, w, i % w) == i
  {
    RowMajorIndex(i / w, w, i % w);
    if i / w >= h {
      MulMono(h, i / w, w);
    }
  }

  /** `guard_position`: the first guard tile in row-major order, turned
      back into coordinates. */
  function GuardPosition(m: Map): (r: Option<Position>)
    requires WellFormed(m)
    ensures r.Some? ==> InBounds(m, r.value) && Get(m, r.value).Some? && Get(m, r.value).value.Guard?
  {
    match FirstGuard(m.tiles)
    case None => None
    case Some(i) =>
      Decode(i, m.width, m.height);
      Some(Position(i % m.width, i / m.width))
  }

  /** Row-major order on positions. */
  predicate Before(q: Position, p: Position)
  {
    q.y < p.y || (q.y == p.y && q.x < p.x)
  }

  lemma {:induction false} RowMajorOrder(w: nat, y1: nat, x1: nat, y2: nat, x2: nat)
    requires x1 < w && x2 < w
    requires y1 < y2 || (y1 == y2 && x1 < x2)
    ensures RowMajor(y1, w, x1) < RowMajor(y2, w, x2)
  {
    if y1 > 0 {
      RowMajorOrder(w, y1 - 1, x1, y2 - 1, x2);
    } else if y2 > 0 {
      RowMajorAtLeast(y2, w, x2);
    }
  }

  /** `guard_position` is the guard nearest the top-left in reading order,
      and `None` exactly when no position inside the map holds a guard. */
  lemma GuardPositionFirst(m: Map)
    requires WellFormed(m)
    ensures GuardPosition(m).None? <==> forall q :: InBounds(m, q) ==> !Get(m, q).value.Guard?
    ensures GuardPosition(m).Some? ==>
      forall q :: InBounds(m, q) && Before(q, GuardPosition(m).value) ==> !Get(m, q).value.Guard?
  {
    FirstGuardEarliest(m.tiles);
    match FirstGuard(m.tiles)
    case None =>
      forall q | InBounds(m, q)
        ensures !Get(m, q).value.Guard?
      {
        IndexInside(m, q);
      }
    case Some(i) =>
      var p := GuardPosition(m).value;
      Decode(i, m.width, m.height);
      forall q | InBounds(m, q) && Before(q, p)
        ensures !Get(m, q).value.Guard?
      {
        RowMajorOrder(m.width, q.y, q.x, p.y, p.x);
      }
  }

  /** `tick`: with no guard nothing happens; with an obstruction straight
      ahead the guard turns right where it stands; otherwise its tile moves
      one step (vanishing when that step leaves the map) and leaves an
      empty tile behind. */
  function Tick(m: Map): (r: Map)
    requires WellFormed(m)
    ensures WellFormed(r) && r.width == m.width && r.height == m.height
  {
    match GuardPosition(m)
    case None => m
    case Some(p) =>
      var d := Get(m, p).value.facing;
      var next := Step(p, d);
      if Get(m, next) == Some(Obstruction) then Set(m, p, Guard(RotateClockwise(d)))
      else Set(Set(m, next, Guard(d)), p, Empty)
  }

  /** With no guard on the map, a tick changes nothing. */
  lemma TickWithoutGuard(m: Map)
    requires WellFormed(m) && forall q :: InBounds(m, q) ==> !Get(m, q).value.Guard?
    ensures Tick(m) == m
  {
    GuardPositionFirst(m);
  }

  /** Facing an obstruction, the guard turns right in place and nothing
      else changes. */
  lemma TickTurns(m: Map, p: Position, d: Direction)
    requires WellFormed(m) && GuardPosition(m) == Some(p) && Get(m, p) == Some(Guard(d))
    requires Get(m, Step(p, d)) == Some(Obstruction)
    ensures Get(Tick(m), p) == Some(Guard(RotateClockwise(d)))
    ensures forall q :: q != p ==> Get(Tick(m), q) == Get(m, q)
  {
    forall q | q != p
      ensures Get(Tick(m), q) == Get(m, q)
    {
      SetOthers(m, p, Guard(RotateClockwise(d)), q);
    }
  }

  /** Otherwise the guard moves one step ahead, still facing the same way,
      and its old position becomes empty; every other position is as it
      was. A step off the map takes the guard off the map. */
  lemma TickMoves(m: Map, p: Position, d: Direction)
    requires WellFormed(m) && GuardPosition(m) == Some(p) && Get(m, p) == Some(Guard(d))
    requires Get(m, Step(p, d)) != Some(Obstruction)
    ensures Get(Tick(m), p) == Some(Empty)
    ensures Get(Tick(m), Step(p, d)) == if InBounds(m, Step(p, d)) then Some(Guard(d)) else None
    ensures forall q :: q != p && q != Step(p, d) ==> Get(Tick(m), q) == Get(m, q)
  {
    var next := Step(p, d);
    var moved := Set(m, next, Guard(d));
    SetOthers(moved, p, Empty, next);
    forall q | q != p && q != next
      ensures Get(Tick(m), q) == Get(m, q)
    {
      SetOthers(moved, p, Empty, q);
      SetOthers(m, next, Guard(d), q);
    }
  }

  /** `from_str` on the lines of the input: the tiles of all lines in
      order, the first line's length as width, the number of lines as
      height. An empty input, an unknown character and a total other than
      width times height abort. */
  function Parse(lines: seq<string>): (r: Option<Map>)
    ensures r.Some? ==> |lines| > 0 && WellFormed(r.value) && r.value.width == |lines[0]| && r.value.height == |lines|
  {
    if |lines| == 0 then None
    else match Tiles(Flatten(lines))
      case None => None
      case Some(tiles) =>
        if |tiles| != |lines[0]| * |lines| then None
        else Some(Map(tiles, |lines[0]|, |lines|))
  }

  /** Every character read as a tile; `None` at the first unknown one. */
  function Tiles(s: string): (r: Option<seq<Tile>>)
    ensures r.Some? ==> |r.value| == |s| && forall i :: 0 <= i < |s| ==> TileOf(s[i]) == Some(r.value[i])
    ensures r.None? <==> exists i :: 0 <= i < |s| && TileOf(s[i]).None?
  {
    if |s| == 0 then Some([])
    else match TileOf(s[0])
      case None => None
      case Some(t) =>
        match Tiles(s[1..])
        case None => None
        case Some(ts) => Some([t] + ts)
  }

  /** The map from the parsing example: 3 by 3, with an empty corner, an
      obstruction at the start of the second row and the guard in the
      middle, facing up. */
  lemma ParseExample(lines: seq<string>)
    requires lines == [".#.", "#^.", "..#"]
    ensures Parse(lines).Some?
    ensures var m := Parse(lines).value;
      m.width == 3 && m.height == 3 && m.tiles[0] == Empty && m.tiles[3] == Obstruction && m.tiles[4] == Guard(Up)
  {
    var s := Flatten(lines);
    var rest1, rest2 := lines[1..], lines[2..];
    assert rest2 == ["..#"] && rest2[1..] == [];
    assert Flatten(rest2) == "..#";
    assert rest1 == ["#^.", "..#"] && rest1[1..] == rest2;
    assert Flatten(rest1) == "#^...#";
    assert s == ".#.#^...#";
    assert forall i :: 0 <= i < |s| ==> TileOf(s[i]).Some?;
    var tiles := Tiles(s).value;
    assert TileOf(s[0]) == Some(tiles[0]) && TileOf(s[3]) == Some(tiles[3]) && TileOf(s[4]) == Some(tiles[4]);
  }
}
