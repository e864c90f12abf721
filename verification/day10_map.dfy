/** Day 10 topographic map: one height digit per cell, stored row by row,
    with the conversions between coordinates and storage index, the height
    lookup, and the trailheads (the cells of height 0). */
module Day10Map {
  import opened Common
  import opened Decimal

  /** Signed coordinates; `y` grows downwards. */
  datatype Position = Position(x: int, y: int)

  /** Heights row by row, `width` per row and `height` rows. */
  datatype TopoMap = TopoMap(width: nat, height: nat, grid: seq<nat>)

  /** What parsing establishes: `width * height` cells, each a decimal digit. */
  predicate WellFormed(m: TopoMap)
  {
    |m.grid| == m.width * m.height && forall i :: 0 <= i < |m.grid| ==> m.grid[i] <= 9
  }

  /** `xy_to_index`, for the non-negative coordinates it is called with.
      For a column inside the row, dividing the index by the width gives
      back the row and the remainder the column. */
  function XyToIndex(x: int, y: int, width: nat): (r: nat)
    requires 0 <= x && 0 <= y
    ensures x < width ==> r / width == y && r % width == x
  {
    var i := x + y * width;
    if x < width then DivModUnique(i, width, y, x); i else i
  }

  /** `index_to_xy`; a width of 0 would divide by zero. The column lies
      inside the row, and the coordinates lead back to the index. */
  function IndexToXy(index: nat, width: nat): (r: Position)
    requires width > 0
    ensures 0 <= r.x < width && 0 <= r.y
    ensures XyToIndex(r.x, r.y, width) == index
  {
    Position(index % width, index / width)
  }

  predicate InBounds(m: TopoMap, p: Position)
  {
    0 <= p.x < m.width && 0 <= p.y < m.height
  }

  /** A cell inside the map is stored inside the grid. */
  lemma IndexInside(m: TopoMap, p: Position)
    requires WellFormed(m) && InBounds(m, p)
    ensures XyToIndex(p.x, p.y, m.width) < |m.grid|
  {
    CellIndex(p.x, p.y, m.width, m.height);
  }

  /** `get`: `None` off the map, otherwise the height stored for the cell. */
  function Get(m: TopoMap, x: int, y: int): (r: Option<nat>)
    requires WellFormed(m)
    ensures r.None? <==> !InBounds(m, Position(x, y))
    ensures r.Some? ==> r.value <= 9
  {
    if x < 0 || x >= m.width || y < 0 || y >= m.height then None
    else
      IndexInside(m, Position(x, y));
      Some(m.grid[XyToIndex(x, y, m.width)])
  }

  /** Every stored height is what `get` reports at the index's coordinates. */
  lemma GetStored(m: TopoMap, index: nat)
    requires WellFormed(m) && index < |m.grid|
    ensures m.width > 0
    ensures var p := IndexToXy(index, m.width); Get(m, p.x, p.y) == Some(m.grid[index])
  {
    var p := IndexToXy(index, m.width);
    if p.y >= m.height {
      MulMono(m.height, p.y, m.width);
    }
  }

  /** The trailheads among the first `n` cells, in storage order. */
  function HeadsBelow(m: TopoMap, n: nat): (r: seq<Position>)
    requires WellFormed(m) && n <= |m.grid|
  {
    if n == 0 then []
    else
      var before := HeadsBelow(m, n - 1);
      if m.grid[n - 1] == 0 then
        GetStored(m, n - 1);
        before + [IndexToXy(n - 1, m.width)]
      else before
  }

  /** `trailheads`: the coordinates of the cells of height 0, in storage
      (row-major) order. */
  function Trailheads(m: TopoMap): seq<Position>
    requires WellFormed(m)
  {
    HeadsBelow(m, |m.grid|)
  }

  /** The trailheads among the first `n` cells are exactly the cells of
      height 0 stored below `n`, each listed once, in increasing storage
      order. */
  lemma {:induction false} HeadsBelowExact(m: TopoMap, n: nat)
    requires WellFormed(m) && n <= |m.grid|
    ensures forall p :: p in HeadsBelow(m, n) <==>
      InBounds(m, p) && XyToIndex(p.x, p.y, m.width) < n && Get(m, p.x, p.y) == Some(0)
    ensures forall i, j :: 0 <= i < j < |HeadsBelow(m, n)| ==>
      var p, q := HeadsBelow(m, n)[i], HeadsBelow(m, n)[j];
      InBounds(m, p) && InBounds(m, q) && XyToIndex(p.x, p.y, m.width) < XyToIndex(q.x, q.y, m.width)
  {
    if n > 0 {
      HeadsBelowExact(m, n - 1);
      GetStored(m, n - 1);
      var c := IndexToXy(n - 1, m.width);
      assert InBounds(m, c) && XyToIndex(c.x, c.y, m.width) == n - 1;
      forall p | InBounds(m, p) && XyToIndex(p.x, p.y, m.width) == n - 1
        ensures p == c
      {
      }
    }
  }

  /** A trailhead is exactly a cell of height 0, and the list runs in
      row-major order without repeats. */
  lemma TrailheadsExact(m: TopoMap)
    requires WellFormed(m)
    ensures forall p :: p in Trailheads(m) <==> InBounds(m, p) && Get(m, p.x, p.y) == Some(0)
    ensures forall i, j :: 0 <= i < j < |Trailheads(m)| ==> Trailheads(m)[i] != Trailheads(m)[j]
  {
    HeadsBelowExact(m, |m.grid|);
    forall p | InBounds(m, p)
      ensures XyToIndex(p.x, p.y, m.width) < |m.grid|
    {
      IndexInside(m, p);
    }
  }

  /** Each character read as a digit; `None` at the first other one. */
  function Heights(s: string): (r: Option<seq<nat>>)
    ensures r.None? <==> exists i :: 0 <= i < |s| && !IsDigit(s[i])
    ensures r.Some? ==> |r.value| == |s| && forall i :: 0 <= i < |s| ==> r.value[i] == DigitValue(s[i]) <= 9
  {
    if |s| == 0 then Some([])
    else if !IsDigit(s[0]) then None
    else match Heights(s[1..])
      case None => None
      case Some(hs) => Some([DigitValue(s[0])] + hs)
  }

  /** `from_str` on the lines of the input: the digits of all lines in
      order, the first line's length as width and the number of lines as
      height. An input without lines, a character other than a digit and a
      total other than width times height abort. */
  function Parse(lines: seq<string>): (r: Option<TopoMap>)
    ensures r.None? <==>
      || |lines| == 0
      || (exists i :: 0 <= i < |Flatten(lines)| && !IsDigit(Flatten(lines)[i]))
      || |Flatten(lines)| != |lines[0]| * |lines|
    ensures r.Some? ==>
      && WellFormed(r.value) && r.value.width == |lines[0]| && r.value.height == |lines|
      && forall i :: 0 <= i < |r.value.grid| ==> r.value.grid[i] == DigitValue(Flatten(lines)[i])
  {
    if |lines| == 0 then None
    else match Heights(Flatten(lines))
      case None => None
      case Some(grid) =>
        if |grid| != |lines[0]| * |lines| then None
        else Some(TopoMap(|lines[0]|, |lines|, grid))
  }
}
