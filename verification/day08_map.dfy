/** Day 8 antenna map: signed positions with componentwise arithmetic, the
    map's extent, and the antennas read off the text grid, one per
    character other than '.'. */
module Day08Map {
  import opened Common

  /** Signed coordinates; `y` grows downwards. */
  datatype Position = Position(x: int, y: int)

  function Add(p: Position, q: Position): Position
  {
    Position(p.x + q.x, p.y + q.y)
  }

  function Sub(p: Position, q: Position): Position
  {
    Position(p.x - q.x, p.y - q.y)
  }

  function Neg(p: Position): Position
  {
    Position(-p.x, -p.y)
  }

  /** `k` copies of `d` added together. */
  function Scale(k: int, d: Position): Position
  {
    Position(k * d.x, k * d.y)
  }

  /** The three operators agree with each other: subtraction undoes
      addition, subtracting is adding the negation, and negation is an
      involution. */
  lemma PositionAlgebra(p: Position, q: Position)
    ensures Add(Sub(p, q), q) == p && Sub(Add(p, q), q) == p
    ensures Sub(p, q) == Add(p, Neg(q))
    ensures Neg(Neg(p)) == p
    ensures Neg(Sub(p, q)) == Sub(q, p)
  {
  }

  /** `width` and `height` come from the text; antennas are keyed by
      position and carry their frequency character. */
  datatype Map = Map(width: nat, height: nat, antennae: map<Position, char>)

  /** `bounds_check`. */
  predicate InBounds(m: Map, p: Position)
  {
    0 <= p.x < m.width && 0 <= p.y < m.height
  }

  /** Line `y` of the text has a character at column `x` and it is not '.'. */
  predicate Marked(lines: seq<string>, p: Position)
  {
    0 <= p.y < |lines| && 0 <= p.x < |lines[p.y]| && lines[p.y][p.x] != '.'
  }

  /** The antennas of one line, read left to right. */
  function RowAntennae(line: string, y: int): map<Position, char>
  {
    if |line| == 0 then map[]
    else
      var before := RowAntennae(line[..|line| - 1], y);
      var c := line[|line| - 1];
      if c == '.' then before else before[Position(|line| - 1, y) := c]
  }

  /** A line's antennas are its characters other than '.'. */
  lemma {:induction false} RowAntennaeMeans(line: string, y: int, p: Position)
    ensures p in RowAntennae(line, y) <==> p.y == y && 0 <= p.x < |line| && line[p.x] != '.'
    ensures p in RowAntennae(line, y) ==> RowAntennae(line, y)[p] == line[p.x]
  {
    if |line| > 0 {
      RowAntennaeMeans(line[..|line| - 1], y, p);
    }
  }

  /** The antennas of all lines, read top to bottom. */
  function Antennae(lines: seq<string>): map<Position, char>
  {
    if |lines| == 0 then map[]
    else Antennae(lines[..|lines| - 1]) + RowAntennae(lines[|lines| - 1], |lines| - 1)
  }

  /** The antennas are the marked cells, each with its character. */
  lemma {:induction false} AntennaeMeans(lines: seq<string>, p: Position)
    ensures p in Antennae(lines) <==> Marked(lines, p)
    ensures p in Antennae(lines) ==> Antennae(lines)[p] == lines[p.y][p.x]
  {
    if |lines| > 0 {
      var init := lines[..|lines| - 1];
      AntennaeMeans(init, p);
      RowAntennaeMeans(lines[|lines| - 1], |lines| - 1, p);
      if 0 <= p.y < |init| {
        assert init[p.y] == lines[p.y];
      }
    }
  }

  /** `Map::from_str` on the input's lines: the width is the first line's
      length, the height the number of lines; an input without lines has no
      first line and aborts. */
  function Parse(lines: seq<string>): (r: Option<Map>)
    ensures r.None? <==> |lines| == 0
    ensures r.Some? ==> r.value.width == |lines[0]| && r.value.height == |lines|
    ensures r.Some? ==> forall p :: p in r.value.antennae <==> Marked(lines, p)
    ensures r.Some? ==> forall p :: p in r.value.antennae ==> Marked(lines, p) && r.value.antennae[p] == lines[p.y][p.x]
  {
    if |lines| == 0 then None
    else
      assert forall p :: (p in Antennae(lines) <==> Marked(lines, p)) && (p in Antennae(lines) ==> Antennae(lines)[p] == lines[p.y][p.x]) by {
        forall p
          ensures (p in Antennae(lines) <==> Marked(lines, p)) && (p in Antennae(lines) ==> Antennae(lines)[p] == lines[p.y][p.x])
        {
          AntennaeMeans(lines, p);
        }
      }
      Some(Map(|lines[0]|, |lines|, Antennae(lines)))
  }

  /** The parsing example: a 10 by 10 map with two 'a' antennas and one 'A'. */
  lemma ParseExample(lines: seq<string>)
    requires lines == [
      "..........",
      "..........",
      "..........",
      "....a.....",
      "..........",
      ".....a....",
      "..........",
      "..........",
      "........A.",
      ".........."]
    ensures Parse(lines).Some?
    ensures var m := Parse(lines).value;
      m.width == 10 && m.height == 10
      && Position(4, 3) in m.antennae && m.antennae[Position(4, 3)] == 'a'
      && Position(5, 5) in m.antennae && m.antennae[Position(5, 5)] == 'a'
      && Position(8, 8) in m.antennae && m.antennae[Position(8, 8)] == 'A'
  {
    assert Marked(lines, Position(4, 3)) && Marked(lines, Position(5, 5)) && Marked(lines, Position(8, 8));
  }
}
