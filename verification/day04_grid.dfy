/** Day 4 grid: a rectangular block of letters stored row by row in one
    string, with the ways the word search reads it (rows, columns,
    diagonals of square windows) and the iterator over its windows. */
module Day04Grid {
  import opened Common

  /** The letters row by row, `width` per row, `height` rows. */
  datatype Grid = Grid(source: string, width: nat, height: nat)

  predicate WellFormed(g: Grid)
  {
    |g.source| == g.width * g.height
  }

  /** The `w` letters from column `x` of row `r` lie inside the source. */
  lemma RowSpan(x: nat, w: nat, r: nat, W: nat, H: nat)
    requires x + w <= W && r < H
    ensures x + r * W + w <= W * H
  {
    MulSucc(r, W);
    MulMono(r + 1, H, W);
    assert H * W == W * H;
  }

  /** The letter in column `x` of row `y`. */
  function Cell(g: Grid, x: nat, y: nat): char
    requires WellFormed(g) && x < g.width && y < g.height
  {
    CellIndex(x, y, g.width, g.height);
    g.source[x + y * g.width]
  }

  /** Grid parsing: the lines are concatenated, the width is the first
      line's length and the height the number of lines. Reading the first
      line of an empty input and a total length other than width times
      height both abort. */
  function Parse(lines: seq<string>): (r: Option<Grid>)
    ensures r.Some? <==> |lines| > 0 && |Flatten(lines)| == |lines[0]| * |lines|
    ensures r.Some? ==> WellFormed(r.value) && r.value.width == |lines[0]| && r.value.height == |lines|
  {
    if |lines| == 0 then None
    else
      var source := Flatten(lines);
      if |source| != |lines[0]| * |lines| then None
      else Some(Grid(source, |lines[0]|, |lines|))
  }

  /** Lines of one common length parse, and cell `(x, y)` is letter `x` of line `y`. */
  lemma ParseCells(lines: seq<string>)
    requires |lines| > 0
    requires forall i :: 0 <= i < |lines| ==> |lines[i]| == |lines[0]|
    ensures Parse(lines).Some?
    ensures forall x, y :: 0 <= x < |lines[0]| && 0 <= y < |lines| ==> Cell(Parse(lines).value, x, y) == lines[y][x]
  {
    FlattenUniformLength(lines, |lines[0]|);
    assert |lines| * |lines[0]| == |lines[0]| * |lines|;
    var g := Parse(lines).value;
    forall x, y | 0 <= x < |lines[0]| && 0 <= y < |lines|
      ensures Cell(g, x, y) == lines[y][x]
    {
      FlattenUniformAt(lines, |lines[0]|, y, x);
      assert x + y * |lines[0]| == y * |lines[0]| + x;
    }
  }

  /** `skip(start).step_by(step).take(count)`: the letters at
      `start + k * step` for successive `k`, at most `count` of them, ending
      early at the end of the string. `step_by(0)` aborts. */
  function Strided(s: string, start: nat, step: nat, count: nat): (r: string)
    requires step > 0
    ensures |r| <= count
    decreases count
  {
    if count == 0 || start >= |s| then []
    else [s[start]] + Strided(s, start + step, step, count - 1)
  }

  lemma {:induction false} StridedAt(s: string, start: nat, step: nat, count: nat, k: nat)
    requires step > 0 && k < |Strided(s, start, step, count)|
    ensures start + k * step < |s| && Strided(s, start, step, count)[k] == s[start + k * step]
    decreases count
  {
    if k > 0 {
      StridedAt(s, start + step, step, count - 1, k - 1);
      MulSucc(k - 1, step);
    }
  }

  /** The walk stops short of `count` letters only at the end of the string. */
  lemma {:induction false} StridedShort(s: string, start: nat, step: nat, count: nat)
    requires step > 0
    ensures var n := |Strided(s, start, step, count)|; n < count ==> start + n * step >= |s|
    decreases count
  {
    if count > 0 && start < |s| {
      StridedShort(s, start + step, step, count - 1);
      MulSucc(|Strided(s, start + step, step, count - 1)|, step);
    }
  }

  /** Reading down column `c` of a well-formed grid: `count` letters, or
      fewer when the column has fewer rows. */
  lemma StridedColumn(g: Grid, c: nat, count: nat)
    requires c < g.width
    ensures WellFormed(g) ==> var r := Strided(g.source, c, g.width, count);
      && |r| == Min(count, g.height)
      && forall k :: 0 <= k < |r| ==> r[k] == Cell(g, c, k)
  {
    var r := Strided(g.source, c, g.width, count);
    if WellFormed(g) {
      StridedShort(g.source, c, g.width, count);
      if |r| < Min(count, g.height) {
        CellIndex(c, |r|, g.width, g.height);
      }
      if |r| > g.height {
        StridedAt(g.source, c, g.width, count, g.height);
        MulMono(g.height, g.height, g.width);
      }
      forall k | 0 <= k < |r|
        ensures r[k] == Cell(g, c, k)
      {
        StridedAt(g.source, c, g.width, count, k);
      }
    }
  }

  /** `get_column` as the program writes it: it keeps `width` letters of the
      column, which is the whole column only when the grid is at least as
      wide as it is high. */
  function GetColumn(g: Grid, column: nat): (r: string)
    requires column < g.width
    ensures WellFormed(g) ==> |r| == Min(g.width, g.height)
    ensures WellFormed(g) ==> forall k :: 0 <= k < |r| ==> r[k] == Cell(g, column, k)
  {
    StridedColumn(g, column, g.width);
    Strided(g.source, column, g.width, g.width)
  }

  /** The column read with the intended bound, `height` letters. */
  function Column(g: Grid, column: nat): (r: string)
    requires column < g.width
    ensures WellFormed(g) ==> |r| == g.height
    ensures WellFormed(g) ==> forall k :: 0 <= k < |r| ==> r[k] == Cell(g, column, k)
  {
    StridedColumn(g, column, g.height);
    Strided(g.source, column, g.width, g.height)
  }

  /** The column as written is a prefix of the whole column, and all of it
      when the grid is not higher than wide. */
  lemma GetColumnPrefix(g: Grid, column: nat)
    requires WellFormed(g) && column < g.width
    ensures GetColumn(g, column) == Column(g, column)[..Min(g.width, g.height)]
    ensures g.height <= g.width ==> GetColumn(g, column) == Column(g, column)
  {
  }

  /** Upper-left to lower-right, or upper-right to lower-left. */
  datatype Diagonal = Dexter | Sinister

  /** `get_diagonal`: `height` letters from the corner, stepping one row and
      one column at a time. The upper-right start needs `width - 1 >= 1`:
      width 0 underflows and width 1 makes `step_by(0)` abort. */
  function GetDiagonal(g: Grid, d: Diagonal): (r: string)
    requires d.Sinister? ==> g.width >= 2
    ensures WellFormed(g) && g.width == g.height ==> |r| == g.height
    ensures WellFormed(g) && g.width == g.height && d.Dexter? ==>
      forall k :: 0 <= k < |r| ==> r[k] == Cell(g, k, k)
    ensures WellFormed(g) && g.width == g.height && d.Sinister? ==>
      forall k :: 0 <= k < |r| ==> r[k] == Cell(g, g.width - 1 - k, k)
  {
    var r := match d
      case Dexter => Strided(g.source, 0, g.width + 1, g.height)
      case Sinister => Strided(g.source, g.width - 1, g.width - 1, g.height);
    DiagonalCells(g, d, r);
    r
  }

  lemma DiagonalCells(g: Grid, d: Diagonal, r: string)
    requires d.Sinister? ==> g.width >= 2
    requires d.Dexter? ==> r == Strided(g.source, 0, g.width + 1, g.height)
    requires d.Sinister? ==> r == Strided(g.source, g.width - 1, g.width - 1, g.height)
    ensures WellFormed(g) && g.width == g.height ==> |r| == g.height
    ensures WellFormed(g) && g.width == g.height && d.Dexter? ==>
      forall k :: 0 <= k < |r| ==> r[k] == Cell(g, k, k)
    ensures WellFormed(g) && g.width == g.height && d.Sinister? ==>
      forall k :: 0 <= k < |r| ==> r[k] == Cell(g, g.width - 1 - k, k)
  {
    var w := g.width;
    if WellFormed(g) && g.width == g.height {
      var start, step := if d.Dexter? then 0 else w - 1, if d.Dexter? then w + 1 else w - 1;
      StridedShort(g.source, start, step, g.height);
      if |r| < g.height {
        var k := |r|;
        var x := if d.Dexter? then k else w - 1 - k;
        CellIndex(x, k, w, w);
        DiagonalIndex(w, k, d);
      }
      forall k | 0 <= k < |r|
        ensures d.Dexter? ==> r[k] == Cell(g, k, k)
        ensures d.Sinister? ==> r[k] == Cell(g, w - 1 - k, k)
      {
        StridedAt(g.source, start, step, g.height, k);
        DiagonalIndex(w, k, d);
      }
    }
  }

  /** Step `k` of a diagonal of a `w`-wide grid lands on row `k`. */
  lemma DiagonalIndex(w: nat, k: nat, d: Diagonal)
    requires k < w
    ensures d.Dexter? ==> 0 + k * (w + 1) == k + k * w
    ensures d.Sinister? ==> w - 1 + k * (w - 1) == (w - 1 - k) + k * w
  {
  }

  /** `chunks(n)`: consecutive pieces of `n` letters, the last one possibly
      shorter; a chunk size of 0 aborts. */
  function Chunks(s: string, n: nat): seq<string>
    requires n > 0
    decreases |s|
  {
    if |s| == 0 then []
    else if |s| <= n then [s]
    else [s[..n]] + Chunks(s[n..], n)
  }

  /** Every chunk holds between 1 and `n` letters. */
  lemma {:induction false} ChunkSizes(s: string, n: nat)
    requires n > 0
    ensures forall i :: 0 <= i < |Chunks(s, n)| ==> 1 <= |Chunks(s, n)[i]| <= n
    decreases |s|
  {
    if |s| > n {
      ChunkSizes(s[n..], n);
      assert Chunks(s, n) == [s[..n]] + Chunks(s[n..], n);
    }
  }

  /** Gluing the chunks back together gives the string, and only the last
      chunk may be short. */
  lemma {:induction false} ChunksFlatten(s: string, n: nat)
    requires n > 0
    ensures Flatten(Chunks(s, n)) == s
    ensures forall i :: 0 <= i < |Chunks(s, n)| - 1 ==> |Chunks(s, n)[i]| == n
    decreases |s|
  {
    var r := Chunks(s, n);
    if |s| == 0 {
    } else if |s| <= n {
      assert Flatten([s]) == s + Flatten([]);
    } else {
      ChunksFlatten(s[n..], n);
      assert r[1..] == Chunks(s[n..], n);
      assert s == s[..n] + s[n..];
    }
  }

  /** Chunk `k` exists as long as it starts inside the string, and it is
      the `n` letters from `k * n`, cut off at the end. */
  lemma {:induction false} ChunkAt(s: string, n: nat, k: nat)
    requires n > 0 && k * n < |s|
    ensures k < |Chunks(s, n)|
    ensures Chunks(s, n)[k] == s[k * n .. Min((k + 1) * n, |s|)]
  {
    if k > 0 {
      var a, b := ChunkStepBounds(k, n, |s|);
      ChunkAt(s[n..], n, k - 1);
      ChunkAtStep(s, n, k, a, b);
    }
  }

  /** Chunk `k` of `s` is chunk `k - 1` of `s` without its first chunk. */
  lemma ChunkAtStep(s: string, n: nat, k: nat, a: nat, b: nat)
    requires 0 < n < |s| && 0 < k && a <= b <= |s| - n
    requires k - 1 < |Chunks(s[n..], n)| && Chunks(s[n..], n)[k - 1] == s[n..][a..b]
    ensures k < |Chunks(s, n)| && Chunks(s, n)[k] == s[n + a .. n + b]
  {
    assert Chunks(s, n) == [s[..n]] + Chunks(s[n..], n);
    SuffixSlice(s, n, a, b);
  }

  /** Positions of chunk `k` of a string, seen from the string without its
      first chunk. */
  lemma ChunkStepBounds(k: nat, n: nat, len: nat) returns (a: nat, b: nat)
    requires n > 0 && 0 < k && k * n < len
    ensures n < len && a == (k - 1) * n && a < len - n && a <= b <= len - n
    ensures b == Min(k * n, len - n)
    ensures n + a == k * n && n + b == Min((k + 1) * n, len)
  {
    MulSucc(k - 1, n);
    MulSucc(k, n);
    a, b := (k - 1) * n, Min(k * n, len - n);
  }

  lemma SuffixSlice<T>(s: seq<T>, n: nat, a: nat, b: nat)
    requires n <= |s| && a <= b <= |s| - n
    ensures s[n..][a..b] == s[n + a .. n + b]
  {
  }

  /** A string of `n * h` letters cuts into exactly `h` full chunks. */
  lemma {:induction false} ChunksExact(s: string, n: nat, h: nat)
    requires n > 0 && |s| == n * h
    ensures |Chunks(s, n)| == h
    ensures forall i :: 0 <= i < h ==> |Chunks(s, n)[i]| == n
  {
    if h > 1 {
      assert |s[n..]| == n * (h - 1);
      ChunksExact(s[n..], n, h - 1);
      assert Chunks(s, n) == [s[..n]] + Chunks(s[n..], n);
    }
  }

  /** `get_horizontals`: the rows, cut from the source as chunks of
      `width` letters. */
  function Horizontals(g: Grid): (r: seq<string>)
    requires g.width > 0
    ensures WellFormed(g) ==> |r| == g.height
    ensures WellFormed(g) ==> forall y :: 0 <= y < |r| ==> |r[y]| == g.width
    ensures WellFormed(g) ==> forall y, x :: 0 <= y < |r| && 0 <= x < g.width ==> r[y][x] == Cell(g, x, y)
  {
    HorizontalCells(g);
    Chunks(g.source, g.width)
  }

  lemma HorizontalCells(g: Grid)
    requires g.width > 0
    ensures WellFormed(g) ==> |Chunks(g.source, g.width)| == g.height
    ensures WellFormed(g) ==> forall y :: 0 <= y < g.height ==> |Chunks(g.source, g.width)[y]| == g.width
    ensures WellFormed(g) ==> forall y, x :: 0 <= y < g.height && 0 <= x < g.width ==> Chunks(g.source, g.width)[y][x] == Cell(g, x, y)
  {
    var r := Chunks(g.source, g.width);
    if WellFormed(g) {
      ChunksExact(g.source, g.width, g.height);
      forall y, x | 0 <= y < |r| && 0 <= x < g.width
        ensures r[y][x] == Cell(g, x, y)
      {
        RowChunk(g, y);
      }
    }
  }

  /** Chunk `y` of a well-formed grid's source is row `y`. */
  lemma RowChunk(g: Grid, y: nat)
    requires WellFormed(g) && g.width > 0 && y < g.height
    ensures y * g.width + g.width <= |g.source|
    ensures y < |Chunks(g.source, g.width)|
    ensures Chunks(g.source, g.width)[y] == g.source[y * g.width .. y * g.width + g.width]
  {
    CellIndex(0, y, g.width, g.height);
    ChunkAt(g.source, g.width, y);
    MulMono(y + 1, g.height, g.width);
    assert (y + 1) * g.width == y * g.width + g.width;
  }

  /** `get_verticals` as written: one string per column, each cut to
      `width` letters, whose `k`-th letter is the cell in row `k`. */
  function Verticals(g: Grid): (r: seq<string>)
    ensures |r| == g.width
    ensures forall c :: 0 <= c < g.width ==> r[c] == GetColumn(g, c)
    ensures WellFormed(g) ==> forall c :: 0 <= c < g.width ==> |r[c]| == Min(g.width, g.height)
    ensures WellFormed(g) ==> forall c, k :: 0 <= c < g.width && 0 <= k < Min(g.width, g.height) ==> r[c][k] == Cell(g, c, k)
  {
    seq(g.width, c requires 0 <= c < g.width => GetColumn(g, c))
  }

  /** The columns read with the intended bound: one string per column,
      `height` letters long, whose `k`-th letter is the cell in row `k`. */
  function Columns(g: Grid): (r: seq<string>)
    ensures |r| == g.width
    ensures forall c :: 0 <= c < g.width ==> r[c] == Column(g, c)
    ensures WellFormed(g) ==> forall c :: 0 <= c < g.width ==> |r[c]| == g.height
    ensures WellFormed(g) ==> forall c, k :: 0 <= c < g.width && 0 <= k < |r[c]| ==> r[c][k] == Cell(g, c, k)
  {
    seq(g.width, c requires 0 <= c < g.width => Column(g, c))
  }

  /** `skip(n)`: the string without its first `n` letters. */
  function Skip(s: string, n: nat): (r: string)
    ensures |r| <= |s|
    ensures n <= |s| ==> s == s[..n] + r
    ensures n >= |s| ==> r == []
  {
    if n <= |s| then s[n..] else []
  }

  /** The first `h` rows, each cut to its first `w` letters
      (`map(|chunk| chunk.take(w)).take(h)`). */
  function Cut(rows: seq<string>, w: nat, h: nat): (r: seq<string>)
    ensures |r| == Min(h, |rows|)
  {
    if h == 0 || |rows| == 0 then []
    else [rows[0][..Min(w, |rows[0]|)]] + Cut(rows[1..], w, h - 1)
  }

  /** Row `i` of the cut is row `i` of the input, cut to `w` letters. */
  lemma {:induction false} CutAt(rows: seq<string>, w: nat, h: nat, i: nat)
    requires i < Min(h, |rows|)
    ensures Cut(rows, w, h)[i] == rows[i][..Min(w, |rows[i]|)]
  {
    if i > 0 {
      CutAt(rows[1..], w, h - 1, i - 1);
    }
  }

  /** The rows `get_subgrid` collects before flattening them. */
  function WindowRows(g: Grid, x: nat, y: nat, w: nat, h: nat): seq<string>
    requires g.width > 0
  {
    Cut(Chunks(Skip(g.source, RowMajor(y, g.width, x)), g.width), w, h)
  }

  /** `get_subgrid(x, y, w, h)`: skip to cell `(x, y)`, cut the rest into
      chunks of the grid's width, keep the first `w` letters of each of the
      first `h` chunks. The program asserts that this gives `w * h`
      letters; `None` where that assertion fails. */
  function GetSubgrid(g: Grid, x: nat, y: nat, w: nat, h: nat): (r: Option<Grid>)
    requires g.width > 0
    ensures r.Some? ==> WellFormed(r.value) && r.value.width == w && r.value.height == h
  {
    var source := Flatten(WindowRows(g, x, y, w, h));
    if |source| == w * h then Some(Grid(source, w, h)) else None
  }

  /** Row `i` of a window inside the grid is the `w` letters of grid row
      `y + i` from column `x`. */
  lemma ExtractRow(g: Grid, x: nat, y: nat, w: nat, h: nat, i: nat)
    requires WellFormed(g) && g.width > 0
    requires 0 < w && x + w <= g.width && y + h <= g.height && i < h
    ensures |WindowRows(g, x, y, w, h)| == h
    ensures x + (y + i) * g.width + w <= |g.source|
    ensures WindowRows(g, x, y, w, h)[i] == g.source[x + (y + i) * g.width .. x + (y + i) * g.width + w]
  {
    var W := g.width;
    var start, last, p, q := RowBounds(x, y, w, h, i, W, g.height);
    var rest := g.source[start..];
    RowMajorIndex(y, W, x);
    assert Skip(g.source, RowMajor(y, W, x)) == rest;
    var rows := Chunks(rest, W);
    ChunkAt(rest, W, h - 1);
    ChunkAt(rest, W, i);
    PrefixOfSlice(g.source, start, p, q, w, rows[i]);
    assert WindowRows(g, x, y, w, h) == Cut(rows, w, h);
    assert Min(w, |rows[i]|) == w;
    CutAt(rows, w, h, i);
  }

  /** Where row `i` of the window at `(x, y)` lies: the text from cell
      `(x, y)` has at least `h` chunks, and chunk `i` runs from `p` to `q`
      in it and begins at cell `(x, y + i)`. */
  lemma RowBounds(x: nat, y: nat, w: nat, h: nat, i: nat, W: nat, H: nat)
    returns (start: nat, last: nat, p: nat, q: nat)
    requires 0 < w && x + w <= W && y + h <= H && i < h
    ensures start == x + y * W && start <= W * H
    ensures last == (h - 1) * W && last < W * H - start
    ensures p == i * W && p < W * H - start
    ensures q == Min((i + 1) * W, W * H - start) && p + w <= q
    ensures start + p == x + (y + i) * W && start + p + w <= W * H
  {
    ChunkIndex(x, y, h - 1, W, H);
    ChunkIndex(x, y, i, W, H);
    MulSucc(i, W);
    RowSpan(x, w, y + i, W, H);
    start, last, p, q := x + y * W, (h - 1) * W, i * W, Min((i + 1) * W, W * H - (x + y * W));
  }

  lemma PrefixOfSlice<T>(s: seq<T>, start: nat, p: nat, q: nat, w: nat, t: seq<T>)
    requires start <= |s| && p + w <= q <= |s| - start && t == s[start..][p..q]
    ensures |t| >= w && t[..w] == s[start + p .. start + p + w]
  {
    assert t == s[start + p .. start + q];
  }

  /** Chunk `i` of the text from cell `(x, y)` starts at cell `(x, y + i)`. */
  lemma ChunkIndex(x: nat, y: nat, i: nat, W: nat, H: nat)
    requires x < W && y + i < H
    ensures x + (y + i) * W == x + y * W + i * W
    ensures i * W < W * H - (x + y * W)
  {
    CellIndex(x, y + i, W, H);
  }

  /** A window that sticks out of the grid (with both sides at least 1)
      fails the program's length assertion. */
  lemma SubgridTooLarge(g: Grid, w: nat, h: nat)
    requires WellFormed(g) && g.width > 0
    requires w > 0 && h > 0 && (w > g.width || h > g.height)
    ensures GetSubgrid(g, 0, 0, w, h).None?
  {
    var rows := Chunks(g.source, g.width);
    assert Skip(g.source, RowMajor(0, g.width, 0)) == g.source;
    ChunksExact(g.source, g.width, g.height);
    var cut := Cut(rows, w, h);
    assert cut == WindowRows(g, 0, 0, w, h);
    var a, b := Min(h, g.height), Min(w, g.width);
    assert |Flatten(cut)| <= a * b by {
      forall i | 0 <= i < |cut|
        ensures |cut[i]| <= b
      {
        CutAt(rows, w, h, i);
      }
      FlattenBounded(cut, b);
    }
    assert a * b < w * h by {
      SmallerProduct(a, b, h, w);
    }
  }

  lemma SmallerProduct(a: nat, b: nat, h: nat, w: nat)
    requires a <= h && b <= w && (a < h || b < w) && 0 < h && 0 < w
    ensures a * b < w * h
  {
    if a < h {
      MulMono(b, w, a);
      MulMono(a + 1, h, w);
      MulSucc(a, w);
    } else {
      MulMono(b + 1, w, a);
      MulSucc(b, a);
    }
  }

  /** State of `SubgridIter`: the window size, the next top-left corner
      `(x, y)` and whether the iteration has finished. */
  datatype SubgridIter = SubgridIter(grid: Grid, width: nat, height: nat, x: nat, y: nat, finished: bool)

  function IterSubgrid(g: Grid, w: nat, h: nat): SubgridIter
  {
    SubgridIter(g, w, h, 0, 0, false)
  }

  /** `move_next`: one column right, or back to column 0 one row down when
      the window would stick out; finished once it sticks out at the bottom. */
  function MoveNext(it: SubgridIter): (r: SubgridIter)
    ensures r.grid == it.grid && r.width == it.width && r.height == it.height
    ensures it.x + 1 + it.width <= it.grid.width ==> r.x == it.x + 1 && r.y == it.y
    ensures it.x + 1 + it.width > it.grid.width ==> r.x == 0 && r.y == it.y + 1
    ensures r.finished <==> it.finished || r.y + it.height > it.grid.height
  {
    var x := it.x + 1;
    var it1 := if x + it.width > it.grid.width then it.(x := 0, y := it.y + 1) else it.(x := x);
    if it1.y + it1.height > it1.grid.height then it1.(finished := true) else it1
  }

  /** What one call of `next` does. */
  datatype Yield = Exhausted | Yielded(window: Grid, after: SubgridIter) | Aborted

  function Next(it: SubgridIter): Yield
    requires it.grid.width > 0
  {
    if it.finished then Exhausted
    else match GetSubgrid(it.grid, it.x, it.y, it.width, it.height)
      case None => Aborted
      case Some(window) => Yielded(window, MoveNext(it))
  }

  /** Draining the iterator into a list (`collect_vec`); `None` where a
      window extraction aborts. */
  function Collect(it: SubgridIter): Option<seq<Grid>>
    requires it.grid.width > 0
    decreases if it.finished then 0 else 1,
      if it.y <= it.grid.height then it.grid.height + 1 - it.y else 0,
      if it.x <= it.grid.width then it.grid.width + 1 - it.x else 0
  {
    match Next(it)
    case Exhausted => Some([])
    case Aborted => None
    case Yielded(window, after) =>
      match Collect(after)
      case None => None
      case Some(rest) => Some([window] + rest)
  }

  /** The windows of size `w` by `h`, in the order the iterator yields them. */
  function Windows(g: Grid, w: nat, h: nat): (r: Option<seq<Grid>>)
    requires g.width > 0
    ensures r.Some? ==> forall i :: 0 <= i < |r.value| ==> r.value[i].width == w && r.value[i].height == h
  {
    CollectShape(IterSubgrid(g, w, h));
    Collect(IterSubgrid(g, w, h))
  }

  /** Every window the iterator yields has the iterator's size. */
  lemma {:induction false} CollectShape(it: SubgridIter)
    requires it.grid.width > 0
    ensures Collect(it).Some? ==>
      forall i :: 0 <= i < |Collect(it).value| ==> Collect(it).value[i].width == it.width && Collect(it).value[i].height == it.height
    decreases if it.finished then 0 else 1,
      if it.y <= it.grid.height then it.grid.height + 1 - it.y else 0,
      if it.x <= it.grid.width then it.grid.width + 1 - it.x else 0
  {
    match Next(it)
    case Exhausted =>
    case Aborted =>
    case Yielded(window, after) =>
      CollectShape(after);
  }

  /** The `w` letters of grid row `y` from column `x`. */
  function RowSlice(g: Grid, x: nat, y: nat, w: nat): (r: string)
    requires WellFormed(g) && x + w <= g.width && y < g.height
    ensures |r| == w
  {
    RowSpan(x, w, y, g.width, g.height);
    g.source[x + y * g.width .. x + y * g.width + w]
  }

  /** Reference rows of the window at `(x, y)`: grid rows `y` to `y + h - 1`,
      each cut to columns `x` to `x + w - 1`. */
  function Block(g: Grid, x: nat, y: nat, w: nat, h: nat): (r: seq<string>)
    requires WellFormed(g) && x + w <= g.width && y + h <= g.height
    ensures |r| == h
  {
    if h == 0 then [] else Block(g, x, y, w, h - 1) + [RowSlice(g, x, y + h - 1, w)]
  }

  lemma {:induction false} BlockAt(g: Grid, x: nat, y: nat, w: nat, h: nat, i: nat)
    requires WellFormed(g) && x + w <= g.width && y + h <= g.height && i < h
    ensures Block(g, x, y, w, h)[i] == RowSlice(g, x, y + i, w)
  {
    if i < h - 1 {
      BlockAt(g, x, y, w, h - 1, i);
    }
  }

  /** `get_subgrid` collects exactly the reference rows of a window inside
      the grid. */
  lemma BlockIsWindowRows(g: Grid, x: nat, y: nat, w: nat, h: nat)
    requires WellFormed(g) && g.width > 0
    requires 0 < w && x + w <= g.width && y + h <= g.height
    ensures WindowRows(g, x, y, w, h) == Block(g, x, y, w, h)
  {
    var rows, block := WindowRows(g, x, y, w, h), Block(g, x, y, w, h);
    if h > 0 {
      ExtractRow(g, x, y, w, h, 0);
      forall i | 0 <= i < h
        ensures rows[i] == block[i]
      {
        ExtractRow(g, x, y, w, h, i);
        BlockAt(g, x, y, w, h, i);
      }
    } else {
      assert |rows| == 0;
    }
  }

  /** Cell `(j, i)` of the reference rows, glued together, is the grid's
      cell `(x + j, y + i)`. */
  lemma BlockCell(g: Grid, x: nat, y: nat, w: nat, h: nat, j: nat, i: nat)
    requires WellFormed(g) && x + w <= g.width && y + h <= g.height && j < w && i < h
    ensures |Flatten(Block(g, x, y, w, h))| == h * w
    ensures i * w + j < h * w
    ensures Flatten(Block(g, x, y, w, h))[i * w + j] == Cell(g, x + j, y + i)
  {
    var block := Block(g, x, y, w, h);
    BlockShape(g, x, y, w, h);
    FlattenUniformLength(block, w);
    FlattenUniformAt(block, w, i, j);
    BlockAt(g, x, y, w, h, i);
    RowSliceAt(g, x, y + i, w, j);
  }

  /** Letter `j` of a row slice is the grid's cell `(x + j, y)`. */
  lemma RowSliceAt(g: Grid, x: nat, y: nat, w: nat, j: nat)
    requires WellFormed(g) && x + w <= g.width && y < g.height && j < w
    ensures RowSlice(g, x, y, w)[j] == Cell(g, x + j, y)
  {
    var a := x + y * g.width;
    RowSpan(x, w, y, g.width, g.height);
    SliceAt(g.source, a, w, RowSlice(g, x, y, w), j);
  }

  lemma BlockShape(g: Grid, x: nat, y: nat, w: nat, h: nat)
    requires WellFormed(g) && x + w <= g.width && y + h <= g.height
    ensures forall k :: 0 <= k < h ==> |Block(g, x, y, w, h)[k]| == w
  {
    forall k | 0 <= k < h
      ensures |Block(g, x, y, w, h)[k]| == w
    {
      BlockAt(g, x, y, w, h, k);
    }
  }

  lemma SliceAt<T>(s: seq<T>, a: nat, w: nat, t: seq<T>, j: nat)
    requires a + w <= |s| && t == s[a .. a + w] && j < w
    ensures |t| == w && a + j < |s| && t[j] == s[a + j]
  {
  }

  /** The window of size `w` by `h` at `(x, y)`, for a window inside the
      grid, read row by row off the grid. */
  function Window(g: Grid, x: nat, y: nat, w: nat, h: nat): (r: Grid)
    requires WellFormed(g)
    requires 0 < w && 0 < h && x + w <= g.width && y + h <= g.height
    ensures WellFormed(r) && r.width == w && r.height == h
    ensures forall j, i :: 0 <= j < w && 0 <= i < h ==> Cell(r, j, i) == Cell(g, x + j, y + i)
  {
    var r := Grid(Flatten(Block(g, x, y, w, h)), w, h);
    BlockCell(g, x, y, w, h, 0, 0);
    assert h * w == w * h;
    forall j, i | 0 <= j < w && 0 <= i < h
      ensures Cell(r, j, i) == Cell(g, x + j, y + i)
    {
      BlockCell(g, x, y, w, h, j, i);
      assert j + i * w == i * w + j;
    }
    r
  }

  /** `get_subgrid` on a window inside the grid gives the reference window. */
  lemma SubgridIsWindow(g: Grid, x: nat, y: nat, w: nat, h: nat)
    requires WellFormed(g) && g.width > 0
    requires 0 < w && 0 < h && x + w <= g.width && y + h <= g.height
    ensures GetSubgrid(g, x, y, w, h) == Some(Window(g, x, y, w, h))
  {
    BlockIsWindowRows(g, x, y, w, h);
    BlockCell(g, x, y, w, h, 0, 0);
    assert h * w == w * h;
  }

  /** One step of the iterator from a corner inside the grid. */
  lemma NextInside(it: SubgridIter)
    requires WellFormed(it.grid) && it.grid.width > 0
    requires 0 < it.width && 0 < it.height && it.x + it.width <= it.grid.width && it.y + it.height <= it.grid.height
    requires !it.finished
    ensures Next(it) == Yielded(Window(it.grid, it.x, it.y, it.width, it.height), MoveNext(it))
  {
    SubgridIsWindow(it.grid, it.x, it.y, it.width, it.height);
  }

  /** Reference enumeration: the windows of row `y` from column `x` on ... */
  function RowWindows(g: Grid, w: nat, h: nat, x: nat, y: nat): (r: seq<Grid>)
    requires WellFormed(g) && g.width > 0 && 0 < w && 0 < h && y + h <= g.height
    ensures |r| == if x + w <= g.width then g.width - w + 1 - x else 0
    ensures forall i :: 0 <= i < |r| ==> r[i].width == w && r[i].height == h
    decreases g.width - x
  {
    if x + w > g.width then []
    else
      [Window(g, x, y, w, h)] + RowWindows(g, w, h, x + 1, y)
  }

  /** The windows of a row from column `x` on: the one at `x`, then the rest. */
  lemma RowWindowsCons(g: Grid, w: nat, h: nat, x: nat, y: nat)
    requires WellFormed(g) && g.width > 0 && 0 < w && 0 < h && y + h <= g.height
    requires x + w <= g.width
    ensures RowWindows(g, w, h, x, y) == [Window(g, x, y, w, h)] + RowWindows(g, w, h, x + 1, y)
  {
  }

  /** ... and of all rows from `y` on, in row-major order. */
  function AllWindows(g: Grid, w: nat, h: nat, y: nat): (r: seq<Grid>)
    requires WellFormed(g) && g.width > 0 && 0 < w <= g.width && 0 < h
    ensures forall i :: 0 <= i < |r| ==> r[i].width == w && r[i].height == h
    decreases g.height - y
  {
    if y + h > g.height then []
    else RowWindows(g, w, h, 0, y) + AllWindows(g, w, h, y + 1)
  }

  /** There are `(H - h + 1 - y) * (W - w + 1)` windows from row `y` on. */
  lemma {:induction false} AllWindowsCount(g: Grid, w: nat, h: nat, y: nat)
    requires WellFormed(g) && g.width > 0 && 0 < w <= g.width && 0 < h
    ensures |AllWindows(g, w, h, y)| == if y + h <= g.height then (g.height - h + 1 - y) * (g.width - w + 1) else 0
    decreases g.height - y
  {
    if y + h <= g.height {
      AllWindowsCount(g, w, h, y + 1);
      var n := g.width - w + 1;
      assert (g.height - h + 1 - y) * n == n + (g.height - h - y) * n;
    }
  }

  /** Row-major order: the window at `(x, y)` is entry `y * (W - w + 1) + x`. */
  lemma {:induction false} AllWindowsAt(g: Grid, w: nat, h: nat, y0: nat, x: nat, y: nat)
    requires WellFormed(g) && g.width > 0 && 0 < w <= g.width && 0 < h
    requires y0 <= y && y + h <= g.height && x + w <= g.width
    ensures RowMajor(y - y0, g.width - w + 1, x) < |AllWindows(g, w, h, y0)|
    ensures AllWindows(g, w, h, y0)[RowMajor(y - y0, g.width - w + 1, x)] == Window(g, x, y, w, h)
    decreases y - y0
  {
    var n := g.width - w + 1;
    AllWindowsSplit(g, w, h, y0);
    if y == y0 {
      RowWindowsAt(g, w, h, 0, x, y0);
      PickFirst(AllWindows(g, w, h, y0), RowWindows(g, w, h, 0, y0), AllWindows(g, w, h, y0 + 1), x, Window(g, x, y, w, h));
    } else {
      AllWindowsAt(g, w, h, y0 + 1, x, y);
      PickLater(AllWindows(g, w, h, y0), RowWindows(g, w, h, 0, y0), AllWindows(g, w, h, y0 + 1),
                RowMajor(y - y0, n, x), RowMajor(y - (y0 + 1), n, x), Window(g, x, y, w, h));
    }
  }

  /** The windows from row `y` on: those of row `y`, then the rest. */
  lemma AllWindowsSplit(g: Grid, w: nat, h: nat, y: nat)
    requires WellFormed(g) && g.width > 0 && 0 < w <= g.width && 0 < h && y + h <= g.height
    ensures AllWindows(g, w, h, y) == RowWindows(g, w, h, 0, y) + AllWindows(g, w, h, y + 1)
    ensures |RowWindows(g, w, h, 0, y)| == g.width - w + 1
  {
  }

  lemma PickFirst<T>(ws: seq<T>, row: seq<T>, rest: seq<T>, i: nat, v: T)
    requires ws == row + rest && i < |row| && row[i] == v
    ensures i < |ws| && ws[i] == v
  {
  }

  lemma PickLater<T>(ws: seq<T>, row: seq<T>, rest: seq<T>, i: nat, k: nat, v: T)
    requires ws == row + rest && i == |row| + k && k < |rest| && rest[k] == v
    ensures i < |ws| && ws[i] == v
  {
  }

  lemma {:induction false} RowWindowsAt(g: Grid, w: nat, h: nat, x0: nat, x: nat, y: nat)
    requires WellFormed(g) && g.width > 0 && 0 < w && 0 < h && y + h <= g.height
    requires x0 <= x && x + w <= g.width
    ensures x - x0 < |RowWindows(g, w, h, x0, y)|
    ensures RowWindows(g, w, h, x0, y)[x - x0] == Window(g, x, y, w, h)
    decreases x - x0
  {
    if x > x0 {
      RowWindowsAt(g, w, h, x0 + 1, x, y);
    }
  }

  /** The iterator, from any corner inside the grid, yields the rest of that
      row and then every later row. */
  lemma {:induction false} CollectFrom(it: SubgridIter)
    requires WellFormed(it.grid) && it.grid.width > 0
    requires 0 < it.width && 0 < it.height && it.x + it.width <= it.grid.width && it.y + it.height <= it.grid.height
    requires !it.finished
    ensures Collect(it) == Some(RowWindows(it.grid, it.width, it.height, it.x, it.y)
                                + AllWindows(it.grid, it.width, it.height, it.y + 1))
    decreases it.grid.height - it.y, it.grid.width - it.x, 1
  {
    if it.x + 1 + it.width > it.grid.width {
      CollectRowEnd(it);
    } else {
      CollectMidRow(it);
    }
  }

  /** The last window of a row is followed by the next row, if any. */
  lemma {:induction false} CollectRowEnd(it: SubgridIter)
    requires WellFormed(it.grid) && it.grid.width > 0
    requires 0 < it.width && 0 < it.height && it.x + it.width <= it.grid.width && it.y + it.height <= it.grid.height
    requires !it.finished && it.x + 1 + it.width > it.grid.width
    ensures Collect(it) == Some(RowWindows(it.grid, it.width, it.height, it.x, it.y)
                                + AllWindows(it.grid, it.width, it.height, it.y + 1))
    decreases it.grid.height - it.y, it.grid.width - it.x, 0
  {
    var g, w, h, x, y := it.grid, it.width, it.height, it.x, it.y;
    var window := Window(g, x, y, w, h);
    var after := MoveNext(it);
    NextInside(it);
    RowWindowsLast(g, w, h, x, y);
    if after.finished {
      AllWindowsNone(g, w, h, y + 1);
      CollectStep(it, window, after, []);
      assert [window] + [] == RowWindows(g, w, h, x, y) + [];
    } else {
      assert after == SubgridIter(g, w, h, 0, y + 1, false);
      CollectFrom(after);
      AllWindowsSplit(g, w, h, y + 1);
      CollectStep(it, window, after, AllWindows(g, w, h, y + 1));
      assert [window] == RowWindows(g, w, h, x, y);
    }
  }

  /** The last window of a row is the only one from its column on. */
  lemma RowWindowsLast(g: Grid, w: nat, h: nat, x: nat, y: nat)
    requires WellFormed(g) && g.width > 0 && 0 < w && 0 < h && y + h <= g.height
    requires x + w <= g.width && x + 1 + w > g.width
    ensures RowWindows(g, w, h, x, y) == [Window(g, x, y, w, h)]
  {
    assert RowWindows(g, w, h, x + 1, y) == [];
  }

  /** No windows start below the last row that fits one. */
  lemma AllWindowsNone(g: Grid, w: nat, h: nat, y: nat)
    requires WellFormed(g) && g.width > 0 && 0 < w <= g.width && 0 < h && y + h > g.height
    ensures AllWindows(g, w, h, y) == []
  {
  }

  /** Inside a row, the window at `(x, y)` comes before those further right. */
  lemma {:induction false} CollectMidRow(it: SubgridIter)
    requires WellFormed(it.grid) && it.grid.width > 0
    requires 0 < it.width && 0 < it.height && it.x + it.width <= it.grid.width && it.y + it.height <= it.grid.height
    requires !it.finished && it.x + 1 + it.width <= it.grid.width
    ensures Collect(it) == Some(RowWindows(it.grid, it.width, it.height, it.x, it.y)
                                + AllWindows(it.grid, it.width, it.height, it.y + 1))
    decreases it.grid.height - it.y, it.grid.width - it.x, 0
  {
    var g, w, h, x, y := it.grid, it.width, it.height, it.x, it.y;
    var window := Window(g, x, y, w, h);
    var after := MoveNext(it);
    NextInside(it);
    var later := AllWindows(g, w, h, y + 1);
    var row := RowWindows(g, w, h, x + 1, y);
    assert RowWindows(g, w, h, x, y) + later == [window] + (row + later) by {
      assert RowWindows(g, w, h, x, y) == [window] + row;
    }
    assert !after.finished && after.x == x + 1 && after.y == y;
    CollectFrom(after);
    CollectStep(it, window, after, row + later);
  }

  /** One step of draining: the yielded window comes first. */
  lemma CollectStep(it: SubgridIter, window: Grid, after: SubgridIter, rest: seq<Grid>)
    requires it.grid.width > 0 && after.grid.width > 0
    requires Next(it) == Yielded(window, after) && Collect(after) == Some(rest)
    ensures Collect(it) == Some([window] + rest)
  {
  }

  /** `iter_subgrid(w, h)` yields every window that fits, row by row,
      `(W - w + 1) * (H - h + 1)` of them. */
  lemma WindowsEnumerated(g: Grid, w: nat, h: nat)
    requires WellFormed(g) && g.width > 0
    requires 0 < w <= g.width && 0 < h <= g.height
    ensures Windows(g, w, h) == Some(AllWindows(g, w, h, 0))
    ensures |AllWindows(g, w, h, 0)| == (g.width - w + 1) * (g.height - h + 1)
  {
    CollectFrom(IterSubgrid(g, w, h));
    AllWindowsCount(g, w, h, 0);
  }

  /** A window size larger than the grid makes the very first extraction abort. */
  lemma WindowsTooLarge(g: Grid, w: nat, h: nat)
    requires WellFormed(g) && g.width > 0
    requires w > 0 && h > 0 && (w > g.width || h > g.height)
    ensures Windows(g, w, h).None?
  {
    SubgridTooLarge(g, w, h);
  }
}
