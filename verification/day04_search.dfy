/** Day 4 word search: counting "XMAS" along rows, columns and the
    diagonals of 4 by 4 windows (part 1), and the X-shaped pairs of "MAS"
    in 3 by 3 windows (part 2). */
module Day04Search {
  import opened Common
  import opened Day04Grid

  /** Whether `p` occurs in `s` starting at position `i`. */
  predicate OccursAt(s: string, p: string, i: nat)
  {
    i + |p| <= |s| && s[i..i + |p|] == p
  }

  /** `s.matches(p).count()`: the matches found scanning left to right,
      each search resuming right after the previous match, so matches never
      overlap. */
  function MatchCount(s: string, p: string): nat
    requires |p| > 0
    decreases |s|
  {
    if |s| < |p| then 0
    else if s[..|p|] == p then 1 + MatchCount(s[|p|..], p)
    else MatchCount(s[1..], p)
  }

  /** Reference count: every position at which `p` occurs. */
  function Occurrences(s: string, p: string): nat
    decreases |s|
  {
    if |s| == 0 then 0
    else (if OccursAt(s, p, 0) then 1 else 0) + Occurrences(s[1..], p)
  }

  lemma {:induction false} OccurrencesShort(s: string, p: string)
    requires |s| < |p|
    ensures Occurrences(s, p) == 0
    decreases |s|
  {
    if |s| > 0 {
      OccurrencesShort(s[1..], p);
    }
  }

  /** Dropping a prefix never adds occurrences. */
  lemma {:induction false} OccurrencesSuffix(s: string, p: string, i: nat)
    requires i <= |s|
    ensures Occurrences(s[i..], p) <= Occurrences(s, p)
    decreases i
  {
    if i > 0 {
      OccurrencesSuffix(s[1..], p, i - 1);
      assert s[1..][i - 1..] == s[i..];
    }
  }

  /** Non-overlapping matching finds at most every occurrence ... */
  lemma {:induction false} MatchCountAtMost(s: string, p: string)
    requires |p| > 0
    ensures MatchCount(s, p) <= Occurrences(s, p)
    decreases |s|
  {
    if |s| < |p| {
    } else if s[..|p|] == p {
      MatchCountAtMost(s[|p|..], p);
      OccurrencesSuffix(s[1..], p, |p| - 1);
      assert s[1..][|p| - 1..] == s[|p|..];
    } else {
      MatchCountAtMost(s[1..], p);
    }
  }

  /** ... and fewer when occurrences overlap. */
  lemma OverlapExample(s: string, p: string)
    requires s == "AAA" && p == "AA"
    ensures MatchCount(s, p) == 1 && Occurrences(s, p) == 2
  {
    assert s[..2] == p && s[2..] == "A";
    assert OccursAt(s, p, 0);
    assert s[1..] == p && OccursAt(s[1..], p, 0);
    assert s[1..][1..] == "A";
    OccurrencesShort("A", p);
  }

  /** No proper suffix of `p` is also a prefix of it, so two occurrences
      of `p` can never overlap. */
  predicate BorderFree(p: string)
  {
    forall k :: 0 < k < |p| ==> p[k..] != p[..|p| - k]
  }

  /** A word whose first letter does not occur again is border-free. */
  lemma FirstLetterUnique(p: string)
    requires forall k :: 0 < k < |p| ==> p[k] != p[0]
    ensures BorderFree(p)
  {
    forall k | 0 < k < |p|
      ensures p[k..] != p[..|p| - k]
    {
      assert p[k..][0] == p[k] && p[..|p| - k][0] == p[0];
    }
  }

  lemma WordsBorderFree()
    ensures BorderFree("XMAS") && BorderFree("SAMX")
  {
    FirstLetterUnique("XMAS");
    FirstLetterUnique("SAMX");
  }

  /** Right after an occurrence of a border-free word, no occurrence starts
      inside it. */
  lemma NoOverlap(s: string, p: string, k: nat)
    requires BorderFree(p) && OccursAt(s, p, 0) && 0 < k < |p|
    ensures !OccursAt(s, p, k)
  {
    if k + |p| <= |s| {
      assert p[k..] == s[k..|p|];
      assert s[k..k + |p|][..|p| - k] == s[k..|p|];
    }
  }

  lemma {:induction false} OccurrencesSkip(s: string, p: string, k: nat)
    requires BorderFree(p) && OccursAt(s, p, 0) && 1 <= k <= |p|
    ensures Occurrences(s[k..], p) == Occurrences(s[|p|..], p)
    decreases |p| - k
  {
    if k < |p| {
      NoOverlap(s, p, k);
      assert !OccursAt(s[k..], p, 0) by {
        if k + |p| <= |s| {
          assert s[k..][0..|p|] == s[k..k + |p|];
        }
      }
      assert s[k..][1..] == s[k + 1..];
      OccurrencesSkip(s, p, k + 1);
    }
  }

  /** For a border-free word, non-overlapping matching finds every
      occurrence. */
  lemma {:induction false} MatchCountBorderFree(s: string, p: string)
    requires |p| > 0 && BorderFree(p)
    ensures MatchCount(s, p) == Occurrences(s, p)
    decreases |s|
  {
    if |s| < |p| {
      OccurrencesShort(s, p);
    } else if s[..|p|] == p {
      MatchCountBorderFree(s[|p|..], p);
      assert OccursAt(s, p, 0);
      OccurrencesSkip(s, p, 1);
    } else {
      MatchCountBorderFree(s[1..], p);
    }
  }

  /** Matches of "XMAS" and of its reverse in one line. */
  function WordCount(line: string): nat
  {
    MatchCount(line, "XMAS") + MatchCount(line, "SAMX")
  }

  function SumCounts(lines: seq<string>): nat
  {
    if |lines| == 0 then 0 else WordCount(lines[0]) + SumCounts(lines[1..])
  }

  /** Reference: occurrences of "XMAS" and "SAMX" over all lines. */
  function SumOccurrences(lines: seq<string>): nat
  {
    if |lines| == 0 then 0
    else Occurrences(lines[0], "XMAS") + Occurrences(lines[0], "SAMX") + SumOccurrences(lines[1..])
  }

  /** Because "XMAS" and "SAMX" are border-free, the line counts are the
      occurrence counts. */
  lemma {:induction false} SumCountsOccurrences(lines: seq<string>)
    ensures SumCounts(lines) == SumOccurrences(lines)
  {
    if |lines| > 0 {
      WordsBorderFree();
      MatchCountBorderFree(lines[0], "XMAS");
      MatchCountBorderFree(lines[0], "SAMX");
      SumCountsOccurrences(lines[1..]);
    }
  }

  /** Whether a diagonal spells "XMAS" either way round. */
  function Hit(diagonal: string): nat
  {
    if diagonal == "XMAS" || diagonal == "SAMX" then 1 else 0
  }

  function WindowHits(window: Grid): nat
    requires window.width >= 2
  {
    Hit(GetDiagonal(window, Dexter)) + Hit(GetDiagonal(window, Sinister))
  }

  /** The diagonal count: each window's two diagonals are checked on their own. */
  function DiagonalHits(windows: seq<Grid>): nat
    requires forall i :: 0 <= i < |windows| ==> windows[i].width >= 2
  {
    if |windows| == 0 then 0 else WindowHits(windows[0]) + DiagonalHits(windows[1..])
  }

  lemma {:induction false} DiagonalHitsAppend(a: seq<Grid>, b: seq<Grid>)
    requires forall i :: 0 <= i < |a| ==> a[i].width >= 2
    requires forall i :: 0 <= i < |b| ==> b[i].width >= 2
    ensures DiagonalHits(a + b) == DiagonalHits(a) + DiagonalHits(b)
  {
    if |a| == 0 {
      assert a + b == b;
    } else {
      DiagonalHitsAppend(a[1..], b);
      assert (a + b)[1..] == a[1..] + b;
    }
  }

  /** Part 1 on a parsed grid, as written: rows, columns cut to `width`
      letters, window diagonals. Chunking a zero-wide grid and a grid
      smaller than 4 by 4 both abort. */
  function SolvePart1(g: Grid): Option<nat>
    requires WellFormed(g)
  {
    if g.width == 0 then None
    else match Windows(g, 4, 4)
      case None => None
      case Some(windows) => Some(SumCounts(Horizontals(g)) + SumCounts(Verticals(g)) + DiagonalHits(windows))
  }

  /** Part 1 with whole columns. */
  function SolvePart1Corrected(g: Grid): Option<nat>
    requires WellFormed(g)
  {
    if g.width == 0 then None
    else match Windows(g, 4, 4)
      case None => None
      case Some(windows) => Some(SumCounts(Horizontals(g)) + SumCounts(Columns(g)) + DiagonalHits(windows))
  }

  /** `solve_part_1`: `None` where parsing aborts. */
  function Part1(lines: seq<string>): Option<nat>
  {
    match Parse(lines)
    case None => None
    case Some(g) => SolvePart1(g)
  }

  function Part1Corrected(lines: seq<string>): Option<nat>
  {
    match Parse(lines)
    case None => None
    case Some(g) => SolvePart1Corrected(g)
  }

  /** Reference diagonal of the `n` by `n` square at `(x, y)`, read straight
      off the grid. */
  function DiagonalWord(g: Grid, x: nat, y: nat, n: nat, d: Diagonal): (r: string)
    requires WellFormed(g) && x + n <= g.width && y + n <= g.height
    ensures |r| == n
  {
    seq(n, k requires 0 <= k < n =>
      if d.Dexter? then Cell(g, x + k, y + k) else Cell(g, x + n - 1 - k, y + k))
  }

  /** A window's diagonal is the grid's diagonal through the same cells. */
  lemma WindowDiagonal(g: Grid, x: nat, y: nat, n: nat, d: Diagonal)
    requires WellFormed(g) && 2 <= n && x + n <= g.width && y + n <= g.height
    ensures GetDiagonal(Window(g, x, y, n, n), d) == DiagonalWord(g, x, y, n, d)
  {
    var window := Window(g, x, y, n, n);
    var r, word := GetDiagonal(window, d), DiagonalWord(g, x, y, n, d);
    forall k | 0 <= k < n
      ensures r[k] == word[k]
    {
      if d.Dexter? {
        assert r[k] == Cell(window, k, k);
      } else {
        assert r[k] == Cell(window, n - 1 - k, k);
      }
    }
  }

  /** Hits of the 4 by 4 square at `(x, y)`, from the grid's own cells. */
  function SquareHits(g: Grid, x: nat, y: nat): nat
    requires WellFormed(g) && x + 4 <= g.width && y + 4 <= g.height
  {
    Hit(DiagonalWord(g, x, y, 4, Dexter)) + Hit(DiagonalWord(g, x, y, 4, Sinister))
  }

  /** Reference diagonal count: every square of row `y` from column `x` on ... */
  function RowSquareHits(g: Grid, x: nat, y: nat): nat
    requires WellFormed(g) && y + 4 <= g.height
    decreases g.width - x
  {
    if x + 4 > g.width then 0 else SquareHits(g, x, y) + RowSquareHits(g, x + 1, y)
  }

  /** ... and of every row from `y` on. */
  function GridSquareHits(g: Grid, y: nat): nat
    requires WellFormed(g)
    decreases g.height - y
  {
    if y + 4 > g.height then 0 else RowSquareHits(g, 0, y) + GridSquareHits(g, y + 1)
  }

  lemma {:induction false} RowWindowsHits(g: Grid, x: nat, y: nat)
    requires WellFormed(g) && 4 <= g.width && y + 4 <= g.height
    ensures DiagonalHits(RowWindows(g, 4, 4, x, y)) == RowSquareHits(g, x, y)
    decreases g.width - x
  {
    if x + 4 <= g.width {
      RowWindowsHits(g, x + 1, y);
      assert DiagonalHits(RowWindows(g, 4, 4, x + 1, y)) == RowSquareHits(g, x + 1, y);
      RowWindowsHitsStep(g, x, y);
    }
  }

  lemma RowWindowsHitsStep(g: Grid, x: nat, y: nat)
    requires WellFormed(g) && x + 4 <= g.width && y + 4 <= g.height
    requires DiagonalHits(RowWindows(g, 4, 4, x + 1, y)) == RowSquareHits(g, x + 1, y)
    ensures DiagonalHits(RowWindows(g, 4, 4, x, y)) == RowSquareHits(g, x, y)
  {
    var window := Window(g, x, y, 4, 4);
    var later := RowWindows(g, 4, 4, x + 1, y);
    RowWindowsCons(g, 4, 4, x, y);
    DiagonalHitsCons(window, later);
    WindowHitsAt(g, x, y);
  }

  lemma DiagonalHitsCons(window: Grid, later: seq<Grid>)
    requires window.width >= 2
    requires forall i :: 0 <= i < |later| ==> later[i].width >= 2
    ensures DiagonalHits([window] + later) == WindowHits(window) + DiagonalHits(later)
  {
    assert ([window] + later)[1..] == later;
  }

  /** The window at `(x, y)` scores what the square at `(x, y)` does. */
  lemma WindowHitsAt(g: Grid, x: nat, y: nat)
    requires WellFormed(g) && x + 4 <= g.width && y + 4 <= g.height
    ensures WindowHits(Window(g, x, y, 4, 4)) == SquareHits(g, x, y)
  {
    WindowDiagonal(g, x, y, 4, Dexter);
    WindowDiagonal(g, x, y, 4, Sinister);
  }

  lemma {:induction false} AllWindowsHits(g: Grid, y: nat)
    requires WellFormed(g) && 4 <= g.width
    ensures DiagonalHits(AllWindows(g, 4, 4, y)) == GridSquareHits(g, y)
    decreases g.height - y
  {
    if y + 4 <= g.height {
      RowWindowsHits(g, 0, y);
      AllWindowsHits(g, y + 1);
      DiagonalHitsAppend(RowWindows(g, 4, 4, 0, y), AllWindows(g, 4, 4, y + 1));
    }
  }

  /** Part 1 succeeds exactly on grids at least 4 by 4, and then counts
      every occurrence of "XMAS" or "SAMX" in the rows and the cut columns
      plus every diagonal of a 4 by 4 square that spells it. */
  lemma SolvePart1Counts(g: Grid)
    requires WellFormed(g)
    ensures SolvePart1(g).Some? <==> 4 <= g.width && 4 <= g.height
    ensures SolvePart1(g).Some? ==>
      SolvePart1(g).value == SumOccurrences(Horizontals(g)) + SumOccurrences(Verticals(g)) + GridSquareHits(g, 0)
  {
    if g.width > 0 {
      if 4 <= g.width && 4 <= g.height {
        WindowsEnumerated(g, 4, 4);
        AllWindowsHits(g, 0);
        SumCountsOccurrences(Horizontals(g));
        SumCountsOccurrences(Verticals(g));
      } else {
        WindowsTooLarge(g, 4, 4);
      }
    }
  }

  /** The corrected part 1 counts the whole columns instead. */
  lemma SolvePart1CorrectedCounts(g: Grid)
    requires WellFormed(g)
    ensures SolvePart1Corrected(g).Some? <==> 4 <= g.width && 4 <= g.height
    ensures SolvePart1Corrected(g).Some? ==>
      SolvePart1Corrected(g).value == SumOccurrences(Horizontals(g)) + SumOccurrences(Columns(g)) + GridSquareHits(g, 0)
  {
    if g.width > 0 {
      if 4 <= g.width && 4 <= g.height {
        WindowsEnumerated(g, 4, 4);
        AllWindowsHits(g, 0);
        SumCountsOccurrences(Horizontals(g));
        SumCountsOccurrences(Columns(g));
      } else {
        WindowsTooLarge(g, 4, 4);
      }
    }
  }

  /** The cut columns make no difference unless the grid is higher than wide. */
  lemma Part1AgreesWhenNotTall(g: Grid)
    requires WellFormed(g) && g.height <= g.width
    ensures SolvePart1(g) == SolvePart1Corrected(g)
  {
    VerticalsAreColumns(g);
  }

  lemma VerticalsAreColumns(g: Grid)
    requires WellFormed(g) && g.height <= g.width
    ensures Verticals(g) == Columns(g)
  {
    forall c | 0 <= c < g.width
      ensures Verticals(g)[c] == Columns(g)[c]
    {
      GetColumnPrefix(g, c);
    }
  }

  /** A 4 by 5 grid with "XMAS" down its first column, below a blank row:
      the column cut to 4 letters misses the word, the whole column has it. */
  lemma TallGridMissesColumn(g: Grid)
    requires g == Grid("....X...M...A...S...", 4, 5)
    ensures WordCount(Verticals(g)[0]) == 0
    ensures WordCount(Columns(g)[0]) == 1
  {
    TallGridFirstColumn(g);
    NoLetter(".XMA", "SAMX");
    SkipMismatch(".XMA", "XMAS");
    OneWord(".XMAS");
  }

  lemma TallGridFirstColumn(g: Grid)
    requires g == Grid("....X...M...A...S...", 4, 5)
    ensures GetColumn(g, 0) == ".XMA"
    ensures Column(g, 0) == ".XMAS"
  {
    assert WellFormed(g);
    var r, t := GetColumn(g, 0), Column(g, 0);
    assert r[0] == t[0] == g.source[0] && r[1] == t[1] == g.source[4];
    assert r[2] == t[2] == g.source[8] && r[3] == t[3] == g.source[12] && t[4] == g.source[16];
  }

  /** A line without the word's first letter holds no match. */
  lemma {:induction false} NoLetter(s: string, p: string)
    requires |p| > 0 && forall i :: 0 <= i < |s| ==> s[i] != p[0]
    ensures MatchCount(s, p) == 0
    decreases |s|
  {
    if |s| >= |p| {
      assert s[..|p|][0] != p[0];
      NoLetter(s[1..], p);
    }
  }

  /** ".XMA": the only candidate start is too close to the end. */
  lemma SkipMismatch(s: string, p: string)
    requires s == ".XMA" && p == "XMAS"
    ensures MatchCount(s, p) == 0
  {
    assert s[..4][0] != p[0];
    assert |s[1..]| < |p|;
  }

  lemma OneWord(s: string)
    requires s == ".XMAS"
    ensures WordCount(s) == 1
  {
    var p, q := "XMAS", "SAMX";
    assert s[..4][0] != p[0];
    assert s[1..] == p && s[1..][..4] == p && s[1..][4..] == [];
    assert MatchCount(s, p) == 1;
    assert s[..4][0] != q[0];
    var t := s[1..];
    assert t[..4][0] != q[0];
    assert t[1..] == "MAS";
    assert MatchCount(t[1..], q) == 0;
    assert MatchCount(t, q) == 0;
  }

  /** One of "MAS" and "SAM". */
  predicate IsMas(s: string)
  {
    s == "MAS" || s == "SAM"
  }

  /** Two letters that are an "M" and an "S" in either order. */
  predicate MandS(a: char, b: char)
  {
    (a == 'M' && b == 'S') || (a == 'S' && b == 'M')
  }

  lemma MasLetters(s: string)
    requires |s| == 3
    ensures IsMas(s) <==> s[1] == 'A' && MandS(s[0], s[2])
  {
    if s[1] == 'A' && MandS(s[0], s[2]) {
      assert s == [s[0], s[1], s[2]];
    }
  }

  /** A 3 by 3 window whose two diagonals both read "MAS" either way round. */
  predicate CrossWindow(window: Grid)
    requires window.width >= 2
  {
    IsMas(GetDiagonal(window, Dexter)) && IsMas(GetDiagonal(window, Sinister))
  }

  function CrossCount(windows: seq<Grid>): nat
    requires forall i :: 0 <= i < |windows| ==> windows[i].width >= 2
  {
    if |windows| == 0 then 0 else (if CrossWindow(windows[0]) then 1 else 0) + CrossCount(windows[1..])
  }

  lemma {:induction false} CrossCountAppend(a: seq<Grid>, b: seq<Grid>)
    requires forall i :: 0 <= i < |a| ==> a[i].width >= 2
    requires forall i :: 0 <= i < |b| ==> b[i].width >= 2
    ensures CrossCount(a + b) == CrossCount(a) + CrossCount(b)
  {
    if |a| == 0 {
      assert a + b == b;
    } else {
      CrossCountAppend(a[1..], b);
      assert (a + b)[1..] == a[1..] + b;
    }
  }

  /** Part 2 on a parsed grid; a grid smaller than 3 by 3 aborts. */
  function SolvePart2(g: Grid): Option<nat>
    requires WellFormed(g)
  {
    if g.width == 0 then None
    else match Windows(g, 3, 3)
      case None => None
      case Some(windows) => Some(CrossCount(windows))
  }

  /** `solve_part_2`: `None` where parsing aborts. */
  function Part2(lines: seq<string>): Option<nat>
  {
    match Parse(lines)
    case None => None
    case Some(g) => SolvePart2(g)
  }

  /** Reference: an "A" at `(x + 1, y + 1)` with an "M" and an "S" at the
      two ends of each diagonal through it. */
  predicate CrossAt(g: Grid, x: nat, y: nat)
    requires WellFormed(g) && x + 3 <= g.width && y + 3 <= g.height
  {
    && Cell(g, x + 1, y + 1) == 'A'
    && MandS(Cell(g, x, y), Cell(g, x + 2, y + 2))
    && MandS(Cell(g, x + 2, y), Cell(g, x, y + 2))
  }

  lemma CrossWindowAt(g: Grid, x: nat, y: nat)
    requires WellFormed(g) && x + 3 <= g.width && y + 3 <= g.height
    ensures CrossWindow(Window(g, x, y, 3, 3)) <==> CrossAt(g, x, y)
  {
    WindowDiagonal(g, x, y, 3, Dexter);
    WindowDiagonal(g, x, y, 3, Sinister);
    MasLetters(DiagonalWord(g, x, y, 3, Dexter));
    MasLetters(DiagonalWord(g, x, y, 3, Sinister));
  }

  function RowCrosses(g: Grid, x: nat, y: nat): nat
    requires WellFormed(g) && y + 3 <= g.height
    decreases g.width - x
  {
    if x + 3 > g.width then 0 else (if CrossAt(g, x, y) then 1 else 0) + RowCrosses(g, x + 1, y)
  }

  function GridCrosses(g: Grid, y: nat): nat
    requires WellFormed(g)
    decreases g.height - y
  {
    if y + 3 > g.height then 0 else RowCrosses(g, 0, y) + GridCrosses(g, y + 1)
  }

  lemma {:induction false} RowWindowsCrosses(g: Grid, x: nat, y: nat)
    requires WellFormed(g) && 3 <= g.width && y + 3 <= g.height
    ensures CrossCount(RowWindows(g, 3, 3, x, y)) == RowCrosses(g, x, y)
    decreases g.width - x
  {
    if x + 3 <= g.width {
      RowWindowsCrosses(g, x + 1, y);
      RowWindowsCrossesStep(g, x, y);
    }
  }

  lemma RowWindowsCrossesStep(g: Grid, x: nat, y: nat)
    requires WellFormed(g) && x + 3 <= g.width && y + 3 <= g.height
    requires CrossCount(RowWindows(g, 3, 3, x + 1, y)) == RowCrosses(g, x + 1, y)
    ensures CrossCount(RowWindows(g, 3, 3, x, y)) == RowCrosses(g, x, y)
  {
    var window := Window(g, x, y, 3, 3);
    var later := RowWindows(g, 3, 3, x + 1, y);
    RowWindowsCons(g, 3, 3, x, y);
    CrossCountCons(window, later);
    CrossWindowAt(g, x, y);
  }

  lemma CrossCountCons(window: Grid, later: seq<Grid>)
    requires window.width >= 2
    requires forall i :: 0 <= i < |later| ==> later[i].width >= 2
    ensures CrossCount([window] + later) == (if CrossWindow(window) then 1 else 0) + CrossCount(later)
  {
    assert ([window] + later)[1..] == later;
  }

  lemma {:induction false} AllWindowsCrosses(g: Grid, y: nat)
    requires WellFormed(g) && 3 <= g.width
    ensures CrossCount(AllWindows(g, 3, 3, y)) == GridCrosses(g, y)
    decreases g.height - y
  {
    if y + 3 <= g.height {
      RowWindowsCrosses(g, 0, y);
      AllWindowsCrosses(g, y + 1);
      CrossCountAppend(RowWindows(g, 3, 3, 0, y), AllWindows(g, 3, 3, y + 1));
    }
  }

  /** Part 2 succeeds exactly on grids at least 3 by 3, and then counts the
      X-shaped "MAS" pairs at every position. */
  lemma SolvePart2Counts(g: Grid)
    requires WellFormed(g)
    ensures SolvePart2(g).Some? <==> 3 <= g.width && 3 <= g.height
    ensures SolvePart2(g).Some? ==> SolvePart2(g).value == GridCrosses(g, 0)
  {
    if g.width > 0 {
      if 3 <= g.width && 3 <= g.height {
        WindowsEnumerated(g, 3, 3);
        AllWindowsCrosses(g, 0);
      } else {
        WindowsTooLarge(g, 3, 3);
      }
    }
  }
}
