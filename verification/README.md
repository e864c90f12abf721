# Advent of Code 2024, days 1 to 11, in Dafny

A model of the puzzle solvers of the `adventofcode2024` repository (days 1
to 11). Each day's crate parses a small text input and runs a short, pure
algorithm over it; this project states each algorithm as Dafny functions and
methods over sequences, sets and maps, and proves what the answers mean.

One module per source file of the core:

- `Common`: `Option`, sequence helpers, the generic lemmas about slices and multisets.
- `Decimal`: decimal digits, `Value`/`Show`, `NumDigits`, powers of ten.
- `Day01Lists` (day01/src/lib.rs): insertion sort as the reference sort, the distance and similarity sums.
- `Day02Reports` (day02/src/lib.rs): the window checks of a report and the dampened check.
- `Day03Parse` (day03/src/parse.rs): the `mul`/`do`/`don't` recognisers and the skipping scanner.
- `Day03Program` (day03/src/lib.rs): the product sum and the enable/disable fold.
- `Day04Grid` (day04/src/grid.rs): the character grid, columns, diagonals, rows, subgrids and the window iterator.
- `Day04Search` (day04/src/lib.rs): `matches` counting and the two word-search totals.
- `Day05Pages` (day05/src/lib.rs): ordering rules, the repair by adjacent swaps, the middle-page sums.
- `Day06Map` (day06/src/map.rs): tiles, directions, the map, `guard_position` and `tick`.
- `Day06Patrol` (day06/src/lib.rs): the route, loop detection and the obstruction count.
- `Day07Calibration` (day07/src/callibration.rs, day07/src/lib.rs): the three operators and the left-to-right operator search.
- `Day08Map` (day08/src/map.rs): position arithmetic and the antenna map.
- `Day08Antinodes` (day08/src/lib.rs): antinodes of same-frequency pairs, with and without harmonics.
- `Day09Disk` (day09/src/disk.rs): the sorted run list of files: lookup, insertion, removal, free gaps, parsing.
- `Day09Compact` (day09/src/lib.rs): the two compaction loops and the two checksums.
- `Day10Map` (day10/src/map.rs): the height map, index conversions and trailheads.
- `Day10Trails` (day10/src/lib.rs): the stack search for peaks (score) and paths (rating).
- `Day11Stones` (day11/src/lib.rs): the stone rule, the in-place blink and the input parser.
- `Day11Count` (day11/src/lib.rs): the counting-map version of repeated blinking.

Every operation has a partner it is proved against: sorting against the
multiset and sortedness, the scanners against the text of what they read
(round trips), the step functions of days 6 and 9 against invariants they
keep (map shape, the sorted non-overlapping runs, blocks per file id), the
searches of days 7 and 10 against independent definitions of what they look
for (operator choices folded left to right, climbing paths), and the
counting map of day 11 against the list it stands for.

## Model

| member | source | states |
|---|---|---|
| Day01Lists.Insert | day01/src/lib.rs:9-10 | inserting into a sorted list keeps it sorted and adds exactly the one element (multiset) |
| Day01Lists.Sort | day01/src/lib.rs:9-10 | `sort` returns a sorted permutation of the list (same multiset, same length) |
| Day01Lists.SortedUnique | day01/src/lib.rs:9-10 | two sorted lists with the same elements are equal, so the sorted order is determined by the multiset alone |
| Day01Lists.SortIsUnique | day01/src/lib.rs:9-10 | any sorted permutation of the input is what `sort` returns (reference definition of sorting) |
| Day01Lists.SortedSteps | day01/src/lib.rs:9-10 | a list whose neighbours are in order is sorted throughout |
| Day01Lists.Distances | day01/src/lib.rs:12-15 | pairing the lists position by position gives one absolute difference per pair |
| Day01Lists.TotalDistance | day01/src/lib.rs:5-17 | part 1 aborts exactly when the lists differ in length, and is otherwise a non-negative total |
| Day01Lists.SameIdsNoDistance | day01/src/lib.rs:5-17 | two lists holding the same ids, in any order, are at total distance 0 |
| Day01Lists.TotalDistancePermutation | day01/src/lib.rs:5-17 | part 1 depends only on the two multisets of location ids, not on their input order, and fails exactly when the lists differ in length |
| Day01Lists.OccurrencesMultiplicity | day01/src/lib.rs:26 | counting equal entries of the right list is its multiplicity in the multiset |
| Day01Lists.Weights | day01/src/lib.rs:23-28 | every left id is weighted by the number of times it occurs in the right list |
| Day01Lists.SimilarityScore | day01/src/lib.rs:19-30 | part 2 aborts exactly when the lists differ in length; the score is non-negative for non-negative ids, and 0 when no left id occurs in the right list |
| Day01Lists.SimilarityScoreRightPermutation | day01/src/lib.rs:19-30 | the similarity score does not depend on the order of the right list |
| Day01Lists.ExampleSortedLeft | day01/src/main.rs:18-23 | the example's left column sorts to 1 2 3 3 3 4 |
| Day01Lists.ExampleSortedRight | day01/src/main.rs:18-23 | the example's right column sorts to 3 3 3 4 5 9 |
| Day01Lists.ExampleTotalDistance | day01/src/main.rs:25-30 | the example's total distance is 11 |
| Day01Lists.ExampleSimilarityScore | day01/src/main.rs:32-37 | the example's similarity score is 31 |
| Day02Reports.SafeIffSteadyRun | day02/src/lib.rs:6-17 | a report is safe exactly when it runs strictly up or strictly down by 1 to 3 per step (an independent characterisation of the three window checks) |
| Day02Reports.ShortReportsSafe | day02/src/lib.rs:6-17 | reports with fewer than two levels have no windows and are safe |
| Day02Reports.RemoveAt | day02/src/lib.rs:35-38 | skipping index `i` keeps the levels before `i` and shifts the later ones down by one |
| Day02Reports.CheckDampened | day02/src/lib.rs:28-45 | the dampened check answers true exactly when the report is safe or becomes safe with one level removed |
| Day02Reports.SafeWithoutFirst | day02/src/lib.rs:33-38 | dropping the first level of a safe report leaves it safe |
| Day02Reports.SafeIsDampenedSafe | day02/src/lib.rs:29-31 | every safe report passes the dampened check |
| Day02Reports.CountSafe | day02/src/lib.rs:19-26 | the part 1 count never exceeds the number of reports |
| Day02Reports.CountDampenedSafe | day02/src/lib.rs:47-54 | the part 2 count never exceeds the number of reports |
| Day02Reports.DampeningOnlyAdds | day02/src/lib.rs:19-54 | part 2 counts at least as many reports as part 1 |
| Day02Reports.ExampleHopelessRising | day02/src/main.rs:18-23 | `1 2 7 8 9` stays unsafe with any one level removed |
| Day02Reports.ExampleHopelessFalling | day02/src/main.rs:18-23 | `9 7 6 2 1` stays unsafe with any one level removed |
| Day02Reports.ExampleRescuedRising | day02/src/main.rs:18-23 | `1 3 2 4 5` is unsafe but is rescued by the dampener |
| Day02Reports.ExampleRescuedFalling | day02/src/main.rs:18-23 | `8 6 4 4 1` is unsafe but is rescued by the dampener |
| Day02Reports.ExampleSafe | day02/src/main.rs:18-23 | `7 6 4 2 1` and `1 3 6 7 9` are safe |
| Day02Reports.Example | day02/src/main.rs:25-37 | the six example reports give 2 safe and 4 dampened-safe reports |
| Day03Parse.DigitRun | day03/src/parse.rs:16-18 | `digit1` consumes the longest run of leading digits |
| Day03Parse.Number | day03/src/parse.rs:16-18 | `number` reads a non-empty run of digits that no further digit follows, and its decimal value, which fits in a `u64`; input not starting with a digit fails |
| Day03Parse.NumberOfDigits | day03/src/parse.rs:16-18 | a digit run followed by a non-digit is read as its decimal value when that is below 2^64, and is rejected otherwise |
| Day03Parse.ParamsComplete | day03/src/parse.rs:20-26 | `(a,b)` with two digit runs is accepted with both values and the rest of the input untouched |
| Day03Parse.Params | day03/src/parse.rs:20-26 | accepted parameters take at least five characters, leave a suffix of the input, and both values fit in a `u64` |
| Day03Parse.ParamsSound | day03/src/parse.rs:20-26 | whatever `params` accepts is literally `(`, digits, `,`, digits, `)` and the values are those digit runs' values |
| Day03Parse.MulInstruction | day03/src/parse.rs:28-32 | an accepted `mul` starts with `mul(`, takes at least eight characters and has two `u64` operands |
| Day03Parse.DoInstruction | day03/src/parse.rs:34-36 | `do_instruction` succeeds exactly on input starting with `do()`, and consumes just those four characters |
| Day03Parse.DontInstruction | day03/src/parse.rs:38-40 | `dont_instruction` succeeds exactly on input starting with `don't()`, and consumes just those seven characters |
| Day03Parse.AnyInstruction | day03/src/parse.rs:28-40 | a recognised instruction consumes at least four characters |
| Day03Parse.ScanOne | day03/src/parse.rs:43-48 | skipping characters up to the next instruction consumes at least four characters |
| Day03Parse.NoInstructionAnywhere | day03/src/parse.rs:43-48 | `many_till(anychar, …)` fails exactly when no instruction starts at any position of the text |
| Day03Parse.ScanAll | day03/src/parse.rs:42-50 | the repeated scan yields at most one instruction per four characters of input |
| Day03Parse.Instructions | day03/src/parse.rs:42-50 | `many1` fails exactly when no instruction starts at any position of the text; otherwise it returns at least one instruction |
| Day03Parse.ReadText | day03/src/parse.rs:28-40 | each instruction with `u64` operands reads back from its canonical text (round trip) |
| Day03Parse.ReadMul | day03/src/parse.rs:28-32 | `mul(a,b)` written in decimal reads back as `Mul(a, b)` when both operands are below 2^64 |
| Day03Parse.SkipNoise | day03/src/parse.rs:43-48 | characters at which no instruction starts are skipped up to the next instruction |
| Day03Parse.ScanProgram | day03/src/parse.rs:42-50 | scanning the text of a list of instructions with `u64` operands gives back that list (round trip) |
| Day03Parse.OnlyMul | day03/src/parse.rs:34-40 | input starting with `m` can only be a `mul` |
| Day03Parse.MalformedBrackets | day03/src/main.rs:18 | `mul[3,7]` is not an instruction |
| Day03Parse.ParamsWrongClose | day03/src/parse.rs:20-26 | parameters closed by anything but `)` are rejected |
| Day03Parse.MalformedClosing | day03/src/main.rs:18 | `mul(32,64]` is not an instruction |
| Day03Parse.MalformedBlanks | day03/src/main.rs:18 | `mul ( 2 , 4 )` is not an instruction |
| Day03Parse.NoInstructionHere | day03/src/parse.rs:28-46 | only `m` and `d` can start an instruction |
| Day03Program.SumOfProducts | day03/src/lib.rs:12-22 | the part 1 sum is at least every single product, and is 0 for a program without `mul` |
| Day03Program.Run | day03/src/lib.rs:25-40 | after the fold, the enabled flag is the effect of the last `do()`/`don't()` (enabled when there is none) and the total never exceeds the part 1 sum |
| Day03Program.EnabledProductStep | day03/src/lib.rs:32-37 | each `mul` adds its product exactly when it follows no `don't()` or a `do()` more recent than the last `don't()` |
| Day03Program.SumOfEnabledProducts | day03/src/lib.rs:25-40 | part 2 never exceeds part 1 |
| Day03Program.NoDontEnablesAll | day03/src/lib.rs:12-40 | without `don't()`, part 2 equals part 1 |
| Day03Program.Example | day03/src/main.rs:18-34 | the examples' instructions give 161 and 48 |
| Day04Grid.Parse | day04/src/grid.rs:94-105 | `from_str` succeeds exactly when there is a first line and the joined lines hold width times height characters; the grid then takes the first line's length and the number of lines |
| Day04Grid.ParseCells | day04/src/grid.rs:94-105 | for lines of equal length, the parsed cell (x, y) is character x of line y |
| Day04Grid.Strided | day04/src/grid.rs:20-25 | `skip`/`step_by`/`take` yields at most `count` characters |
| Day04Grid.StridedAt | day04/src/grid.rs:20-25 | the k-th character taken is the source character at `start + k * step` |
| Day04Grid.StridedShort | day04/src/grid.rs:20-25 | fewer than `count` characters are taken only when the stride runs off the end of the source |
| Day04Grid.StridedColumn | day04/src/grid.rs:20-25 | striding by the width from a column yields that column's cells top down, as many as asked for up to the height |
| Day04Grid.GetColumn | day04/src/grid.rs:17-26 | `get_column` as written: the column's cells top down, but only `min(width, height)` of them because it takes `width` items |
| Day04Grid.Column | day04/src/grid.rs:17-26 | the corrected column: all `height` cells of the column, top down |
| Day04Grid.GetColumnPrefix | day04/src/grid.rs:17-26 | the as-written column is a prefix of the full column and equals it whenever the grid is no taller than wide |
| Day04Grid.GetDiagonal | day04/src/grid.rs:28-45 | on a square grid the dexter diagonal is the cells (k, k) and the sinister diagonal the cells (width-1-k, k), `height` of each |
| Day04Grid.DiagonalCells | day04/src/grid.rs:28-45 | the strides `width+1` from 0 and `width-1` from `width-1` hit exactly the two diagonals of a square grid |
| Day04Grid.ChunkSizes | day04/src/grid.rs:47-54 | every chunk holds between 1 and `n` characters |
| Day04Grid.ChunksFlatten | day04/src/grid.rs:47-54 | the chunks concatenate back to the source and all but the last are full |
| Day04Grid.ChunkAt | day04/src/grid.rs:47-54 | chunk k is the slice of the source from `k * n` to `(k + 1) * n`, cut at the end |
| Day04Grid.ChunksExact | day04/src/grid.rs:47-54 | a source of `n * h` characters splits into `h` chunks of exactly `n` |
| Day04Grid.Horizontals | day04/src/grid.rs:47-54 | `get_horizontals` returns one string per row, `width` long, holding that row's cells |
| Day04Grid.HorizontalCells | day04/src/grid.rs:47-54 | the width-sized chunks of a well-formed grid are its rows |
| Day04Grid.Verticals | day04/src/grid.rs:56-60 | `get_verticals` gives one string per column, `min(width, height)` letters long, whose `k`-th letter is that column's cell in row `k` |
| Day04Grid.Columns | day04/src/grid.rs:56-60 | the corrected verticals give one string per column, `height` letters long, whose `k`-th letter is that column's cell in row `k` |
| Day04Grid.Cut | day04/src/grid.rs:76-77 | `take(height)` over the chunks keeps at most `height` rows |
| Day04Grid.CutAt | day04/src/grid.rs:76-77 | each kept row is cut to its first `width` characters |
| Day04Grid.GetSubgrid | day04/src/grid.rs:69-88 | a subgrid that passes the length assertion is a well-formed grid of the requested size |
| Day04Grid.ExtractRow | day04/src/grid.rs:69-79 | for a window inside the grid, row i of the cut is the source slice starting at `x + (y + i) * width`, `w` long |
| Day04Grid.SubgridTooLarge | day04/src/grid.rs:81 | a window wider or taller than the grid fails the length assertion |
| Day04Grid.MoveNext | day04/src/grid.rs:135-146 | `move_next` steps right, wraps to the next row's start when the window would overhang, and finishes once it would overhang the bottom |
| Day04Grid.Windows | day04/src/grid.rs:13-15 | every window the iterator yields has the requested size |
| Day04Grid.CollectShape | day04/src/grid.rs:149-165 | collecting the iterator yields only windows of the iterator's size |
| Day04Grid.BlockAt | day04/src/grid.rs:69-79 | the reference window's row i is the grid row `y + i` from column x, `w` wide |
| Day04Grid.BlockIsWindowRows | day04/src/grid.rs:69-79 | the skip/chunks/take construction of a window inside the grid gives exactly the reference rows |
| Day04Grid.BlockCell | day04/src/grid.rs:69-79 | cell (j, i) of the flattened window is grid cell (x + j, y + i) |
| Day04Grid.Window | day04/src/grid.rs:69-88 | the reference window: a `w` by `h` grid whose cell (j, i) is the grid's cell (x + j, y + i) |
| Day04Grid.SubgridIsWindow | day04/src/grid.rs:69-88 | `get_subgrid` of a window inside the grid returns the reference window |
| Day04Grid.NextInside | day04/src/grid.rs:152-164 | an unfinished iterator at an inside position yields the window there and moves on |
| Day04Grid.RowWindows | day04/src/grid.rs:135-164 | one row of windows: one per column from x until the window would overhang |
| Day04Grid.RowWindowsCons | day04/src/grid.rs:135-164 | a row of windows starts with the window at x |
| Day04Grid.AllWindows | day04/src/grid.rs:135-164 | the windows from row y on all have the requested size |
| Day04Grid.AllWindowsCount | day04/src/grid.rs:135-164 | there are `(height - h + 1 - y) * (width - w + 1)` of them |
| Day04Grid.AllWindowsAt | day04/src/grid.rs:135-164 | the window at (x, y) sits at row-major position `(y - y0) * (width - w + 1) + x` |
| Day04Grid.AllWindowsSplit | day04/src/grid.rs:135-164 | the windows from row y are that row's windows followed by those of later rows |
| Day04Grid.RowWindowsAt | day04/src/grid.rs:135-164 | within a row, the window at x sits at position `x - x0` |
| Day04Grid.CollectFrom | day04/src/grid.rs:149-165 | from any inside position the iterator yields the rest of the row and then all later rows, in row-major order |
| Day04Grid.CollectRowEnd | day04/src/grid.rs:135-165 | the same at the last window of a row, where `move_next` wraps |
| Day04Grid.CollectMidRow | day04/src/grid.rs:135-165 | the same before the last window of a row |
| Day04Grid.RowWindowsLast | day04/src/grid.rs:138-141 | the last window of a row is alone in its row suffix |
| Day04Grid.AllWindowsNone | day04/src/grid.rs:143-145 | no window fits below the last full row |
| Day04Grid.CollectStep | day04/src/grid.rs:152-164 | a yielded window heads the collected list |
| Day04Grid.WindowsEnumerated | day04/src/grid.rs:13-15 | `iter_subgrid(w, h)` on a grid at least that large yields every w by h window exactly once in row-major order, `(width - w + 1) * (height - h + 1)` of them |
| Day04Grid.WindowsTooLarge | day04/src/grid.rs:13-15 | a window larger than the grid makes the first subgrid fail its length assertion |
| Day04Search.OccurrencesShort | day04/src/lib.rs:13 | a line shorter than the word holds no occurrence |
| Day04Search.OccurrencesSuffix | day04/src/lib.rs:13 | a suffix of a line holds no more occurrences than the line |
| Day04Search.MatchCountAtMost | day04/src/lib.rs:13 | `matches` (non-overlapping, left to right) counts no more than all occurrences |
| Day04Search.OverlapExample | day04/src/lib.rs:13 | on overlapping matches the two counts differ: `AA` in `AAA` is matched once but occurs twice |
| Day04Search.FirstLetterUnique | day04/src/lib.rs:8 | a word whose first letter does not recur cannot overlap itself |
| Day04Search.WordsBorderFree | day04/src/lib.rs:8 | `XMAS` and `SAMX` cannot overlap themselves |
| Day04Search.NoOverlap | day04/src/lib.rs:13 | after an occurrence of such a word no other occurrence starts inside it |
| Day04Search.OccurrencesSkip | day04/src/lib.rs:13 | so skipping into the matched word loses no occurrence |
| Day04Search.MatchCountBorderFree | day04/src/lib.rs:13 | for a word that cannot overlap itself, `matches` counts every occurrence |
| Day04Search.SumCountsOccurrences | day04/src/lib.rs:10-20 | the per-line `matches` counts of `XMAS` and `SAMX` are the lines' total occurrences of both words |
| Day04Search.DiagonalHitsAppend | day04/src/lib.rs:22-26 | the diagonal hits of two runs of windows add up |
| Day04Search.DiagonalWord | day04/src/lib.rs:22-26 | a diagonal word of an n by n square has n letters |
| Day04Search.WindowDiagonal | day04/src/lib.rs:22-26 | the diagonals of the window at (x, y) are the grid's diagonal words from there |
| Day04Search.RowWindowsHits | day04/src/lib.rs:22-26 | the hits over a row of 4 by 4 windows are the hits of the squares at those positions |
| Day04Search.RowWindowsHitsStep | day04/src/lib.rs:22-26 | one step of that sum |
| Day04Search.DiagonalHitsCons | day04/src/lib.rs:22-26 | the first window's hits plus the rest's |
| Day04Search.WindowHitsAt | day04/src/lib.rs:22-26 | a window's diagonal hits are those of the grid square it covers |
| Day04Search.AllWindowsHits | day04/src/lib.rs:22-26 | the hits over all 4 by 4 windows are the hits of every square position of the grid |
| Day04Search.SolvePart1Counts | day04/src/lib.rs:5-29 | part 1 (as written) succeeds exactly on grids at least 4 by 4 and is the word occurrences in rows and in the as-written columns plus the square diagonal hits |
| Day04Search.SolvePart1CorrectedCounts | day04/src/lib.rs:5-29 | the corrected part 1 counts the full columns instead |
| Day04Search.Part1AgreesWhenNotTall | day04/src/lib.rs:5-29 | on grids no taller than wide the two agree |
| Day04Search.VerticalsAreColumns | day04/src/grid.rs:56-60 | on grids no taller than wide `get_verticals` returns the full columns |
| Day04Search.TallGridMissesColumn | day04/src/grid.rs:24 | on a 4 by 5 grid with `XMAS` down column 0, the as-written vertical finds nothing and the corrected one finds the word |
| Day04Search.TallGridFirstColumn | day04/src/grid.rs:24 | that column is cut to `.XMA` by the as-written code |
| Day04Search.NoLetter | day04/src/lib.rs:13 | a line without the word's first letter has no match |
| Day04Search.SkipMismatch | day04/src/lib.rs:13 | `.XMA` holds no `XMAS` |
| Day04Search.OneWord | day04/src/lib.rs:8-13 | `.XMAS` holds one of the two words |
| Day04Search.MasLetters | day04/src/lib.rs:35-41 | a three-letter diagonal is `MAS` or `SAM` exactly when its middle is `A` and its ends are `M` and `S` in some order |
| Day04Search.CrossCountAppend | day04/src/lib.rs:37-42 | the cross counts of two runs of windows add up |
| Day04Search.CrossWindowAt | day04/src/lib.rs:37-41 | a 3 by 3 window is an X-MAS exactly when the grid has the crossed `MAS` at that position |
| Day04Search.RowWindowsCrosses | day04/src/lib.rs:37-42 | the crosses over a row of windows are the crosses at those positions |
| Day04Search.RowWindowsCrossesStep | day04/src/lib.rs:37-42 | one step of that sum |
| Day04Search.CrossCountCons | day04/src/lib.rs:37-42 | the first window counts once if it is a cross |
| Day04Search.AllWindowsCrosses | day04/src/lib.rs:37-42 | the crosses over all windows are the crosses at every position of the grid |
| Day04Search.SolvePart2Counts | day04/src/lib.rs:32-43 | part 2 succeeds exactly on grids at least 3 by 3 and counts every position holding an X-MAS |
| Day05Pages.Position | day05/src/lib.rs:9-16 | `position` finds the first index holding the page, and none exactly when the page is absent |
| Day05Pages.CheckRuleRespected | day05/src/lib.rs:8-18 | the index comparison, with `usize::MIN` for a missing `before` and `usize::MAX` for a missing `after`, holds exactly when `before` (if present) occurs no later than every occurrence of `after` |
| Day05Pages.CheckRuleIndices | day05/src/lib.rs:8-18 | with distinct pages, a rule holds exactly when `before` sits at an index no larger than `after` |
| Day05Pages.AbsentBeforePasses | day05/src/lib.rs:12 | a rule whose `before` page is missing always holds |
| Day05Pages.CheckRulesAll | day05/src/lib.rs:20-22 | `check_rules` holds exactly when every rule holds |
| Day05Pages.SwapPermutes | day05/src/lib.rs:53 | a swap keeps the pages (multiset) |
| Day05Pages.SwapsDownPermutes | day05/src/lib.rs:52-54 | the run of swaps keeps the pages |
| Day05Pages.SwapsDownRotates | day05/src/lib.rs:52-54 | swapping down from `before_idx` to `after_idx` rotates that stretch right by one: the `before` page lands at `after_idx` and the pages between shift up |
| Day05Pages.RotateAfterSwap | day05/src/lib.rs:52-54 | one swap followed by the shorter rotation is the longer rotation |
| Day05Pages.RotationRepairs | day05/src/lib.rs:47-54 | after the move, the rule that was broken holds |
| Day05Pages.MovedRepairs | day05/src/lib.rs:40-54 | a rule is skipped exactly when it already holds; a moved update satisfies that rule and keeps its pages |
| Day05Pages.FixFrom | day05/src/lib.rs:38-61 | whenever the repair loop stops, every rule holds |
| Day05Pages.FixUpdate | day05/src/lib.rs:38-61 | `fix_update` returns only updates that satisfy every rule |
| Day05Pages.FixFromPermutes | day05/src/lib.rs:38-61 | the repaired update is a permutation of the input |
| Day05Pages.FixUpdatePermutes | day05/src/lib.rs:38-61 | the same from the first rule |
| Day05Pages.FixValidNeverReturns | day05/src/lib.rs:39-59 | on an update that already satisfies every rule the loop never breaks, however long it runs |
| Day05Pages.MovedRotates | day05/src/lib.rs:47-54 | the move is the rotation between the first `after` and the first `before` index |
| Day05Pages.Middle | day05/src/lib.rs:32-33 | `update[len / 2]` exists exactly for non-empty updates and is one of its pages |
| Day05Pages.SumFixedMiddlesAllValid | day05/src/lib.rs:63-76 | when every update is valid, part 2 adds nothing |
| Day05Pages.FixedMiddle | day05/src/lib.rs:70-74 | the middle page of a repaired update satisfies every rule and is a page of the original update |
| Day05Pages.ValidUpdatesMembers | day05/src/lib.rs:27-30 | the filter keeps exactly the updates that satisfy every rule |
| Day05Pages.SumValidMiddlesFilter | day05/src/lib.rs:24-36 | part 1 is the sum of the middles of the filtered updates |
| Day05Pages.InvalidUpdatesMembers | day05/src/lib.rs:69 | the part 2 filter keeps exactly the updates that break some rule |
| Day05Pages.RepairAllMeans | day05/src/lib.rs:70 | `update(fix_update)` repairs each update in place: the `i`-th result is the repair of the `i`-th update, and the whole fails exactly when some repair does |
| Day05Pages.SumFixedMiddlesFilter | day05/src/lib.rs:63-76 | part 2 is the sum of the middles of the updates that break some rule, each repaired |
| Day05Pages.EmptyPasses | day05/src/lib.rs:20-22 | an empty update satisfies every rule |
| Day05Pages.SumValidMiddlesAborts | day05/src/lib.rs:30-33 | part 1 panics exactly when an empty update is present |
| Day05Pages.ExampleValid | day05/src/main.rs:19-41 | `75,47,61,53,29` satisfies the first three example rules and has middle 61 |
| Day05Pages.ExampleRepair | day05/src/main.rs:19-41 | `75,97,47,61,53` breaks `97\|75` and is repaired to `97,75,47,61,53` |
| Day05Pages.ExampleMove | day05/src/main.rs:19-41 | the move for `97\|75` puts 97 in front of 75 |
| Day05Pages.ExampleFixedPasses | day05/src/main.rs:19-41 | the repaired update satisfies both rules |
| Day06Map.Step | day06/src/map.rs:12-21 | a step moves exactly one cell, vertically for up and down and horizontally for left and right |
| Day06Map.RotateClockwise | day06/src/map.rs:33-41 | turning always changes the direction |
| Day06Map.StepBack | day06/src/map.rs:12-21 | a step followed by a step in the opposite direction returns to the start |
| Day06Map.RotationCycle | day06/src/map.rs:33-41 | two turns face the opposite way, four turns are the identity and three are not |
| Day06Map.TileOf | day06/src/map.rs:51-62 | only `.`, `#` and `^` are tiles; anything else panics |
| Day06Map.TileOfSymbol | day06/src/map.rs:51-62 | a character reads as a tile exactly when it is that tile's symbol, and the only guard read is the upward one |
| Day06Map.IndexInside | day06/src/map.rs:82-83 | a position inside the map is stored inside the tile list |
| Day06Map.IndexInjective | day06/src/map.rs:82 | distinct positions inside a row width have distinct indices |
| Day06Map.Get | day06/src/map.rs:77-84 | `get` answers exactly for positions inside the map |
| Day06Map.Set | day06/src/map.rs:86-93 | `set` changes the tile at an inside position and ignores a position outside |
| Day06Map.SetOthers | day06/src/map.rs:86-93 | `set` leaves every other position unchanged |
| Day06Map.FirstGuard | day06/src/map.rs:96-99 | the index found holds a guard |
| Day06Map.FirstGuardEarliest | day06/src/map.rs:96-99 | no guard comes earlier, and none is found exactly when there is no guard |
| Day06Map.Decode | day06/src/map.rs:101-102 | an index below width times height decodes to a row inside the map and back to itself |
| Day06Map.GuardPosition | day06/src/map.rs:95-105 | the position found is inside the map and holds a guard |
| Day06Map.RowMajorOrder | day06/src/map.rs:96-102 | earlier rows and earlier columns come first in storage order |
| Day06Map.GuardPositionFirst | day06/src/map.rs:95-105 | there is no guard position exactly when no cell holds a guard; otherwise it is the first guard in reading order |
| Day06Map.Tick | day06/src/map.rs:107-128 | a tick keeps the map's shape |
| Day06Map.TickWithoutGuard | day06/src/map.rs:108-110 | without a guard a tick changes nothing |
| Day06Map.TickTurns | day06/src/map.rs:119-123 | facing an obstruction the guard turns clockwise in place and nothing else changes |
| Day06Map.TickMoves | day06/src/map.rs:124-127 | otherwise the guard's cell empties, the guard moves one step (vanishing when it leaves the map) and nothing else changes |
| Day06Map.Parse | day06/src/map.rs:134-152 | a parsed map has a first line, the first line's width and one row per line |
| Day06Map.Tiles | day06/src/map.rs:139-143 | every character reads as its tile, and reading fails exactly at a character that is not a tile |
| Day06Map.ParseExample | day06/src/map.rs:159-172 | the 3 by 3 example parses to the tiles the test expects |
| Day06Patrol.State | day06/src/lib.rs:27-33 | the guard's state exists exactly when there is a guard, and is its position and the direction its tile faces |
| Day06Patrol.Iterate | day06/src/map.rs:107-128 | repeated ticks keep the map's shape |
| Day06Patrol.IterateStep | day06/src/map.rs:107-128 | tick t + 1 is one more tick after tick t |
| Day06Patrol.StateAtIterate | day06/src/lib.rs:27-39 | the state after k ticks is the state of the k-times-ticked map |
| Day06Patrol.Record | day06/src/lib.rs:33-39 | inserting a new state keeps the visited set exactly the states seen so far, all distinct |
| Day06Patrol.SeenMeans | day06/src/lib.rs:33-38 | every visited state was the guard's state at some earlier tick |
| Day06Patrol.SeenHas | day06/src/lib.rs:33-38 | every earlier state is in the visited set |
| Day06Patrol.FreshMeans | day06/src/lib.rs:27-39 | while no state repeats, the guard was present at every earlier tick in pairwise distinct states |
| Day06Patrol.StateInside | day06/src/lib.rs:27-33 | every state lies in the finite set of positions inside the map times four directions |
| Day06Patrol.Repeats | day06/src/lib.rs:34-36 | a state met again means the guard loops |
| Day06Patrol.Exits | day06/src/lib.rs:27-42 | a guard that leaves before repeating a state does not loop |
| Day06Patrol.StatesShrink | day06/src/lib.rs:38 | recording a new state shrinks the set of states still unseen |
| Day06Patrol.CheckGuardStuck | day06/src/lib.rs:24-43 | `check_guard_stuck_in_loop` answers true exactly when the guard eventually returns to a state it was in before; it always terminates |
| Day06Patrol.RecordAndTick | day06/src/lib.rs:38-39 | one iteration of that loop keeps its invariant and shrinks the unseen states |
| Day06Patrol.VisitedPositions | day06/src/lib.rs:7-16 | when the guard leaves within the bound, the result is the set of positions it occupied before leaving; otherwise it is still on the map after every tick of the bound |
| Day06Patrol.StillPresent | day06/src/lib.rs:10 | a guard present now and at all earlier ticks is present throughout |
| Day06Patrol.VisitAndTick | day06/src/lib.rs:11-12 | one iteration of that loop keeps the occupied set exact |
| Day06Patrol.OccupiedHasStart | day06/src/lib.rs:10-11 | the start position is always visited |
| Day06Patrol.OccupiedInside | day06/src/lib.rs:10-11 | every visited position is inside the map |
| Day06Patrol.SolvePart1 | day06/src/lib.rs:18-22 | part 1 is the number of distinct positions the guard occupies before leaving; malformed input fails |
| Day06Patrol.BlockingAdd | day06/src/lib.rs:55-69 | each new candidate adds one exactly when blocking it traps the guard |
| Day06Patrol.CountBlocking | day06/src/lib.rs:54-75 | the count is the number of candidates that are empty and make the guard loop once obstructed |
| Day06Patrol.SolvePart2 | day06/src/lib.rs:45-76 | part 2 counts the positions of the unobstructed route where one new obstruction traps the guard |
| Day06Patrol.StartExcluded | day06/src/lib.rs:59-61 | the start position is never counted (it holds the guard, not an empty tile), so the answer is below the route's size |
| Day07Calibration.Evaluate | day07/src/callibration.rs:15-24 | concatenating the decimal texts multiplies the left number by ten to the number of digits of the right one and adds the right one, so it never yields less than the right one |
| Day07Calibration.AnyOperatorMeans | day07/src/lib.rs:18-21 | `any` over the operators holds exactly when some operator, combined with the next operand, leads on to the test value |
| Day07Calibration.BruteforceMeans | day07/src/lib.rs:8-22 | `bruteforce` holds exactly when some choice of operators, folded left to right over the remaining operands, reaches the test value |
| Day07Calibration.TrySolve | day07/src/lib.rs:7-31 | `try_solve_equation` returns the test value exactly when some placement of the allowed operators makes the equation true |
| Day07Calibration.Calibration | day07/src/lib.rs:33-54 | the calibration result is at most the sum of all test values, and equals it when every equation is solvable |
| Day07Calibration.SolvableMonotone | day07/src/lib.rs:38-50 | an equation solvable with some operators stays solvable with more |
| Day07Calibration.Part1AtMostPart2 | day07/src/lib.rs:33-54 | part 2's total is never below part 1's |
| Day07Calibration.Example190 | day07/src/main.rs:18 | `190: 10 19` is solvable with `+` and `*` |
| Day07Calibration.Example83 | day07/src/main.rs:20 | `83: 17 5` is unsolvable even with concatenation |
| Day07Calibration.Example156 | day07/src/main.rs:21 | `156: 15 6` needs concatenation |
| Day08Map.PositionAlgebra | day08/src/map.rs:16-47 | position addition and subtraction undo each other, subtraction is adding the negation, and negation is an involution |
| Day08Map.RowAntennaeMeans | day08/src/map.rs:85-97 | a row contributes exactly its non-`.` cells, each with its character |
| Day08Map.AntennaeMeans | day08/src/map.rs:82-99 | the antenna map holds exactly the non-`.` cells of all rows, each with its character |
| Day08Map.Parse | day08/src/map.rs:77-106 | parsing panics exactly on an input without lines; otherwise the width is the first line's length, the height the number of lines, and the antennae are the marked cells |
| Day08Map.ParseExample | day08/src/map.rs:113-133 | the example parses to a 10 by 10 map with antennae `a` at (4, 3) and (5, 5) and `A` at (8, 8) |
| Day08Antinodes.Group | day08/src/lib.rs:9-13 | a frequency's group holds exactly the antennae of that frequency |
| Day08Antinodes.GroupDistinct | day08/src/lib.rs:9-13 | a group lists each antenna once |
| Day08Antinodes.PairsWithMeans | day08/src/lib.rs:18 | pairing one antenna with those after it yields exactly the antinodes of those pairs |
| Day08Antinodes.PairsMeans | day08/src/lib.rs:18 | `tuple_combinations` yields exactly the antinodes of every pair `i < j` of the group |
| Day08Antinodes.CollectMeans | day08/src/lib.rs:8-29 | for a rule symmetric in its two antennae, the collected set is exactly the union over all pairs of distinct antennae sharing a frequency, whatever the iteration order |
| Day08Antinodes.PairAntinodes | day08/src/lib.rs:19-25 | a pair's antinodes are the two points `pos1 - offset` and `pos2 + offset`, kept only inside the map |
| Day08Antinodes.RuleSymmetric | day08/src/lib.rs:19-25 | swapping the two antennae gives the same antinodes |
| Day08Antinodes.AntinodesMeans | day08/src/lib.rs:8-29 | `determine_antinodes` is exactly the set of in-map points beyond either antenna of a same-frequency pair, as far again as the pair is apart |
| Day08Antinodes.Walk | day08/src/lib.rs:50-54 | the `while bounds_check` walk only inserts points on the map, and inserts its start exactly when that is on the map |
| Day08Antinodes.WalkMeans | day08/src/lib.rs:51-54 | walking from an in-map start by a non-zero offset until leaving the map visits exactly the in-map points `start + k * offset`, k >= 0 |
| Day08Antinodes.ScaleStep | day08/src/lib.rs:53 | one more step is one more multiple of the offset |
| Day08Antinodes.TRuleSymmetric | day08/src/lib.rs:48-60 | the part 2 rule is symmetric in the two antennae |
| Day08Antinodes.TPairAntinodes | day08/src/lib.rs:47-60 | a pair's part 2 antinodes are all on the map, and include each antenna of the pair that is on the map |
| Day08Antinodes.TPairMeans | day08/src/lib.rs:48-60 | a pair's part 2 antinodes are the in-map points on the line through both antennae, walking outward from each |
| Day08Antinodes.TAntinodesMeans | day08/src/lib.rs:37-65 | `determine_t_antinodes` is exactly the set of such points over all same-frequency pairs |
| Day08Antinodes.AntinodesInBounds | day08/src/lib.rs:21-23 | every antinode of either part lies inside the map |
| Day08Antinodes.Part1InPart2 | day08/src/lib.rs:8-65 | when the antennae lie inside the map, every part 1 antinode is a part 2 antinode |
| Day08Antinodes.SolvePart1 | day08/src/lib.rs:31-35 | part 1 is the number of distinct antinodes, and panics exactly on an input without lines |
| Day08Antinodes.SolvePart2 | day08/src/lib.rs:67-71 | part 2 is the number of distinct part 2 antinodes, and panics exactly on an input without lines |
| Day08Antinodes.RectangularInBounds | day08/src/map.rs:77-106 | on rectangular input every antenna lies inside the map |
| Day08Antinodes.PairExample | day08/src/lib.rs:19-25 | antennae at (1, 1) and (2, 2) on a 4 by 4 map have antinodes (0, 0) and (3, 3) |
| Day08Antinodes.WalkExample | day08/src/lib.rs:48-60 | with resonant harmonics the same pair covers the whole diagonal |
| Day09Disk.SortedApart | day09/src/disk.rs:21-24 | distinct files of a sorted disk occupy disjoint block runs |
| Day09Disk.SearchFrom | day09/src/disk.rs:27-35 | the search either finds a file covering the block or the index where such a file would go, all files before it ending earlier and all from it starting later |
| Day09Disk.BinarySearch | day09/src/disk.rs:27-35 | `binary_search_files` over the whole file list: the same two outcomes |
| Day09Disk.SearchMissing | day09/src/disk.rs:27-35 | the search reports a missing block exactly when no file covers it |
| Day09Disk.GetFile | day09/src/disk.rs:37-41 | `get_file` returns the file covering the block, and none exactly when the block is free |
| Day09Disk.GetFreeSize | day09/src/disk.rs:43-53 | zero on an occupied block; otherwise the gap up to the next file's first block, or `size - block + 1` past the last file |
| Day09Disk.RemoveFile | day09/src/disk.rs:55-60 | removing fails exactly when no file covers the file's first block, and keeps the disk size |
| Day09Disk.RemoveIndex | day09/src/disk.rs:55-60 | removing a listed file drops exactly that entry |
| Day09Disk.InsertFile | day09/src/disk.rs:62-67 | inserting fails exactly when some file covers the new file's first block, and keeps the disk size |
| Day09Disk.InsertFileAt | day09/src/disk.rs:62-67 | a successful insert puts the file at one index and keeps every other file in order |
| Day09Disk.GetBounds | day09/src/disk.rs:69-75 | the bounds exist exactly for a disk with files |
| Day09Disk.BoundsEnclose | day09/src/disk.rs:69-75 | every file lies between the first file's first block and the last file's last block |
| Day09Disk.SortedWithout | day09/src/disk.rs:59 | removing a file keeps the list sorted |
| Day09Disk.SortedWith | day09/src/disk.rs:66 | inserting a file that fits a gap at its place keeps the list sorted |
| Day09Disk.CountsAppend | day09/src/disk.rs:21-24 | the file shapes and each id's block count of two file lists add up |
| Day09Disk.CountsSplit | day09/src/disk.rs:21-24 | the same for a list split at any index |
| Day09Disk.CountsSingle | day09/src/disk.rs:15-19 | a single file contributes its id and size |
| Day09Disk.WithoutMembers | day09/src/disk.rs:59 | removal drops exactly that file from the members |
| Day09Disk.WithMembers | day09/src/disk.rs:66 | insertion adds exactly that file to the members |
| Day09Disk.WithoutCounts | day09/src/disk.rs:59 | removal subtracts exactly that file's shape and blocks |
| Day09Disk.WithCounts | day09/src/disk.rs:66 | insertion adds exactly that file's shape and blocks |
| Day09Disk.RemoveListed | day09/src/disk.rs:55-60 | removing a listed file keeps the disk well formed and removes exactly that file |
| Day09Disk.RemoveCounts | day09/src/disk.rs:55-60 | and subtracts exactly its shape and its blocks per id |
| Day09Disk.FitsFree | day09/src/disk.rs:62-67 | a file fitting a gap starts on a free block |
| Day09Disk.InsertFitting | day09/src/disk.rs:62-67 | inserting a file that fits a gap inside the disk succeeds, keeps the disk well formed and adds exactly that file |
| Day09Disk.InsertCounts | day09/src/disk.rs:62-67 | and adds exactly its shape and its blocks per id |
| Day09Disk.DigitSumMonotone | day09/src/disk.rs:87-101 | a longer prefix of the dense format describes at least as many blocks |
| Day09Disk.Layout | day09/src/disk.rs:81-107 | file k gets id k and the blocks from the digit sum before its length digit up to the digit sum including it; the disk size is the sum of all digits |
| Day09Disk.LayoutProper | day09/src/disk.rs:87-101 | with no zero file length every file is a proper run inside the disk |
| Day09Disk.LayoutFileProper | day09/src/disk.rs:90-95 | a file of non-zero length is a proper run inside the disk |
| Day09Disk.RunProper | day09/src/disk.rs:90-95 | its first block is at most its last and the last lies below the disk size |
| Day09Disk.DigitSumStep | day09/src/disk.rs:99 | each digit adds its value to the disk size |
| Day09Disk.LayoutOrdered | day09/src/disk.rs:87-101 | each file ends before the next one starts |
| Day09Disk.LayoutWellFormed | day09/src/disk.rs:81-107 | the parsed disk is well formed exactly when no file length is zero |
| Day09Disk.EmptyFileImproper | day09/src/disk.rs:94 | a zero-length file later in the input gets a last block one before its first |
| Day09Disk.Parse | day09/src/disk.rs:81-107 | parsing aborts exactly on a non-digit or on a zero first file (its last block underflows); otherwise the first file starts at block 0 |
| Day09Disk.Size | day09/src/disk.rs:16-18 | a file's size is at least 1 and the file covers exactly the `size` blocks from its first block on |
| Day09Disk.Render | day09/src/disk.rs:110-122 | one character per block: `.` exactly on free blocks, and on a block of a file the last decimal digit of that file's id |
| Day09Disk.ParseExample | day09/src/disk.rs:81-107 | `12345` parses to files at blocks 0, 3-5 and 10-14 of a 15-block disk |
| Day09Disk.ExampleFirstRuns | day09/src/disk.rs:81-107 | `123` parses to files at blocks 0 and 3-5 of a 6-block disk |
| Day09Compact.PastFile | day09/src/lib.rs:18-20 | on a well-formed disk, a file covering the block just after another file starts there |
| Day09Compact.FreeRun | day09/src/lib.rs:23-26 | a free front block before a file has a positive free size, and the gap ends at the first block of a file no later than that file |
| Day09Compact.FragmentFreeBack | day09/src/lib.rs:13-16 | stepping the back cursor over a free block keeps the loop invariant and makes progress |
| Day09Compact.FragmentPastFront | day09/src/lib.rs:18-21 | jumping the front cursor over a file lands just past it, keeps the invariant and makes progress |
| Day09Compact.MovedPart | day09/src/lib.rs:23-33 | the moved part keeps the file's id, starts at the front cursor, is `min(free, size)` long (the whole file exactly when it fits) and overlaps no file |
| Day09Compact.Rest | day09/src/lib.rs:35-41 | the leftover keeps the id and start of the file and the blocks the moved part did not take |
| Day09Compact.Placed | day09/src/lib.rs:29-41 | inserting a file that fits a gap succeeds and adds exactly that file |
| Day09Compact.PlacedBlocks | day09/src/lib.rs:29-41 | and adds exactly its blocks to its id |
| Day09Compact.FragmentMove | day09/src/lib.rs:28-42 | moving (part of) the back file into the front gap keeps the disk well formed and its size |
| Day09Compact.FragmentMoveFiles | day09/src/lib.rs:28-42 | afterwards the other files are untouched, the moved part is present, and any other new entry lies within the old file's blocks |
| Day09Compact.FragmentMoveBlocks | day09/src/lib.rs:28-42 | the move keeps the number of blocks of every file id |
| Day09Compact.Relocate | day09/src/lib.rs:93-98 | moving a whole file replaces exactly that file by its moved copy |
| Day09Compact.RelocateShape | day09/src/lib.rs:93-98 | the file shapes change only by that swap, and not at all when the copy has the same size |
| Day09Compact.RelocateBlocks | day09/src/lib.rs:93-98 | the blocks per id change only by that swap |
| Day09Compact.RestFits | day09/src/lib.rs:35-41 | the leftover fits back where the file was |
| Day09Compact.FragmentMoveKeeps | day09/src/lib.rs:23-42 | a move keeps the loop invariant and leaves the front block occupied |
| Day09Compact.FragmentStep | day09/src/lib.rs:12-43 | one iteration of the fragmenting loop keeps the disk size |
| Day09Compact.FragmentStepKeeps | day09/src/lib.rs:12-43 | each iteration keeps the invariant, keeps every id's block count, and makes progress (so the loop ends) |
| Day09Compact.FragmentDone | day09/src/lib.rs:12 | when the cursors have met, no free block precedes a used one from the start block on |
| Day09Compact.FragmentLoop | day09/src/lib.rs:12-43 | the loop ends with a well-formed disk, dense from the start block, holding every id's blocks |
| Day09Compact.CompactFragmented | day09/src/lib.rs:5-44 | `compact_filesystem_fragmented` keeps every file id's block count and leaves no free block before a used block from the first file's start on |
| Day09Compact.MovedLeftRefl | day09/src/lib.rs:60-103 | no move is a leftward move |
| Day09Compact.MovedLeftTrans | day09/src/lib.rs:60-103 | leftward moves compose |
| Day09Compact.DefragFreeBack | day09/src/lib.rs:68-71 | stepping the back cursor over a free block keeps the defragmenting invariant |
| Day09Compact.DefragPastFront | day09/src/lib.rs:73-76 | jumping the front cursor over a file keeps it |
| Day09Compact.DefragMove | day09/src/lib.rs:93-101 | moving a whole file into a large enough front gap keeps the size and moves the back cursor down |
| Day09Compact.DefragMoveFacts | day09/src/lib.rs:93-101 | the move keeps the invariant, the file count and shapes, and only moves files left |
| Day09Compact.DefragStep | day09/src/lib.rs:67-102 | one iteration of the defragmenting loop keeps the disk size |
| Day09Compact.DefragAtGap | day09/src/lib.rs:78-101 | at a free front block the pass skips the file once the cursors have met, steps over a gap too small for it, or moves it whole into the gap; each keeps the invariant, the files' shapes, moves files only left, and lowers the back cursor or raises the front one |
| Day09Compact.DefragStepKeeps | day09/src/lib.rs:67-102 | each iteration keeps the invariant, keeps the files' shapes, only moves files left, and makes progress (so the loop ends) |
| Day09Compact.DefragPastGap | day09/src/lib.rs:88-91 | stepping over a too-small gap moves only the front cursor |
| Day09Compact.DefragSkip | day09/src/lib.rs:82-86 | skipping a file moves the back cursor down and leaves the disk as it is |
| Day09Compact.DefragLoop | day09/src/lib.rs:67-102 | the loop ends with a well-formed disk holding the same files, each with its id and length, none moved right |
| Day09Compact.CompactDefragmented | day09/src/lib.rs:60-103 | `compact_filesystem_defragmented` keeps every file whole (same id and length) and moves files only to the left |
| Day09Compact.ChecksumFragmented | day09/src/lib.rs:46-52 | the checksum that stops at the first free block never exceeds the full checksum and equals it on a disk dense from block 0 |
| Day09Compact.ChecksumDefragmented | day09/src/lib.rs:105-111 | the checksum over every block is 0 on a disk without files |
| Day09Compact.FullChecksumFree | day09/src/lib.rs:105-111 | free blocks contribute nothing |
| Day09Compact.ChecksumsAgree | day09/src/lib.rs:46-52 | the same from any starting block |
| Day09Compact.SolvePart1 | day09/src/lib.rs:54-58 | part 1 fails exactly on a non-digit and otherwise is the full checksum of the fragmented compaction |
| Day09Compact.SolvePart2 | day09/src/lib.rs:113-117 | part 2 fails exactly on a non-digit and otherwise is the checksum of a disk holding the same files, each moved only left |
| Day10Map.XyToIndex | day10/src/map.rs:11-13 | for a column inside the row, dividing the index by the width gives back the row and the remainder the column, so `index_to_xy` undoes `xy_to_index` |
| Day10Map.IndexToXy | day10/src/map.rs:15-17 | `index_to_xy` gives a column inside the row, and `xy_to_index` of the result is the index again |
| Day10Map.IndexInside | day10/src/map.rs:25 | a cell inside the map is stored inside the grid |
| Day10Map.Get | day10/src/map.rs:20-26 | `get` answers `None` exactly off the map, otherwise a height of at most 9 |
| Day10Map.GetStored | day10/src/map.rs:20-35 | every stored height is what `get` reports at its index's coordinates |
| Day10Map.HeadsBelowExact | day10/src/map.rs:28-35 | the trailheads among the first n cells are exactly the height-0 cells stored below n, in increasing storage order |
| Day10Map.TrailheadsExact | day10/src/map.rs:28-35 | `trailheads` lists exactly the cells of height 0, each once |
| Day10Map.Heights | day10/src/map.rs:46-50 | each character reads as its digit, failing exactly at a character that is not a digit |
| Day10Map.Parse | day10/src/map.rs:41-59 | parsing fails exactly on an input without lines, a non-digit, or a cell count other than width times height; otherwise the grid holds the digits in reading order |
| Day10Trails.StepsDistinct | day10/src/lib.rs:28 | the four neighbours are distinct |
| Day10Trails.ClimbsAmong | day10/src/lib.rs:28-33 | every neighbour pushed is inside the map and one higher |
| Day10Trails.ClimbsAmongExact | day10/src/lib.rs:28-33 | exactly the neighbours one higher are pushed, each once |
| Day10Trails.ClimbsAmongSnoc | day10/src/lib.rs:29-32 | one more neighbour is pushed exactly when it is one higher |
| Day10Trails.Climbs | day10/src/lib.rs:28-33 | every neighbour pushed from a cell is inside the map and one higher |
| Day10Trails.TrailTail | day10/src/lib.rs:28-33 | a trail without its first cell is still a trail |
| Day10Trails.TrailCons | day10/src/lib.rs:28-33 | a trail preceded by a neighbour one lower is a trail |
| Day10Trails.PathsSound | day10/src/lib.rs:7-40 | every walk the search enumerates from a cell is a complete hiking trail from it: neighbouring steps each one higher, ending at height 9 |
| Day10Trails.PathsViaSound | day10/src/lib.rs:28-33 | the walks through the pushed neighbours are complete trails continuing through one of them |
| Day10Trails.PathsViaHas | day10/src/lib.rs:28-33 | every trail from a pushed neighbour extends to one through it |
| Day10Trails.PathsComplete | day10/src/lib.rs:7-40 | every complete hiking trail from a cell is enumerated |
| Day10Trails.PathsDistinct | day10/src/lib.rs:48-80 | no trail is enumerated twice |
| Day10Trails.PathsViaDistinct | day10/src/lib.rs:69-74 | the walks through distinct neighbours are distinct |
| Day10Trails.PathsViaSecond | day10/src/lib.rs:69-74 | each such walk's second cell is one of the neighbours |
| Day10Trails.PrependSecond | day10/src/lib.rs:69-74 | prepending keeps the second cell |
| Day10Trails.PrependDistinct | day10/src/lib.rs:69-74 | prepending keeps trails distinct |
| Day10Trails.PeaksReachable | day10/src/lib.rs:18-24 | a peak belongs to a trailhead's score set exactly when some complete trail from it ends there |
| Day10Trails.ScoreAtMostRating | day10/src/lib.rs:7-80 | a trailhead's score is at most its rating, and positive exactly when the rating is |
| Day10Trails.LastsCard | day10/src/lib.rs:18-24 | there are no more peaks than trails |
| Day10Trails.LastsAppend | day10/src/lib.rs:18-24 | the peaks of two lists of trails unite |
| Day10Trails.LastsPrepend | day10/src/lib.rs:18-24 | prepending keeps the peaks |
| Day10Trails.StackAppend | day10/src/lib.rs:13 | what two parts of the stack still lead to adds up |
| Day10Trails.TagPending | day10/src/lib.rs:28-33 | the entries pushed from a cell lead to exactly the peaks and trails through it |
| Day10Trails.Expand | day10/src/lib.rs:28-33 | replacing an entry below height 9 by its pushed neighbours keeps the pending peaks and trail counts |
| Day10Trails.PopPeaks | day10/src/lib.rs:14-25 | popping a peak (or an off-map cell) removes exactly that peak from the pending ones |
| Day10Trails.PopRating | day10/src/lib.rs:55-66 | popping a peak removes exactly one pending trail |
| Day10Trails.SeedPending | day10/src/lib.rs:10 | initially each trailhead's pending peaks and trails are all of its own |
| Day10Trails.WorkPop | day10/src/lib.rs:13 | popping an entry reduces the remaining work |
| Day10Trails.WorkExpand | day10/src/lib.rs:28-33 | replacing an entry by its neighbours reduces the remaining work, so the search ends |
| Day10Trails.PushClimbs | day10/src/lib.rs:28-33 | the inner loop pushes exactly the tagged climbs |
| Day10Trails.PushStep | day10/src/lib.rs:29-32 | one neighbour is pushed exactly when it is one higher |
| Day10Trails.SeedInv | day10/src/lib.rs:10-11 | the seeded stack and empty map satisfy the search invariants |
| Day10Trails.ScoreOff | day10/src/lib.rs:14-16 | popping an off-map entry keeps the score invariant |
| Day10Trails.RecordFound | day10/src/lib.rs:19-24 | `entry(head).and_modify(insert).or_insert` adds the peak to that trailhead's set and touches no other |
| Day10Trails.PopPeak | day10/src/lib.rs:18-25 | popping a peak moves exactly that peak from pending to found for its trailhead |
| Day10Trails.ScorePeak | day10/src/lib.rs:18-25 | recording a peak keeps the score invariant |
| Day10Trails.ScoreExpand | day10/src/lib.rs:28-33 | pushing the climbs keeps the score invariant |
| Day10Trails.RatingOff | day10/src/lib.rs:55-57 | popping an off-map entry keeps the rating invariant |
| Day10Trails.RatingPeak | day10/src/lib.rs:59-66 | `entry(head).and_modify(+1).or_insert(1)` counts the trail for that trailhead and keeps the rating invariant |
| Day10Trails.RatingExpand | day10/src/lib.rs:69-74 | pushing the climbs keeps the rating invariant |
| Day10Trails.ScoreDone | day10/src/lib.rs:13-34 | with the stack empty, the map holds exactly the trailheads that reach a peak, each with its reachable peaks |
| Day10Trails.RatingDone | day10/src/lib.rs:54-75 | with the stack empty, the map holds exactly the trailheads with a trail, each with its number of distinct trails |
| Day10Trails.HikingTrailsScores | day10/src/lib.rs:7-34 | the search records exactly the trailheads that reach a peak, each with the set of height-9 cells it reaches |
| Day10Trails.HikingTrailsRatings | day10/src/lib.rs:48-75 | the search records exactly the trailheads with a trail, each with its number of distinct complete trails |
| Day10Trails.ScoreValues | day10/src/lib.rs:36-39 | the collected scores are the peak counts of the trailheads that reach a peak |
| Day10Trails.RatingValues | day10/src/lib.rs:77-79 | the collected ratings are the trail counts of the trailheads with a trail |
| Day10Trails.ScoresAtMostRatings | day10/src/lib.rs:42-85 | the sum of scores is at most the sum of ratings |
| Day10Trails.SolvePart1 | day10/src/lib.rs:42-45 | part 1 fails exactly when parsing fails and otherwise sums, over the trailheads, the number of peaks each reaches |
| Day10Trails.SolvePart2 | day10/src/lib.rs:82-85 | part 2 fails exactly when parsing fails and otherwise sums, over the trailheads, the number of distinct trails from each |
| Day11Stones.Rule | day11/src/lib.rs:14-33 | a stone becomes two stones exactly when it is non-zero with an even number of digits, otherwise one |
| Day11Stones.ValueBelow | day11/src/lib.rs:25-27 | a number written with n digits is below ten to the n |
| Day11Stones.RuleSplitsDigits | day11/src/lib.rs:22-28 | dividing and taking the remainder by ten to half the digit count gives the values of the left and right halves of the decimal digits |
| Day11Stones.BlinkAppend | day11/src/lib.rs:11-35 | blinking a concatenation is concatenating the blinks: each stone changes independently |
| Day11Stones.BlinkSingle | day11/src/lib.rs:11-35 | one stone blinks into its rule |
| Day11Stones.BlinkLength | day11/src/lib.rs:11-35 | a blink adds one stone per splitting stone |
| Day11Stones.BlinkOnce | day11/src/lib.rs:11-35 | the in-place loop, replacing and inserting stones as it goes, computes exactly the blink of the original row |
| Day11Stones.BlinkAt | day11/src/lib.rs:14-33 | one loop step replaces stone i by its rule and moves past the stones it produced |
| Day11Stones.BlinkLoopStep | day11/src/lib.rs:13-34 | one step extends the processed prefix by one original stone |
| Day11Stones.BlinkStep | day11/src/lib.rs:13-34 | blinking a prefix one stone longer appends that stone's rule |
| Day11Stones.SolvePart1 | day11/src/lib.rs:37-45 | part 1 fails exactly when parsing fails and otherwise is the number of stones after 25 blinks |
| Day11Stones.TrimStart | day11/src/lib.rs:5 | `trim` drops exactly the leading whitespace |
| Day11Stones.TrimEnd | day11/src/lib.rs:5 | and the trailing whitespace |
| Day11Stones.TrimKeeps | day11/src/lib.rs:5 | text without outer whitespace is unchanged |
| Day11Stones.FirstIndex | day11/src/lib.rs:6 | the first occurrence of the separator |
| Day11Stones.Split | day11/src/lib.rs:6 | `split(' ')` yields at least one piece and no piece holds the separator |
| Day11Stones.JoinSplit | day11/src/lib.rs:6 | joining the pieces with the separator gives back the text |
| Day11Stones.SplitJoin | day11/src/lib.rs:6 | splitting pieces joined by a separator they do not contain gives back the pieces |
| Day11Stones.SplitAt | day11/src/lib.rs:6 | splitting at the first separator gives the text before it and the split of the rest |
| Day11Stones.FirstIndexAt | day11/src/lib.rs:6 | the first occurrence is the unique index with no earlier occurrence |
| Day11Stones.ParseU64 | day11/src/lib.rs:7 | a parsed number fits in 64 bits |
| Day11Stones.ParseU64Show | day11/src/lib.rs:7 | a 64-bit number written in decimal, with or without a leading `+`, parses back; empty text and a bare `+` do not |
| Day11Stones.ParseAll | day11/src/lib.rs:7-8 | parsing fails exactly when some piece is not a number, otherwise each piece gives its number |
| Day11Stones.ParseInput | day11/src/lib.rs:3-9 | a parsed input holds at least one stone, each below 2^64, and blank input does not parse |
| Day11Stones.ParseInputShow | day11/src/lib.rs:3-9 | a non-empty row of 64-bit stones written with single spaces parses back to itself (round trip) |
| Day11Stones.ParseAllShow | day11/src/lib.rs:7-8 | every written stone parses back |
| Day11Stones.JoinEnds | day11/src/lib.rs:5-6 | joined non-empty pieces start and end with the first and last pieces' characters, so `trim` leaves them alone |
| Day11Count.Add | day11/src/lib.rs:51-58 | `entry(stone).and_modify(+=).or_insert` adds the count to that stone and leaves all others |
| Day11Count.Copies | day11/src/lib.rs:48 | c copies of one stone |
| Day11Count.CopiesCount | day11/src/lib.rs:48 | c copies hold that stone c times and no other |
| Day11Count.BlinkConcatMap | day11/src/lib.rs:11-35 | a blink maps each stone to its rule and concatenates |
| Day11Count.ConcatMapAppend | day11/src/lib.rs:11-35 | mapping a concatenation concatenates the maps |
| Day11Count.ConcatMapCopies | day11/src/lib.rs:50-75 | mapping c copies of a stone gives c times that stone's result, counted per value |
| Day11Count.ConcatMapPermutation | day11/src/lib.rs:50 | mapping rows with the same stones (in any order) gives rows with the same stones |
| Day11Count.BlinkPermutation | day11/src/lib.rs:50 | the stones after a blink depend only on the multiset of stones before it, so the cache may forget the order |
| Day11Count.BlinkCopies | day11/src/lib.rs:50-75 | c copies of a stone blink into c times its rule, counted per value |
| Day11Count.AddOne | day11/src/lib.rs:60-63 | adding the one stone a rule produces |
| Day11Count.AddTwo | day11/src/lib.rs:66-71 | adding the two halves of a split stone |
| Day11Count.AddRule | day11/src/lib.rs:60-74 | processing a cache entry adds its count to every stone its rule produces |
| Day11Count.RepresentsStep | day11/src/lib.rs:50-75 | after each entry, the new cache counts the blink of the entries done so far |
| Day11Count.DoneStep | day11/src/lib.rs:50 | after each entry, the stones done are exactly the cache's counts of the entries taken |
| Day11Count.BlinkCacheStep | day11/src/lib.rs:50-75 | one entry keeps the loop's invariant |
| Day11Count.BlinkCache | day11/src/lib.rs:50-75 | one blink over the cache, in whatever order the entries come, gives the counts of the blinked row |
| Day11Count.SumValues | day11/src/lib.rs:78 | the values of a cache sum to the number of stones it stands for |
| Day11Count.CountFrom | day11/src/lib.rs:49-78 | blinking a cache n times and summing gives the number of stones after n blinks |
| Day11Count.DedupCounts | day11/src/lib.rs:48 | collecting the input into a map keeps each distinct stone once |
| Day11Count.DedupShorter | day11/src/lib.rs:48 | that loses stones exactly when the input has a duplicate |
| Day11Count.CountStonesAfterBlinks | day11/src/lib.rs:47-79 | as written: the count after n blinks of the input with duplicates collapsed, which is right when the input stones are distinct |
| Day11Count.DuplicatesCollapse | day11/src/lib.rs:48 | on `0 0` the as-written count is 1 after 0 blinks and after 1 blink, where there are 2 stones |
| Day11Count.CountStonesCorrected | day11/src/lib.rs:47-79 | with every input stone counted, the result is the number of stones after n blinks |
| Day11Count.SolvePart2 | day11/src/lib.rs:81-85 | as written: part 2 fails exactly when parsing fails and otherwise counts the stones after 75 blinks grown from the distinct input numbers, which is the number of stones after 75 blinks when no input number repeats |
| Day11Count.SolvePart2Corrected | day11/src/lib.rs:81-85 | corrected: part 2 fails exactly when parsing fails and otherwise is the number of stones after 75 blinks, every input stone counted |
| Decimal.ValueShow | day11/src/lib.rs:22 | the decimal text of a number reads back as that number |
| Decimal.ValueAppend | day07/src/callibration.rs:19-23 | the value of two digit strings written one after the other |
| Decimal.NumDigitsBounds | day11/src/lib.rs:22 | a number with d digits lies between ten to the d-1 and ten to the d |

## Left out

- The `main.rs` of every day: they read `input.txt` and print the answers. Their test inputs appear only as small example lemmas (see below).
- The example totals of days 4 to 11 (18 and 9, 143 and 123, 41 and 6, 3749 and 11387, 14 and 34, 1928 and 2858, 36 and 81, 55312) are not proved: evaluating whole puzzles on literals is beyond what the verifier does in reasonable time. Smaller pieces of the same examples are proved instead.
- Day 3 end to end: the example text is not scanned by the verifier. `Day03Program.Example` starts from the instruction lists the scanner is proved to produce.
- The `nom` grammars of days 1, 2, 5 and 7 (`parse.rs`): they only split lines into numbers with library combinators. The models of those days start from the parsed lists, rules, updates and equations.
- The project template crate: it holds no logic.
- day05/src/manual.rs is mirrored by the `Page` and `OrderingRule` types and has no behaviour of its own.
- The progress `println!` of day 6 part 2: it is console output.
- Hash map and hash set iteration order, and the order of `into_group_map`/`tuple_combinations`. Collections are sets and maps. Where a loop's result could depend on the order, it is proved for every order.
- Machine integers. All arithmetic is unbounded: the `u64` products and sums of day 3, the `i64` results of day 7, `usize` indices, and `u64`/`u128` stone numbers after blinking. Two places model a bound: `Day03Parse.Number` and `Day11Stones.ParseU64` reject digit runs worth 2^64 or more, the way `str::parse` into a `u64` does.
- Grid input. The grid parsers of days 4, 6, 8 and 10 start from the input already split into lines, so `str::lines()` is not modelled. They index characters where the source indexes bytes, which agrees only over the ASCII puzzle alphabet.
- String-based digit counting (`to_string().len()`, `format!` then `parse`) is the arithmetic `Decimal.NumDigits` and `Decimal.Value`.
- Day07Calibration.Evaluate: operands are natural numbers, so the panic of `Concatenate` on a negative right operand (whose text is not a number) is not modelled.
- Day07Calibration.TrySolve: requires at least one operand, because the source indexes `operands[0]`.
- Day05Pages.FixFrom: takes a `fuel` bound and returns `None` when it runs out. The source loop does not terminate on an update that already satisfies every rule (`Day05Pages.FixValidNeverReturns` states that for every fuel).
- Day05Pages.FixUpdate: the same fuel bound.
- Day05Pages.SumFixedMiddles: the same fuel bound, for each repaired update.
- Day06Patrol.VisitedPositions: takes a `fuel` bound on the number of ticks, because the source loop never ends on a map where the guard loops. The result is `None` when the guard is still on the map after `fuel` ticks.
- Day06Patrol.SolvePart1: the same fuel bound.
- Day06Patrol.SolvePart2: the same fuel bound for the unobstructed route. The loop check for each candidate needs no fuel, because `Day06Patrol.CheckGuardStuck` is proved to terminate.
- Day08Antinodes.SolvePart1: takes the antenna map's iteration order as a parameter (`order`, any listing of its keys), because hash map order is unspecified. The result is proved the same for every order.
- Day08Antinodes.SolvePart2: the same `order` parameter.
- Day09Compact.SolvePart1: requires every file digit of the input to be non-zero. A zero-length file makes `File::size` underflow in the source, and the disk is no longer a list of proper runs.
- Day09Compact.SolvePart2: the same requirement.
- Day09Disk.Parse: models the input after `trim`. A digit string whose first file is empty is rejected.
- Day09Disk.GetFreeSize: past the last file the source returns `size - b + 1`, one more than the blocks left, and the model keeps that value as written. The defragmenting loop (day09/src/lib.rs:79-80) asks for it before it tests `back_block <= front_block`, and on `12345` it does so at `front_block == size`; the extra 1 is what keeps its `free_size > 0` assertion from failing there. The model proves that the assertion (day09/src/lib.rs:80) holds there: `Day09Compact.DefragSkip`, the branch where the cursors have met, asserts `free > 0` for every free front block up to `size`, and `Day09Compact.FreeRun` proves the free size positive at a free block before a file. Past that test the loop uses the value only when a file lies beyond `front_block`, so no answer depends on the extra 1.

## Findings

| source | as written | input that shows it | evidently intended | confidence | as-written member | corrected member |
|---|---|---|---|---|---|---|
| day04/src/grid.rs:24 | `get_column` takes `width` characters down a column | a 4 wide, 5 tall grid whose column 0 reads `.XMAS`: the column is cut to `.XMA`, and the `XMAS` is never counted | take `height` characters, the whole column | not executed | Day04Search.TallGridMissesColumn | Day04Search.SolvePart1CorrectedCounts |
| day11/src/lib.rs:48 | every distinct input stone starts with count 1 | the input `0 0`: the count is 1 after 0 blinks and after 1 blink, but there are 2 stones | start each stone with its number of occurrences | not executed | Day11Count.DuplicatesCollapse | Day11Count.SolvePart2Corrected |
