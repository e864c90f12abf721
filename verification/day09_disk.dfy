/** Day 9 disk map: files as runs of blocks, kept in a list sorted by first
    block and never overlapping, found by binary search. Reading the dense
    format lays the files out left to right, alternating file lengths and
    gap lengths. */
module Day09Disk {
  import opened Common
  import opened Decimal

  /** A run of blocks `firstBlock` to `lastBlock`, both included, holding
      file `id`. */
  datatype File = File(id: nat, firstBlock: nat, lastBlock: nat)

  /** `File::size`; the subtraction is only defined for a proper run. A
      file covers exactly the `Size(f)` blocks from its first block on. */
  function Size(f: File): (r: nat)
    requires f.firstBlock <= f.lastBlock
    ensures r >= 1
    ensures forall b: nat :: Covers(f, b) <==> f.firstBlock <= b < f.firstBlock + r
  {
    f.lastBlock - f.firstBlock + 1
  }

  predicate Covers(f: File, b: nat)
  {
    f.firstBlock <= b <= f.lastBlock
  }

  datatype DiskMap = DiskMap(files: seq<File>, size: nat)

  /** Every run ends at or after its first block. */
  predicate Proper(files: seq<File>)
  {
    forall i :: 0 <= i < |files| ==> files[i].firstBlock <= files[i].lastBlock
  }

  /** Proper runs, sorted by position and pairwise apart: what the binary
      search relies on. */
  predicate Sorted(files: seq<File>)
  {
    Proper(files) && forall i, j :: 0 <= i < j < |files| ==> files[i].lastBlock < files[j].firstBlock
  }

  /** Two runs share no block. */
  predicate Apart(f: File, g: File)
  {
    f.lastBlock < g.firstBlock || g.lastBlock < f.firstBlock
  }

  /** Distinct entries of a sorted list share no block. */
  lemma SortedApart(files: seq<File>, f: File, g: File)
    requires Sorted(files) && f in files && g in files && f != g
    ensures Apart(f, g)
  {
    var i :| 0 <= i < |files| && files[i] == f;
    var j :| 0 <= j < |files| && files[j] == g;
    assert i != j;
  }

  /** Some file holds block `b`. */
  predicate Occupied(d: DiskMap, b: nat)
  {
    exists f :: f in d.files && Covers(f, b)
  }

  /** A sorted file list inside the disk. */
  predicate WellFormed(d: DiskMap)
  {
    Sorted(d.files) && forall i :: 0 <= i < |d.files| ==> d.files[i].lastBlock < d.size
  }

  /** Outcome of `binary_search_files`: `Ok` with the index of the file
      holding the block, or `Err` with the index where a file starting there
      would be inserted. */
  datatype Search = Found(index: nat) | Missing(insertAt: nat)

  /** Binary search on `files[lo..hi]`; everything before `lo` lies before
      the block and everything from `hi` on lies after it. A file holding
      the block compares equal, otherwise files compare by first block. */
  function SearchFrom(files: seq<File>, b: nat, lo: nat, hi: nat): (r: Search)
    requires Sorted(files) && lo <= hi <= |files|
    requires forall j :: 0 <= j < lo ==> files[j].lastBlock < b
    requires forall j :: hi <= j < |files| ==> b < files[j].firstBlock
    ensures r.Found? ==> r.index < |files| && Covers(files[r.index], b)
    ensures r.Missing? ==>
      && r.insertAt <= |files|
      && (forall j :: 0 <= j < r.insertAt ==> files[j].lastBlock < b)
      && (forall j :: r.insertAt <= j < |files| ==> b < files[j].firstBlock)
    decreases hi - lo
  {
    if lo == hi then Missing(lo)
    else
      var mid := lo + (hi - lo) / 2;
      if Covers(files[mid], b) then Found(mid)
      else if files[mid].firstBlock < b then SearchFrom(files, b, mid + 1, hi)
      else SearchFrom(files, b, lo, mid)
  }

  /** `binary_search_files`. */
  function BinarySearch(files: seq<File>, b: nat): (r: Search)
    requires Sorted(files)
    ensures r.Found? ==> r.index < |files| && Covers(files[r.index], b)
    ensures r.Missing? ==>
      && r.insertAt <= |files|
      && (forall j :: 0 <= j < r.insertAt ==> files[j].lastBlock < b)
      && (forall j :: r.insertAt <= j < |files| ==> b < files[j].firstBlock)
  {
    SearchFrom(files, b, 0, |files|)
  }

  /** At most one file holds a block: the search finds it, or shows there is
      none. */
  lemma SearchMissing(files: seq<File>, b: nat)
    requires Sorted(files)
    ensures BinarySearch(files, b).Missing? <==> forall j :: 0 <= j < |files| ==> !Covers(files[j], b)
  {
  }

  /** `get_file`: the file holding block `b`, if any. */
  function GetFile(d: DiskMap, b: nat): (r: Option<File>)
    requires Sorted(d.files)
    ensures r.Some? ==> r.value in d.files && Covers(r.value, b)
    ensures r.None? <==> forall j :: 0 <= j < |d.files| ==> !Covers(d.files[j], b)
    ensures r.Some? <==> Occupied(d, b)
  {
    match BinarySearch(d.files, b)
    case Found(i) => Some(d.files[i])
    case Missing(_) => None
  }

  /** `get_free_size`: 0 on an occupied block; before a later file, the
      distance to it; after the last file, `size - b + 1`, one more than the
      free blocks up to the end of the disk. The cursors that ask never
      pass `size`; at `size + 1` the source's `size - block_no` would
      already wrap. */
  function GetFreeSize(d: DiskMap, b: nat): (r: nat)
    requires Sorted(d.files) && b <= d.size
    ensures r == 0 <==> exists j :: 0 <= j < |d.files| && Covers(d.files[j], b)
    ensures r > 0 ==> forall j :: 0 <= j < |d.files| ==> d.files[j].lastBlock < b || b + r <= d.files[j].firstBlock
    ensures r > 0 && (exists j :: 0 <= j < |d.files| && b < d.files[j].firstBlock) ==>
      exists j :: 0 <= j < |d.files| && d.files[j].firstBlock == b + r
    ensures r > 0 && (forall j :: 0 <= j < |d.files| ==> d.files[j].lastBlock < b) ==> r == d.size - b + 1
  {
    match BinarySearch(d.files, b)
    case Found(_) => 0
    case Missing(i) =>
      if i < |d.files| then d.files[i].firstBlock - b
      else d.size - b + 1
  }

  /** `remove_file`: deletes the entry holding the file's first block, and
      aborts when there is none. */
  function RemoveFile(d: DiskMap, f: File): (r: Option<DiskMap>)
    requires Sorted(d.files)
    ensures r.None? <==> forall j :: 0 <= j < |d.files| ==> !Covers(d.files[j], f.firstBlock)
    ensures r.Some? ==> r.value.size == d.size
  {
    match BinarySearch(d.files, f.firstBlock)
    case Found(i) => Some(DiskMap(d.files[..i] + d.files[i + 1..], d.size))
    case Missing(_) => None
  }

  /** `remove_file` on a listed file deletes exactly its entry. */
  lemma RemoveIndex(d: DiskMap, f: File) returns (k: nat)
    requires Sorted(d.files) && f in d.files
    ensures k < |d.files| && d.files[k] == f
    ensures RemoveFile(d, f) == Some(DiskMap(d.files[..k] + d.files[k + 1..], d.size))
  {
    k :| 0 <= k < |d.files| && d.files[k] == f;
    assert Covers(d.files[k], f.firstBlock);
    var i := BinarySearch(d.files, f.firstBlock).index;
    assert i == k;
  }

  /** `after` is `files` with `f` put at index `i`, after the files ending
      before it and before those starting after it. */
  predicate InsertedAt(files: seq<File>, f: File, i: int, after: seq<File>)
  {
    && 0 <= i <= |files|
    && after == files[..i] + [f] + files[i..]
    && (forall j :: 0 <= j < i ==> files[j].lastBlock < f.firstBlock)
    && (forall j :: i <= j < |files| ==> f.firstBlock < files[j].firstBlock)
  }

  /** `insert_file`: puts the file at its place in the order, and aborts
      when its first block is already taken. */
  function InsertFile(d: DiskMap, f: File): (r: Option<DiskMap>)
    requires Sorted(d.files)
    ensures r.None? <==> exists j :: 0 <= j < |d.files| && Covers(d.files[j], f.firstBlock)
    ensures r.Some? ==> r.value.size == d.size
  {
    match BinarySearch(d.files, f.firstBlock)
    case Found(_) => None
    case Missing(i) => Some(DiskMap(d.files[..i] + [f] + d.files[i..], d.size))
  }

  /** Where `insert_file` puts the file: after the files ending before its
      first block and before those starting after it. */
  lemma InsertFileAt(d: DiskMap, f: File)
    requires Sorted(d.files) && InsertFile(d, f).Some?
    ensures exists i :: InsertedAt(d.files, f, i, InsertFile(d, f).value.files)
  {
    var i := BinarySearch(d.files, f.firstBlock).insertAt;
    assert InsertedAt(d.files, f, i, d.files[..i] + [f] + d.files[i..]);
  }

  /** `get_bounds`: the first block of the first file and the last block of
      the last file. */
  function GetBounds(d: DiskMap): (r: Option<(nat, nat)>)
    ensures r.None? <==> |d.files| == 0
  {
    if |d.files| == 0 then None
    else Some((d.files[0].firstBlock, d.files[|d.files| - 1].lastBlock))
  }

  /** On a sorted list the bounds enclose every file. */
  lemma BoundsEnclose(d: DiskMap)
    requires Sorted(d.files) && |d.files| > 0
    ensures var (lo, hi) := GetBounds(d).value;
      forall j :: 0 <= j < |d.files| ==> lo <= d.files[j].firstBlock && d.files[j].lastBlock <= hi
  {
  }

  /** A run that touches none of the files. */
  predicate Fits(files: seq<File>, f: File)
  {
    f.firstBlock <= f.lastBlock && forall g :: g in files ==> Apart(g, f)
  }

  /** Dropping an entry keeps a list sorted. */
  lemma SortedWithout(files: seq<File>, i: nat)
    requires Sorted(files) && i < |files|
    ensures Sorted(files[..i] + files[i + 1..])
  {
    var r := files[..i] + files[i + 1..];
    assert forall a :: 0 <= a < |r| ==> r[a] == files[if a < i then a else a + 1];
  }

  /** Putting a run between the files ending before it and those starting
      after it keeps a list sorted, when it touches none of them. */
  lemma SortedWith(files: seq<File>, f: File, i: nat, r: seq<File>)
    requires Sorted(files) && Fits(files, f) && InsertedAt(files, f, i, r)
    ensures Sorted(r)
  {
    assert forall a :: 0 <= a < |r| ==> r[a] == if a < i then files[a] else if a == i then f else files[a - 1];
    forall a, b | 0 <= a < b < |r|
      ensures r[a].lastBlock < r[b].firstBlock
    {
      if a == i {
        assert files[b - 1] in files;
        assert f.firstBlock < files[b - 1].firstBlock;
      }
    }
  }

  /** The list of (id, size) pairs of proper runs, as a multiset: what a
      move of whole files keeps. */
  function Shape(files: seq<File>): multiset<(nat, nat)>
    requires Proper(files)
  {
    if |files| == 0 then multiset{}
    else Shape(files[..|files| - 1]) + multiset{(files[|files| - 1].id, Size(files[|files| - 1]))}
  }

  /** Number of blocks holding file `id`. */
  function Blocks(files: seq<File>, id: nat): nat
    requires Proper(files)
  {
    if |files| == 0 then 0
    else Blocks(files[..|files| - 1], id) + Share(files[|files| - 1], id)
  }

  /** The blocks of `f` that hold file `id`: all or none. */
  function Share(f: File, id: nat): nat
    requires f.firstBlock <= f.lastBlock
  {
    if f.id == id then Size(f) else 0
  }

  /** Shapes and block counts add up over concatenation. */
  lemma {:induction false} CountsAppend(a: seq<File>, b: seq<File>)
    requires Proper(a) && Proper(b)
    ensures Proper(a + b)
    ensures Shape(a + b) == Shape(a) + Shape(b)
    ensures forall id :: Blocks(a + b, id) == Blocks(a, id) + Blocks(b, id)
    decreases |b|
  {
    if |b| == 0 {
      assert a + b == a;
    } else {
      var init := b[..|b| - 1];
      assert (a + b)[..|a + b| - 1] == a + init;
      CountsAppend(a, init);
    }
  }

  /** Counts of a list with one entry taken out or put in at `i`. */
  lemma CountsSplit(files: seq<File>, i: nat, f: File)
    requires Proper(files) && i <= |files| && f.firstBlock <= f.lastBlock
    ensures Proper(files[..i]) && Proper(files[i..]) && Proper([f])
    ensures Shape(files) == Shape(files[..i]) + Shape(files[i..])
    ensures Shape([f]) == multiset{(f.id, Size(f))}
    ensures forall id :: Blocks(files, id) == Blocks(files[..i], id) + Blocks(files[i..], id)
    ensures forall id :: Blocks([f], id) == Share(f, id)
  {
    TakeDrop(files, i);
    CountsAppend(files[..i], files[i..]);
    CountsSingle(f);
  }

  lemma CountsSingle(f: File)
    requires f.firstBlock <= f.lastBlock
    ensures Proper([f])
    ensures Shape([f]) == multiset{(f.id, Size(f))}
    ensures forall id :: Blocks([f], id) == Share(f, id)
  {
    assert [f][..0] == [];
  }

  /** The entries of a sorted list with entry `i` taken out are the other
      entries. */
  lemma WithoutMembers(files: seq<File>, i: nat)
    requires Sorted(files) && i < |files|
    ensures forall g :: g in files[..i] + files[i + 1..] <==> g in files && g != files[i]
  {
    var r := files[..i] + files[i + 1..];
    assert forall a :: 0 <= a < |r| ==> r[a] == files[if a < i then a else a + 1];
    forall g | g in files && g != files[i]
      ensures g in r
    {
      var a :| 0 <= a < |files| && files[a] == g;
      assert r[if a < i then a else a - 1] == g;
    }
  }

  /** The entries of a list with `f` put in are the old ones and `f`. */
  lemma WithMembers(files: seq<File>, i: nat, f: File)
    requires i <= |files|
    ensures forall g :: g in files[..i] + [f] + files[i..] <==> g in files || g == f
  {
    assert files == files[..i] + files[i..];
  }

  /** Counts of a list with entry `i` taken out. */
  lemma WithoutCounts(files: seq<File>, i: nat)
    requires Proper(files) && i < |files|
    ensures Proper(files[..i] + files[i + 1..])
    ensures Shape(files[..i] + files[i + 1..]) + multiset{(files[i].id, Size(files[i]))} == Shape(files)
    ensures forall id :: Blocks(files[..i] + files[i + 1..], id) + Share(files[i], id) == Blocks(files, id)
  {
    var f, before, after := files[i], files[..i], files[i + 1..];
    DropOne(files, i);
    CountsSplit(files, i, f);
    CountsSplit(files[i..], 1, f);
    CountsAppend(before, after);
  }

  /** Counts of a list with `f` put in at `i`. */
  lemma WithCounts(files: seq<File>, i: nat, f: File)
    requires Proper(files) && i <= |files| && f.firstBlock <= f.lastBlock
    ensures Proper(files[..i] + [f] + files[i..])
    ensures Shape(files[..i] + [f] + files[i..]) == Shape(files) + multiset{(f.id, Size(f))}
    ensures forall id :: Blocks(files[..i] + [f] + files[i..], id) == Blocks(files, id) + Share(f, id)
  {
    var before, after := files[..i], files[i..];
    CountsSplit(files, i, f);
    CountsAppend(before, [f]);
    CountsAppend(before + [f], after);
  }

  /** Removing a listed file succeeds, keeps the disk well formed and takes
      out exactly that file. */
  lemma RemoveListed(d: DiskMap, f: File)
    requires WellFormed(d) && f in d.files
    ensures RemoveFile(d, f).Some?
    ensures var r := RemoveFile(d, f).value;
      && WellFormed(r) && r.size == d.size && |r.files| + 1 == |d.files|
      && forall g :: g in r.files <==> g in d.files && g != f
  {
    var i := RemoveIndex(d, f);
    var r := RemoveFile(d, f).value;
    SortedWithout(d.files, i);
    WithoutMembers(d.files, i);
    assert forall g :: g in r.files ==> g.lastBlock < r.size;
  }

  /** Removing a listed file takes its (id, size) pair out of the shape and
      its size off its id's count. */
  lemma RemoveCounts(d: DiskMap, f: File)
    requires WellFormed(d) && f in d.files
    ensures RemoveFile(d, f).Some?
    ensures var r := RemoveFile(d, f).value;
      && Proper(r.files)
      && Shape(r.files) + multiset{(f.id, Size(f))} == Shape(d.files)
      && forall id :: Blocks(r.files, id) + Share(f, id) == Blocks(d.files, id)
  {
    var i := RemoveIndex(d, f);
    SortedWithout(d.files, i);
    WithoutCounts(d.files, i);
  }

  /** A run that touches no file does not start on a taken block. */
  lemma FitsFree(d: DiskMap, f: File)
    requires Fits(d.files, f)
    ensures !Occupied(d, f.firstBlock)
  {
    forall g | g in d.files
      ensures !Covers(g, f.firstBlock)
    {
      assert Apart(g, f);
    }
  }

  /** Inserting a run that touches no file and fits on the disk succeeds,
      keeps the disk well formed and adds exactly that run. */
  lemma InsertFitting(d: DiskMap, f: File)
    requires WellFormed(d) && Fits(d.files, f) && f.lastBlock < d.size
    ensures InsertFile(d, f).Some?
    ensures var r := InsertFile(d, f).value;
      && WellFormed(r) && r.size == d.size && |r.files| == |d.files| + 1
      && forall g :: g in r.files <==> g in d.files || g == f
  {
    FitsFree(d, f);
    var r := InsertFile(d, f).value;
    InsertFileAt(d, f);
    var i :| InsertedAt(d.files, f, i, r.files);
    SortedWith(d.files, f, i, r.files);
    WithMembers(d.files, i, f);
    assert forall g :: g in r.files ==> g.lastBlock < r.size;
  }

  /** Inserting a run that touches no file adds its (id, size) pair to the
      shape and its size to its id's count. */
  lemma InsertCounts(d: DiskMap, f: File)
    requires WellFormed(d) && Fits(d.files, f) && f.lastBlock < d.size
    ensures InsertFile(d, f).Some?
    ensures var r := InsertFile(d, f).value;
      && Proper(r.files)
      && Shape(r.files) == Shape(d.files) + multiset{(f.id, Size(f))}
      && forall id :: Blocks(r.files, id) == Blocks(d.files, id) + Share(f, id)
  {
    FitsFree(d, f);
    var r := InsertFile(d, f).value;
    InsertFileAt(d, f);
    var i :| InsertedAt(d.files, f, i, r.files);
    SortedWith(d.files, f, i, r.files);
    WithCounts(d.files, i, f);
  }

  /** Sum of the decimal digits of `s`: the blocks its runs describe. */
  function DigitSum(s: string): nat
    requires AllDigits(s)
  {
    if |s| == 0 then 0 else DigitSum(s[..|s| - 1]) + DigitValue(s[|s| - 1])
  }

  /** A longer prefix describes at least as many blocks. */
  lemma {:induction false} DigitSumMonotone(s: string, m: nat, n: nat)
    requires AllDigits(s) && m <= n <= |s|
    ensures DigitSum(s[..m]) <= DigitSum(s[..n])
    decreases n - m
  {
    if m < n {
      DigitSumMonotone(s, m, n - 1);
      assert s[..n][..n - 1] == s[..n - 1];
    }
  }

  /** The runs of the dense format, read left to right: even positions are
      file lengths and odd positions gap lengths. */
  function Layout(s: string): (r: DiskMap)
    requires AllDigits(s) && (|s| > 0 ==> s[0] != '0')
    ensures r.size == DigitSum(s) && |r.files| == (|s| + 1) / 2
    ensures |s| > 0 ==> r.size >= 1
    ensures forall k :: 0 <= k < |r.files| ==>
      r.files[k].id == k && r.files[k].firstBlock == DigitSum(s[..2 * k])
      && r.files[k].lastBlock + 1 == DigitSum(s[..2 * k + 1])
  {
    if |s| == 0 then DiskMap([], 0)
    else
      var init := s[..|s| - 1];
      var before := Layout(init);
      var c := DigitValue(s[|s| - 1]);
      PrefixOfPrefix(s, |s| - 1);
      assert s[..|s|] == s;
      if (|s| - 1) % 2 == 0 then
        DiskMap(before.files + [File((|s| - 1) / 2, before.size, before.size + c - 1)], before.size + c)
      else
        DiskMap(before.files, before.size + c)
  }

  /** No file length of the dense format is zero. */
  predicate NonEmptyFiles(s: string)
  {
    forall k :: 0 <= k < (|s| + 1) / 2 ==> s[2 * k] != '0'
  }

  /** Non-empty files give proper runs inside the disk. */
  lemma LayoutProper(s: string)
    requires AllDigits(s) && (|s| > 0 ==> s[0] != '0') && NonEmptyFiles(s)
    ensures var d := Layout(s); Proper(d.files) && forall k :: 0 <= k < |d.files| ==> d.files[k].lastBlock < d.size
  {
    var d := Layout(s);
    forall k | 0 <= k < |d.files|
      ensures d.files[k].firstBlock <= d.files[k].lastBlock < d.size
    {
      LayoutFileProper(s, k);
    }
  }

  /** File `k` of the layout, when not empty, is a proper run inside the
      disk. */
  lemma LayoutFileProper(s: string, k: nat)
    requires AllDigits(s) && (|s| > 0 ==> s[0] != '0')
    requires k < (|s| + 1) / 2 && s[2 * k] != '0'
    ensures var d := Layout(s); k < |d.files| && d.files[k].firstBlock <= d.files[k].lastBlock < d.size
  {
    var f := Layout(s).files[k];
    RunProper(s, k, f.firstBlock, f.lastBlock);
  }

  /** The run of a non-empty file `k`, from the digit sums before it. */
  lemma RunProper(s: string, k: nat, first: nat, last: nat)
    requires AllDigits(s) && k < (|s| + 1) / 2 && s[2 * k] != '0'
    requires first == DigitSum(s[..2 * k]) && last + 1 == DigitSum(s[..2 * k + 1])
    ensures first <= last < DigitSum(s)
  {
    DigitSumStep(s, 2 * k);
    NonZeroDigit(s[2 * k]);
    DigitSumMonotone(s, 2 * k + 1, |s|);
    assert s[..|s|] == s;
  }

  lemma NonZeroDigit(c: char)
    requires IsDigit(c) && c != '0'
    ensures DigitValue(c) >= 1
  {
  }

  /** One more digit adds its value. */
  lemma DigitSumStep(s: string, n: nat)
    requires AllDigits(s) && n < |s|
    ensures DigitSum(s[..n + 1]) == DigitSum(s[..n]) + DigitValue(s[n])
  {
    assert s[..n + 1][..n] == s[..n];
  }

  /** Each file of the layout ends before the next one starts. */
  lemma LayoutOrdered(s: string)
    requires AllDigits(s) && (|s| > 0 ==> s[0] != '0')
    ensures var d := Layout(s); forall i, j :: 0 <= i < j < |d.files| ==> d.files[i].lastBlock < d.files[j].firstBlock
  {
    var d := Layout(s);
    forall i, j | 0 <= i < j < |d.files|
      ensures d.files[i].lastBlock < d.files[j].firstBlock
    {
      DigitSumMonotone(s, 2 * i + 1, 2 * j);
    }
  }

  /** The layout is a well-formed disk exactly when no file length is zero;
      an empty file later on gets a last block before its first. */
  lemma LayoutWellFormed(s: string)
    requires AllDigits(s) && (|s| > 0 ==> s[0] != '0')
    ensures WellFormed(Layout(s)) <==> NonEmptyFiles(s)
  {
    var d := Layout(s);
    if NonEmptyFiles(s) {
      LayoutProper(s);
      LayoutOrdered(s);
    } else {
      var k :| 0 <= k < (|s| + 1) / 2 && s[2 * k] == '0';
      EmptyFileImproper(s, k);
      assert !Proper(d.files);
    }
  }

  /** An empty file's run ends one block before it starts. */
  lemma EmptyFileImproper(s: string, k: nat)
    requires AllDigits(s) && (|s| > 0 ==> s[0] != '0')
    requires k < (|s| + 1) / 2 && s[2 * k] == '0'
    ensures k < |Layout(s).files| && Layout(s).files[k].lastBlock < Layout(s).files[k].firstBlock
  {
    assert s[..2 * k + 1] == s[..2 * k] + [s[2 * k]];
  }

  /** `DiskMap::from_str` on the trimmed input: `None` where it aborts, on a
      character that is not a digit, or when the first file is empty (the
      last block of an empty file at block 0 wraps below zero). The disk is
      well formed exactly when no file is empty, and its first file starts
      at block 0. */
  function Parse(s: string): (r: Option<DiskMap>)
    ensures r.None? <==> !AllDigits(s) || (|s| > 0 && s[0] == '0')
    ensures r.Some? ==> (WellFormed(r.value) <==> NonEmptyFiles(s))
    ensures r.Some? && |s| > 0 ==> |r.value.files| > 0 && r.value.files[0].firstBlock == 0
  {
    if !AllDigits(s) || (|s| > 0 && s[0] == '0') then None
    else
      LayoutWellFormed(s);
      assert |s| > 0 ==> s[..0] == [];
      Some(Layout(s))
  }

  /** The `Display` form: one character per block, the last decimal digit of
      the file id or '.' for a free block. */
  function Render(d: DiskMap): (r: string)
    requires Sorted(d.files)
    ensures |r| == d.size
    ensures forall b :: 0 <= b < d.size ==> (r[b] == '.' <==> GetFile(d, b).None?)
    ensures forall i, b: nat :: 0 <= i < |d.files| && Covers(d.files[i], b) && b < d.size ==>
      r[b] == DigitChar(d.files[i].id % 10)
  {
    seq(d.size, b requires 0 <= b < d.size && Sorted(d.files) =>
      match GetFile(d, b)
      case Some(f) => DigitChar(f.id % 10)
      case None => '.')
  }

  /** The puzzle's small example `12345`: files 0, 1 and 2 at blocks 0,
      3 to 5 and 10 to 14 of a 15-block disk. */
  lemma ParseExample()
    ensures Parse("12345") == Some(DiskMap([File(0, 0, 0), File(1, 3, 5), File(2, 10, 14)], 15))
  {
    var s := "12345";
    assert AllDigits(s);
    ExampleFirstRuns();
    assert "1234"[..3] == "123" && s[..4] == "1234";
    assert Layout("1234") == DiskMap([File(0, 0, 0), File(1, 3, 5)], 10);
    assert Layout(s) == DiskMap([File(0, 0, 0), File(1, 3, 5), File(2, 10, 14)], 15);
  }

  /** The first three digits of the example: file 0, a gap of 2 blocks and
      file 1. */
  lemma ExampleFirstRuns()
    ensures Layout("123") == DiskMap([File(0, 0, 0), File(1, 3, 5)], 6)
  {
    assert "1"[..0] == [] && "12"[..1] == "1" && "123"[..2] == "12";
    assert Layout("1") == DiskMap([File(0, 0, 0)], 1);
    assert Layout("12") == DiskMap([File(0, 0, 0)], 3);
  }
}
