/** Day 9 compaction: the two loops that move file blocks towards the front
    of the disk, and the checksums read off the result. On a well-formed
    disk neither loop ever reaches one of its aborts (`assert!`, `expect`,
    `unwrap` or a subtraction below zero), and both terminate. */
module Day09Compact {
  import opened Common
  import opened Decimal
  import opened Day09Disk

  /** The disk with the loop's two block cursors. */
  datatype Cursor = Cursor(disk: DiskMap, front: nat, back: nat)

  /** Just past a file, a block is free or the first block of a file. */
  lemma PastFile(d: DiskMap, g: File)
    requires WellFormed(d) && g in d.files
    ensures g.lastBlock + 1 <= d.size
    ensures forall f :: f in d.files && Covers(f, g.lastBlock + 1) ==> f.firstBlock == g.lastBlock + 1
  {
    forall f | f in d.files && Covers(f, g.lastBlock + 1)
      ensures f.firstBlock == g.lastBlock + 1
    {
      if f != g {
        SortedApart(d.files, f, g);
      }
    }
  }

  /** Just before a file, a block is free or the last block of a file. */
  lemma BeforeFile(d: DiskMap, g: File)
    requires WellFormed(d) && g in d.files
    ensures g.firstBlock > 0 ==> forall f :: f in d.files && Covers(f, g.firstBlock - 1) ==> f.lastBlock == g.firstBlock - 1
  {
    forall f | g.firstBlock > 0 && f in d.files && Covers(f, g.firstBlock - 1)
      ensures f.lastBlock == g.firstBlock - 1
    {
      SortedApart(d.files, f, g);
    }
  }

  /** The first block of the first file is the start of the only file
      holding it. */
  lemma FirstStart(d: DiskMap)
    requires WellFormed(d) && |d.files| > 0
    ensures forall f :: f in d.files && Covers(f, d.files[0].firstBlock) ==> f.firstBlock == d.files[0].firstBlock
  {
    forall f | f in d.files && Covers(f, d.files[0].firstBlock)
      ensures f.firstBlock == d.files[0].firstBlock
    {
      var j :| 0 <= j < |d.files| && d.files[j] == f;
      assert j == 0;
    }
  }

  /** The last block of the last file is the end of the only file holding
      it. */
  lemma LastEnd(d: DiskMap)
    requires WellFormed(d) && |d.files| > 0
    ensures var last := d.files[|d.files| - 1];
      forall f :: f in d.files && Covers(f, last.lastBlock) ==> f.lastBlock == last.lastBlock
  {
    var n := |d.files| - 1;
    forall f | f in d.files && Covers(f, d.files[n].lastBlock)
      ensures f.lastBlock == d.files[n].lastBlock
    {
      var j :| 0 <= j < |d.files| && d.files[j] == f;
      assert j == n;
    }
  }

  /** A free block before a file starts a free run that `get_free_size`
      measures: the run ends at the next file, so it ends at or before the
      given file, and no file reaches into it. */
  lemma FreeRun(d: DiskMap, b: nat, file: File)
    requires WellFormed(d) && file in d.files && b < file.firstBlock && !Occupied(d, b)
    ensures b < d.size
    ensures GetFreeSize(d, b) > 0 && b + GetFreeSize(d, b) <= file.firstBlock
    ensures forall g :: g in d.files ==> g.lastBlock < b || b + GetFreeSize(d, b) <= g.firstBlock
    ensures exists g :: g in d.files && g.firstBlock == b + GetFreeSize(d, b)
  {
    var free := GetFreeSize(d, b);
    var k :| 0 <= k < |d.files| && d.files[k] == file;
    assert b < d.files[k].firstBlock;
    forall g | g in d.files
      ensures g.lastBlock < b || b + free <= g.firstBlock
    {
      var j :| 0 <= j < |d.files| && d.files[j] == g;
    }
    var j :| 0 <= j < |d.files| && d.files[j].firstBlock == b + free;
    assert d.files[j] in d.files;
  }

  // ---------------------------------------------------------------------
  // compact_filesystem_fragmented

  /** What the fragmenting loop keeps, for a run whose front cursor started
      at `lo`: the disk stays well formed, every block from `lo` up to the
      front cursor holds a file, no file reaches past the back cursor, and
      the front cursor is on a free block or on a file's first block. */
  predicate FragmentInv(c: Cursor, lo: nat)
  {
    && WellFormed(c.disk)
    && (forall b :: lo <= b < c.front ==> Occupied(c.disk, b))
    && (forall f :: f in c.disk.files ==> f.lastBlock <= c.back)
    && (forall f :: f in c.disk.files && Covers(f, c.front) ==> f.firstBlock == c.front)
  }

  /** Twice the distance between the cursors, plus one while the front
      block is free. */
  function FragmentMeasure(c: Cursor): nat
  {
    if c.front < c.back then 2 * (c.back - c.front) + (if Occupied(c.disk, c.front) then 0 else 1) else 0
  }

  /** A free back block: the back cursor steps down. */
  lemma FragmentFreeBack(c: Cursor, lo: nat)
    requires FragmentInv(c, lo) && c.front < c.back && !Occupied(c.disk, c.back)
    ensures FragmentInv(c.(back := c.back - 1), lo)
    ensures FragmentMeasure(c.(back := c.back - 1)) < FragmentMeasure(c)
  {
    forall f | f in c.disk.files
      ensures f.lastBlock < c.back
    {
      var j :| 0 <= j < |c.disk.files| && c.disk.files[j] == f;
    }
  }

  /** A file `g` at the front: the front cursor jumps past it. */
  lemma FragmentPastFront(c: Cursor, lo: nat, g: File)
    requires FragmentInv(c, lo) && c.front < c.back && g in c.disk.files && Covers(g, c.front)
    ensures c.front + Size(g) == g.lastBlock + 1
    ensures FragmentInv(c.(front := c.front + Size(g)), lo)
    ensures FragmentMeasure(c.(front := c.front + Size(g))) < FragmentMeasure(c)
  {
    PastFile(c.disk, g);
    forall b | lo <= b < g.lastBlock + 1
      ensures Occupied(c.disk, b)
    {
      if b >= c.front {
        assert Covers(g, b);
      }
    }
  }

  /** The part of `file` that moves to the free run at `front`: as many of
      its blocks as the run holds, and at most the whole file. */
  function MovedPart(d: DiskMap, front: nat, file: File): (head: File)
    requires WellFormed(d) && file in d.files && front < file.firstBlock && !Occupied(d, front)
    ensures head.id == file.id && head.firstBlock == front <= head.lastBlock < file.firstBlock
    ensures Size(head) <= Size(file)
    ensures Size(head) == Size(file) <==> Size(file) <= GetFreeSize(d, front)
    ensures forall g :: g in d.files ==> Apart(g, head)
  {
    FreeRun(d, front, file);
    var move := Min(GetFreeSize(d, front), Size(file));
    File(file.id, front, front + move - 1)
  }

  /** What stays of `file` when `head` moved away: its first blocks, as
      many as did not move. */
  function Rest(file: File, head: File): (rest: File)
    requires file.firstBlock <= file.lastBlock && head.firstBlock <= head.lastBlock && Size(head) < Size(file)
    ensures rest.id == file.id && file.firstBlock == rest.firstBlock <= rest.lastBlock < file.lastBlock
    ensures Size(rest) + Size(head) == Size(file)
  {
    File(file.id, file.firstBlock, file.firstBlock + (Size(file) - Size(head)) - 1)
  }

  /** `insert_file(f)` for a run that touches no file and lies on the disk:
      it does not abort, and it adds exactly `f`. */
  function Placed(d: DiskMap, f: File): (r: DiskMap)
    requires WellFormed(d) && Fits(d.files, f) && f.lastBlock < d.size
    ensures InsertFile(d, f) == Some(r)
    ensures WellFormed(r) && r.size == d.size
    ensures forall g :: g in r.files <==> g in d.files || g == f
  {
    InsertFitting(d, f);
    InsertFile(d, f).value
  }

  /** Placing a run adds its blocks to its id's count. */
  lemma PlacedBlocks(d: DiskMap, f: File)
    requires WellFormed(d) && Fits(d.files, f) && f.lastBlock < d.size
    ensures forall id :: Blocks(Placed(d, f).files, id) == Blocks(d.files, id) + Share(f, id)
  {
    InsertCounts(d, f);
  }

  /** The body of the loop when the back block holds `file` and `head` is
      the part of it that the free run at the front takes: `head` replaces
      the file, and what does not move stays in the file's first blocks. */
  function FragmentMove(d: DiskMap, file: File, head: File): (r: DiskMap)
    requires WellFormed(d) && file in d.files && head.id == file.id
    requires head.firstBlock <= head.lastBlock < file.firstBlock && Size(head) <= Size(file)
    requires forall g :: g in d.files ==> Apart(g, head)
    ensures WellFormed(r) && r.size == d.size
  {
    var d2 := Relocate(d, file, head);
    if Size(head) < Size(file) then
      RestFits(d, file, d2, head, Rest(file, head));
      Placed(d2, Rest(file, head))
    else
      d2
  }

  /** The files after a fragmenting move: every other file stays, `head` is
      there, and every other new run lies inside the file's old place. */
  lemma FragmentMoveFiles(d: DiskMap, file: File, head: File)
    requires WellFormed(d) && file in d.files && head.id == file.id
    requires head.firstBlock <= head.lastBlock < file.firstBlock && Size(head) <= Size(file)
    requires forall g :: g in d.files ==> Apart(g, head)
    ensures var r := FragmentMove(d, file, head);
      && head in r.files
      && (forall g :: g in d.files && g != file ==> g in r.files)
      && forall g :: g in r.files ==>
        || (g in d.files && g != file)
        || g == head
        || (file.firstBlock <= g.firstBlock && g.lastBlock <= file.lastBlock)
  {
    var d2 := Relocate(d, file, head);
    if Size(head) < Size(file) {
      RestFits(d, file, d2, head, Rest(file, head));
    }
  }

  /** A fragmenting move keeps every file's block count. */
  lemma FragmentMoveBlocks(d: DiskMap, file: File, head: File)
    requires WellFormed(d) && file in d.files && head.id == file.id
    requires head.firstBlock <= head.lastBlock < file.firstBlock && Size(head) <= Size(file)
    requires forall g :: g in d.files ==> Apart(g, head)
    ensures forall id :: Blocks(FragmentMove(d, file, head).files, id) == Blocks(d.files, id)
  {
    var d2 := Relocate(d, file, head);
    RelocateBlocks(d, file, head);
    if Size(head) < Size(file) {
      RestFits(d, file, d2, head, Rest(file, head));
      PlacedBlocks(d2, Rest(file, head));
    }
  }

  /** `remove_file(file)` followed by `insert_file(head)`, for a run `head`
      of the same file that lies in a free stretch of the disk: neither call
      aborts, `head` takes the place of `file`, and the counts change by
      their difference. */
  function Relocate(d: DiskMap, file: File, head: File): (r: DiskMap)
    requires WellFormed(d) && file in d.files && head.id == file.id
    requires head.firstBlock <= head.lastBlock < file.firstBlock
    requires forall g :: g in d.files ==> Apart(g, head)
    ensures WellFormed(r) && r.size == d.size && |r.files| == |d.files|
    ensures forall g :: g in r.files <==> (g in d.files && g != file) || g == head
  {
    RemoveListed(d, file);
    var d1 := RemoveFile(d, file).value;
    InsertFitting(d1, head);
    InsertFile(d1, head).value
  }

  /** Relocating trades the file's (id, size) pair for the run's. */
  lemma RelocateShape(d: DiskMap, file: File, head: File)
    requires WellFormed(d) && file in d.files && head.id == file.id
    requires head.firstBlock <= head.lastBlock < file.firstBlock
    requires forall g :: g in d.files ==> Apart(g, head)
    ensures Shape(Relocate(d, file, head).files) + multiset{(file.id, Size(file))} == Shape(d.files) + multiset{(head.id, Size(head))}
    ensures Size(head) == Size(file) ==> Shape(Relocate(d, file, head).files) == Shape(d.files)
  {
    RemoveListed(d, file);
    RemoveCounts(d, file);
    var d1 := RemoveFile(d, file).value;
    InsertCounts(d1, head);
    if Size(head) == Size(file) {
      Cancel(Shape(Relocate(d, file, head).files), Shape(d.files), (file.id, Size(file)));
    }
  }

  /** Adding the same element to two multisets keeps them apart or equal. */
  lemma Cancel<T>(a: multiset<T>, b: multiset<T>, x: T)
    requires a + multiset{x} == b + multiset{x}
    ensures a == b
  {
    assert a == a + multiset{x} - multiset{x};
  }

  /** Relocating trades the file's blocks for the run's. */
  lemma RelocateBlocks(d: DiskMap, file: File, head: File)
    requires WellFormed(d) && file in d.files && head.id == file.id
    requires head.firstBlock <= head.lastBlock < file.firstBlock
    requires forall g :: g in d.files ==> Apart(g, head)
    ensures forall id :: Blocks(Relocate(d, file, head).files, id) + Share(file, id) == Blocks(d.files, id) + Share(head, id)
  {
    RemoveListed(d, file);
    RemoveCounts(d, file);
    var d1 := RemoveFile(d, file).value;
    InsertCounts(d1, head);
  }

  /** What stays of a file after its tail moved away touches no other file
      and not the moved tail. */
  lemma RestFits(d: DiskMap, file: File, d2: DiskMap, head: File, rest: File)
    requires WellFormed(d) && file in d.files
    requires forall g :: g in d2.files <==> (g in d.files && g != file) || g == head
    requires head.lastBlock < file.firstBlock
    requires file.firstBlock == rest.firstBlock <= rest.lastBlock <= file.lastBlock
    ensures Fits(d2.files, rest)
  {
    forall g | g in d2.files
      ensures Apart(g, rest)
    {
      if g != head {
        SortedApart(d.files, g, file);
      }
    }
  }

  /** The invariant after a move. */
  lemma FragmentMoveKeeps(c: Cursor, lo: nat, file: File)
    requires FragmentInv(c, lo) && c.front < c.back
    requires file in c.disk.files && Covers(file, c.back) && !Occupied(c.disk, c.front)
    ensures c.front < file.firstBlock
    ensures var r := c.(disk := FragmentMove(c.disk, file, MovedPart(c.disk, c.front, file)));
      FragmentInv(r, lo) && Occupied(r.disk, r.front)
  {
    var head := MovedPart(c.disk, c.front, file);
    FragmentMoveFiles(c.disk, file, head);
    var r := c.(disk := FragmentMove(c.disk, file, head));
    assert Covers(head, c.front);
    forall b | lo <= b < c.front
      ensures Occupied(r.disk, b)
    {
      assert Occupied(c.disk, b);
      var g :| g in c.disk.files && Covers(g, b);
      assert g in r.disk.files;
    }
    forall g | g in r.disk.files && Covers(g, c.front)
      ensures g.firstBlock == c.front
    {
      assert g in c.disk.files && g != file ==> Occupied(c.disk, c.front);
    }
  }

  /** A free front block lies before the file holding the back block. */
  lemma FreeBeforeBack(d: DiskMap, front: nat, back: nat, file: File)
    requires file in d.files && Covers(file, back) && front < back && !Occupied(d, front)
    ensures front < file.firstBlock
  {
    assert file.firstBlock <= front ==> Covers(file, front);
  }

  /** One pass of the `while front < back` body. */
  function FragmentStep(c: Cursor, lo: nat): (r: Cursor)
    requires FragmentInv(c, lo) && c.front < c.back
    ensures r.disk.size == c.disk.size
  {
    match GetFile(c.disk, c.back)
    case None => c.(back := c.back - 1)
    case Some(file) =>
      match GetFile(c.disk, c.front)
      case Some(g) => c.(front := c.front + Size(g))
      case None =>
        FreeBeforeBack(c.disk, c.front, c.back, file);
        c.(disk := FragmentMove(c.disk, file, MovedPart(c.disk, c.front, file)))
  }

  /** What one pass keeps and how it progresses: the invariant, every
      file's block count, and a lower measure. */
  ghost predicate FragmentProgress(c: Cursor, r: Cursor, lo: nat)
    requires FragmentInv(c, lo)
  {
    && FragmentInv(r, lo)
    && FragmentMeasure(r) < FragmentMeasure(c)
    && forall id :: Blocks(r.disk.files, id) == Blocks(c.disk.files, id)
  }

  /** A pass that leaves the disk alone makes progress when the measure
      drops. */
  lemma SameDiskFragment(c: Cursor, r: Cursor, lo: nat)
    requires FragmentInv(c, lo) && FragmentInv(r, lo) && r.disk == c.disk
    requires FragmentMeasure(r) < FragmentMeasure(c)
    ensures FragmentProgress(c, r, lo)
  {
  }

  /** A move makes progress. */
  lemma FragmentMoveProgress(c: Cursor, lo: nat, file: File)
    requires FragmentInv(c, lo) && c.front < c.back
    requires file in c.disk.files && Covers(file, c.back) && !Occupied(c.disk, c.front)
    ensures c.front < file.firstBlock
    ensures FragmentProgress(c, c.(disk := FragmentMove(c.disk, file, MovedPart(c.disk, c.front, file))), lo)
  {
    FragmentMoveKeeps(c, lo, file);
    FragmentMoveBlocks(c.disk, file, MovedPart(c.disk, c.front, file));
  }

  /** A pass that finds a file at the front makes progress. */
  lemma FileAtFrontProgress(c: Cursor, lo: nat)
    requires FragmentInv(c, lo) && c.front < c.back
    requires GetFile(c.disk, c.back).Some? && GetFile(c.disk, c.front).Some?
    ensures FragmentProgress(c, FragmentStep(c, lo), lo)
  {
    var g := GetFile(c.disk, c.front).value;
    FragmentPastFront(c, lo, g);
    SameDiskFragment(c, c.(front := c.front + Size(g)), lo);
  }

  /** Every pass makes progress. */
  lemma FragmentStepKeeps(c: Cursor, lo: nat)
    requires FragmentInv(c, lo) && c.front < c.back
    ensures FragmentProgress(c, FragmentStep(c, lo), lo)
  {
    if GetFile(c.disk, c.back).None? {
      FragmentFreeBack(c, lo);
      SameDiskFragment(c, c.(back := c.back - 1), lo);
    } else if GetFile(c.disk, c.front).Some? {
      FileAtFrontProgress(c, lo);
    } else {
      FragmentMoveProgress(c, lo, GetFile(c.disk, c.back).value);
    }
  }

  /** From block `lo` on, no free block comes before a block holding a
      file. */
  ghost predicate Dense(d: DiskMap, lo: nat)
  {
    forall a, b :: lo <= a < b && Occupied(d, b) ==> Occupied(d, a)
  }

  /** Once the cursors have met, the disk is dense from `lo`. */
  lemma FragmentDone(c: Cursor, lo: nat)
    requires FragmentInv(c, lo) && c.back <= c.front
    ensures Dense(c.disk, lo)
  {
    forall a, b | lo <= a < b && Occupied(c.disk, b)
      ensures Occupied(c.disk, a)
    {
      var g :| g in c.disk.files && Covers(g, b);
    }
  }

  /** The loop run to its end. */
  function FragmentLoop(c: Cursor, lo: nat): (r: DiskMap)
    requires FragmentInv(c, lo)
    ensures WellFormed(r) && r.size == c.disk.size && Dense(r, lo)
    ensures forall id :: Blocks(r.files, id) == Blocks(c.disk.files, id)
    decreases FragmentMeasure(c)
  {
    if c.back <= c.front then
      FragmentDone(c, lo);
      c.disk
    else
      FragmentStepKeeps(c, lo);
      FragmentLoop(FragmentStep(c, lo), lo)
  }

  /** `compact_filesystem_fragmented`: the result holds as many blocks of
      every file as before, and from the first file's first block on it has
      no free block before a taken one. */
  function CompactFragmented(d: DiskMap): (r: DiskMap)
    requires WellFormed(d)
    ensures WellFormed(r) && r.size == d.size
    ensures forall id :: Blocks(r.files, id) == Blocks(d.files, id)
    ensures |d.files| > 0 ==> Dense(r, d.files[0].firstBlock)
  {
    if |d.files| == 0 then d
    else
      var (front, back) := GetBounds(d).value;
      FirstStart(d);
      var c := Cursor(d, front, back);
      assert forall f :: f in d.files ==> f.lastBlock <= back by {
        BoundsEnclose(d);
      }
      FragmentLoop(c, front)
  }

  // ---------------------------------------------------------------------
  // compact_filesystem_defragmented

  /** What the defragmenting loop keeps: the disk stays well formed and
      non-empty, the front cursor is on the disk, on a free block or a
      file's first block, and a positive back cursor is on a free block or
      a file's last block. */
  predicate DefragInv(c: Cursor)
  {
    && WellFormed(c.disk) && |c.disk.files| > 0 && c.front <= c.disk.size
    && (forall f :: f in c.disk.files && Covers(f, c.front) ==> f.firstBlock == c.front)
    && (c.back > 0 ==> forall f :: f in c.disk.files && Covers(f, c.back) ==> f.lastBlock == c.back)
  }

  /** Every file of `after` is a file of `before` with the same id and the
      same length, starting at the same block or further left. */
  ghost predicate MovedLeft(before: seq<File>, after: seq<File>)
  {
    forall f :: f in after ==> exists g :: g in before && Shifted(g, f)
  }

  /** `f` is `g` moved to the left (or not at all). */
  predicate Shifted(g: File, f: File)
  {
    g.id == f.id && g.lastBlock - g.firstBlock == f.lastBlock - f.firstBlock && f.firstBlock <= g.firstBlock
  }

  lemma MovedLeftRefl(a: seq<File>)
    ensures MovedLeft(a, a)
  {
    forall f | f in a
      ensures Shifted(f, f)
    {
    }
  }

  lemma MovedLeftTrans(a: seq<File>, b: seq<File>, c: seq<File>)
    requires MovedLeft(a, b) && MovedLeft(b, c)
    ensures MovedLeft(a, c)
  {
    forall f | f in c
      ensures exists g :: g in a && Shifted(g, f)
    {
      var h :| h in b && Shifted(h, f);
      var g :| g in a && Shifted(g, h);
      assert Shifted(g, f);
    }
  }

  /** A free back block, while the back cursor is positive. */
  lemma DefragFreeBack(c: Cursor)
    requires DefragInv(c) && c.back > 0 && !Occupied(c.disk, c.back)
    ensures DefragInv(c.(back := c.back - 1))
  {
  }

  /** A file `g` at the front: the front cursor jumps past it. */
  lemma DefragPastFront(c: Cursor, g: File)
    requires DefragInv(c) && g in c.disk.files && Covers(g, c.front)
    ensures c.front + Size(g) == g.lastBlock + 1
    ensures DefragInv(c.(front := c.front + Size(g)))
  {
    PastFile(c.disk, g);
  }

  /** A whole file moving into the free run at the front: the front cursor
      goes back to the first file and the back cursor below the file's old
      place. */
  function DefragMove(c: Cursor, file: File): (r: Cursor)
    requires DefragInv(c) && c.front < c.back
    requires file in c.disk.files && Covers(file, c.back) && !Occupied(c.disk, c.front)
    requires Size(file) <= GetFreeSize(c.disk, c.front)
    ensures r.disk.size == c.disk.size && r.back < c.back
  {
    var d2 := Relocate(c.disk, file, MovedPart(c.disk, c.front, file));
    Cursor(d2, GetBounds(d2).value.0, c.back - Size(file))
  }

  /** A whole-file move keeps the invariant, the file's id and length, and
      moves it to the left. */
  lemma DefragMoveFacts(c: Cursor, file: File)
    requires DefragInv(c) && c.front < c.back
    requires file in c.disk.files && Covers(file, c.back) && !Occupied(c.disk, c.front)
    requires Size(file) <= GetFreeSize(c.disk, c.front)
    ensures var r := DefragMove(c, file);
      && DefragInv(r)
      && |r.disk.files| == |c.disk.files| && Shape(r.disk.files) == Shape(c.disk.files)
      && MovedLeft(c.disk.files, r.disk.files)
  {
    var moved := MovedPart(c.disk, c.front, file);
    RelocateShape(c.disk, file, moved);
    DefragMoveKeeps(c, file, DefragMove(c, file), moved);
  }

  /** The invariant after a whole-file move. */
  lemma DefragMoveKeeps(c: Cursor, file: File, r: Cursor, moved: File)
    requires DefragInv(c) && c.front < c.back
    requires file in c.disk.files && Covers(file, c.back)
    requires WellFormed(r.disk) && r.disk.size == c.disk.size && |r.disk.files| > 0
    requires forall g :: g in r.disk.files <==> (g in c.disk.files && g != file) || g == moved
    requires moved.id == file.id && moved.firstBlock == c.front
    requires moved.firstBlock <= moved.lastBlock < file.firstBlock
    requires moved.lastBlock - moved.firstBlock == file.lastBlock - file.firstBlock
    requires r.front == r.disk.files[0].firstBlock && r.back + Size(file) == c.back
    ensures DefragInv(r) && MovedLeft(c.disk.files, r.disk.files)
  {
    FirstStart(r.disk);
    assert r.disk.files[0] in r.disk.files;
    assert file.lastBlock == c.back;
    if r.back > 0 {
      forall f | f in r.disk.files && Covers(f, r.back)
        ensures f.lastBlock == r.back
      {
        if f != moved {
          SortedApart(c.disk.files, f, file);
        }
      }
    }
    forall f | f in r.disk.files
      ensures exists g :: g in c.disk.files && Shifted(g, f)
    {
      if f == moved {
        assert Shifted(file, f);
      } else {
        assert Shifted(f, f);
      }
    }
  }

  /** One pass of the `while back > 0` body. */
  function DefragStep(c: Cursor): (r: Cursor)
    requires DefragInv(c) && c.back > 0
    ensures r.disk.size == c.disk.size
  {
    match GetFile(c.disk, c.back)
    case None => c.(back := c.back - 1)
    case Some(file) =>
      match GetFile(c.disk, c.front)
      case Some(g) => c.(front := c.front + Size(g))
      case None => DefragAtGap(c, file)
  }

  /** The pass when the back block holds `file` and the front block is
      free: skip the file once the cursors have met, move on past a run too
      small for it, or move it into the run. Each of the three makes
      progress and keeps what the loop relies on. */
  function DefragAtGap(c: Cursor, file: File): (r: Cursor)
    requires DefragInv(c) && c.back > 0
    requires file in c.disk.files && Covers(file, c.back) && !Occupied(c.disk, c.front)
    ensures r.disk.size == c.disk.size
    ensures DefragProgress(c, r)
  {
    if c.back <= c.front then
      SameDiskProgress(c, DefragSkip(c, file));
      DefragSkip(c, file)
    else if Size(file) > GetFreeSize(c.disk, c.front) then
      SameDiskProgress(c, DefragPastGap(c, file));
      DefragPastGap(c, file)
    else
      DefragMoveFacts(c, file);
      DefragMove(c, file)
  }

  /** What one pass keeps and how it progresses: the invariant, the files'
      ids and lengths, files moving only to the left, and a lower back
      cursor or the same one with a higher front cursor. */
  ghost predicate DefragProgress(c: Cursor, r: Cursor)
    requires DefragInv(c)
  {
    && DefragInv(r)
    && (r.back < c.back || (r.back == c.back && c.front < r.front))
    && |r.disk.files| == |c.disk.files| && Shape(r.disk.files) == Shape(c.disk.files)
    && MovedLeft(c.disk.files, r.disk.files)
  }

  /** A pass that leaves the disk alone makes progress when its cursors do. */
  lemma SameDiskProgress(c: Cursor, r: Cursor)
    requires DefragInv(c) && DefragInv(r) && r.disk == c.disk
    requires r.back < c.back || (r.back == c.back && c.front < r.front)
    ensures DefragProgress(c, r)
  {
    MovedLeftRefl(c.disk.files);
  }

  /** Every pass makes progress. */
  lemma DefragStepKeeps(c: Cursor)
    requires DefragInv(c) && c.back > 0
    ensures DefragProgress(c, DefragStep(c))
  {
    if GetFile(c.disk, c.back).None? {
      DefragFreeBack(c);
      SameDiskProgress(c, DefragStep(c));
    } else if GetFile(c.disk, c.front).Some? {
      DefragPastFront(c, GetFile(c.disk, c.front).value);
      SameDiskProgress(c, DefragStep(c));
    }
  }

  /** The file at the back does not fit the free run at the front: the
      front cursor jumps past the run, onto the next file. */
  function DefragPastGap(c: Cursor, file: File): (r: Cursor)
    requires DefragInv(c) && c.front < c.back
    requires file in c.disk.files && Covers(file, c.back) && !Occupied(c.disk, c.front)
    requires Size(file) > GetFreeSize(c.disk, c.front)
    ensures DefragInv(r) && r.disk == c.disk && r.back == c.back && c.front < r.front
  {
    FreeRun(c.disk, c.front, file);
    var front := c.front + GetFreeSize(c.disk, c.front);
    var g :| g in c.disk.files && g.firstBlock == front;
    PastFile(c.disk, g);
    BeforeFile(c.disk, g);
    assert forall f :: f in c.disk.files && Covers(f, front) ==> f.firstBlock == front by {
      forall f | f in c.disk.files && Covers(f, front)
        ensures f.firstBlock == front
      {
        if f != g {
          SortedApart(c.disk.files, f, g);
        }
      }
    }
    c.(front := front)
  }

  /** The back cursor has reached the front: the file at the back stays
      where it is, the front cursor goes back to the first file and the back
      cursor jumps below the file (stopping at 0). */
  function DefragSkip(c: Cursor, file: File): (r: Cursor)
    requires DefragInv(c) && 0 < c.back <= c.front
    requires file in c.disk.files && Covers(file, c.back) && !Occupied(c.disk, c.front)
    ensures DefragInv(r) && r.disk == c.disk && r.back < c.back
  {
    var free := GetFreeSize(c.disk, c.front);
    assert free > 0;
    FirstStart(c.disk);
    assert c.disk.files[0] in c.disk.files;
    var back := if c.back >= Size(file) then c.back - Size(file) else 0;
    BeforeFile(c.disk, file);
    Cursor(c.disk, GetBounds(c.disk).value.0, back)
  }

  /** The loop run to its end. */
  function DefragLoop(c: Cursor): (r: DiskMap)
    requires DefragInv(c)
    ensures WellFormed(r) && r.size == c.disk.size
    ensures |r.files| == |c.disk.files| && Shape(r.files) == Shape(c.disk.files)
    ensures MovedLeft(c.disk.files, r.files)
    decreases c.back, c.disk.size - c.front
  {
    if c.back == 0 then
      MovedLeftRefl(c.disk.files);
      c.disk
    else
      var n := DefragStep(c);
      DefragStepKeeps(c);
      var r := DefragLoop(n);
      MovedLeftTrans(c.disk.files, n.disk.files, r.files);
      r
  }

  /** `compact_filesystem_defragmented`: the result has the same files with
      the same lengths, each one where it was or further left. */
  function CompactDefragmented(d: DiskMap): (r: DiskMap)
    requires WellFormed(d)
    ensures WellFormed(r) && r.size == d.size
    ensures |r.files| == |d.files| && Shape(r.files) == Shape(d.files)
    ensures MovedLeft(d.files, r.files)
  {
    if |d.files| == 0 then d
    else
      var (front, back) := GetBounds(d).value;
      FirstStart(d);
      LastEnd(d);
      assert d.files[0] in d.files;
      DefragLoop(Cursor(d, front, back))
  }

  // ---------------------------------------------------------------------
  // Checksums

  /** `block * id` for a block holding a file, 0 for a free one. */
  function BlockValue(d: DiskMap, b: nat): nat
    requires Sorted(d.files)
  {
    match GetFile(d, b)
    case Some(f) => b * f.id
    case None => 0
  }

  /** The sum of `block * id` over the blocks from `b` up to the first free
      one or the end of the disk. */
  function PrefixChecksum(d: DiskMap, b: nat): nat
    requires Sorted(d.files)
    decreases d.size - b
  {
    if b >= d.size || !Occupied(d, b) then 0
    else BlockValue(d, b) + PrefixChecksum(d, b + 1)
  }

  /** The sum of `block * id` over the blocks from `b` to the end of the
      disk, free blocks counting 0. */
  function FullChecksum(d: DiskMap, b: nat): nat
    requires Sorted(d.files)
    decreases d.size - b
  {
    if b >= d.size then 0
    else BlockValue(d, b) + FullChecksum(d, b + 1)
  }

  /** `calculate_checksum_fragmented`: the sum stops at the first free
      block. */
  function ChecksumFragmented(d: DiskMap): (r: nat)
    requires Sorted(d.files)
    ensures r <= ChecksumDefragmented(d)
    ensures Dense(d, 0) ==> r == ChecksumDefragmented(d)
  {
    ChecksumsAgree(d, 0);
    PrefixChecksum(d, 0)
  }

  /** `calculate_checksum_defragmented`: the sum over every block, to which
      free blocks add nothing, so a disk without files sums to 0. */
  function ChecksumDefragmented(d: DiskMap): (r: nat)
    requires Sorted(d.files)
    ensures (forall b :: 0 <= b < d.size ==> !Occupied(d, b)) ==> r == 0
  {
    if forall b :: 0 <= b < d.size ==> !Occupied(d, b) then
      FullChecksumFree(d, 0);
      FullChecksum(d, 0)
    else FullChecksum(d, 0)
  }

  /** Past the last taken block the full sum adds nothing. */
  lemma {:induction false} FullChecksumFree(d: DiskMap, b: nat)
    requires Sorted(d.files) && forall a :: b <= a < d.size ==> !Occupied(d, a)
    ensures FullChecksum(d, b) == 0
    decreases d.size - b
  {
    if b < d.size {
      assert !Occupied(d, b);
      FullChecksumFree(d, b + 1);
    }
  }

  /** Stopping at the first free block gives at most the full sum, and the
      same sum when no free block comes before a taken one. */
  lemma {:induction false} ChecksumsAgree(d: DiskMap, b: nat)
    requires Sorted(d.files)
    ensures PrefixChecksum(d, b) <= FullChecksum(d, b)
    ensures Dense(d, b) ==> PrefixChecksum(d, b) == FullChecksum(d, b)
    decreases d.size - b
  {
    if b < d.size {
      ChecksumsAgree(d, b + 1);
      if !Occupied(d, b) && Dense(d, b) {
        FullChecksumFree(d, b);
      }
    }
  }

  // ---------------------------------------------------------------------
  // The two parts

  /** `solve_part_1`: `None` where parsing aborts. Since the parsed disk
      starts at block 0 and the compaction leaves it dense, the checksum
      that stops at the first free block counts every file block. */
  function SolvePart1(s: string): (r: Option<nat>)
    requires NonEmptyFiles(s)
    ensures r.None? <==> !AllDigits(s)
    ensures r.Some? ==> Parse(s).Some? && r.value == ChecksumDefragmented(CompactFragmented(Parse(s).value))
  {
    assert |s| > 0 ==> s[0] != '0' by {
      if |s| > 0 {
        assert s[2 * 0] != '0';
      }
    }
    match Parse(s)
    case None => None
    case Some(d) =>
      var e := CompactFragmented(d);
      Some(ChecksumFragmented(e))
  }

  /** `solve_part_2`: `None` where parsing aborts. */
  function SolvePart2(s: string): (r: Option<nat>)
    requires NonEmptyFiles(s)
    ensures r.None? <==> !AllDigits(s)
    ensures r.Some? ==> Parse(s).Some? && exists e :: (
      && WellFormed(e) && Shape(e.files) == Shape(Parse(s).value.files)
      && MovedLeft(Parse(s).value.files, e.files) && r.value == ChecksumDefragmented(e))
  {
    assert |s| > 0 ==> s[0] != '0' by {
      if |s| > 0 {
        assert s[2 * 0] != '0';
      }
    }
    match Parse(s)
    case None => None
    case Some(d) =>
      var e := CompactDefragmented(d);
      Some(ChecksumDefragmented(e))
  }
}
