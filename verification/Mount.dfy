/** mount.c as functions on values: the scan of the inode table that rebuilds both bitmaps,
    and what the searches can therefore answer. */
module Mounting {
  import opened Unixv6fs
  import opened BmBlock
  import opened Inodes
  import opened Files
  import opened Volumes
  import opened Hierarchy

  // ---------------------------------------------------------------- one file

  /** The first block number from k on that `inode_findsector` refuses. */
  function Stop(d: Disk, i: Inode, k: nat): (r: nat)
    requires k <= SectorCount(i)
    ensures k <= r <= SectorCount(i) && FindSector(d, i, r) < 0
    ensures forall j :: k <= j < r ==> FindSector(d, i, j) >= 0
    decreases SectorCount(i) - k
  {
    if FindSector(d, i, k) < 0 then k else Stop(d, i, k + 1)
  }

  /** The address slots that are marked whatever they hold. */
  predicate MarkedSlot(i: Inode, x: int) {
    0 <= x < ADDR_SMALL_LENGTH && SectorCount(i) <= MEDIUM_FILE_SECTORS && x <= SectorCount(i) / ADDRESSES_PER_SECTOR
  }

  /** What `write_sector_on_bitmap` passes to `bm_set` for one inode. */
  function Marked(d: Disk, i: Inode): set<int> {
    (set x | 0 <= x < ADDR_SMALL_LENGTH && MarkedSlot(i, x) :: i.addr[x])
    + (set k | 0 <= k < Stop(d, i, 0) :: FindSector(d, i, k))
  }

  /** The code it returns: the refusal that ended the loop, unless it reads "out of range". */
  function MarkCode(d: Disk, i: Inode): int {
    var c := FindSector(d, i, Stop(d, i, 0));
    if c != ERR_OFFSET_OUT_OF_RANGE then c else ERR_NONE
  }

  /** Every sector the file uses is marked. */
  ghost predicate MarksAll(d: Disk, i: Inode) {
    forall k :: UsesSlot(i, k) ==> Slot(d, i, k) in Marked(d, i)
  }

  /** The scan of a file reports success with every used sector marked exactly when all its
      blocks are found, and the block number just past a file of whole blocks is found too
      or refused as out of range. */
  lemma ScanIsExact(d: Disk, i: Inode)
    requires Allocated(i)
    ensures MarkCode(d, i) == ERR_NONE && MarksAll(d, i) <==>
      && (forall b :: 0 <= b < Blocks(i) ==> FindSector(d, i, b) >= 0)
      && (FindSector(d, i, Size(i) / SECTOR_SIZE) >= 0 || FindSector(d, i, Size(i) / SECTOR_SIZE) == ERR_OFFSET_OUT_OF_RANGE)
  {
    var stop, last := Stop(d, i, 0), Size(i) / SECTOR_SIZE;
    assert SectorCount(i) == last + 1;
    if forall b :: 0 <= b < Blocks(i) ==> FindSector(d, i, b) >= 0 {
      forall k | UsesSlot(i, k) ensures Slot(d, i, k) in Marked(d, i) {
        if k < 0 {
          assert MarkedSlot(i, -1 - k);
        } else {
          assert FindSector(d, i, k) >= 0;
        }
      }
    } else {
      var b :| 0 <= b < Blocks(i) && FindSector(d, i, b) < 0;
      assert UsesSlot(i, b) && Slot(d, i, b) < 0;
    }
  }

  // ---------------------------------------------------------------- the table

  /** Inode numbers 1..m that the scan marks. */
  function ScannedInodes(v: Vol, m: nat): set<int> {
    set n | 1 <= n <= m && OnDisk(v, n) && Allocated(InodeAt(v, n))
  }

  /** Sectors marked on behalf of inodes 1..m. */
  function ScannedSectors(v: Vol, m: nat): (s: set<int>) {
    if m == 0 then {}
    else if OnDisk(v, m) && Allocated(InodeAt(v, m)) then ScannedSectors(v, m - 1) + Marked(v.disk, InodeAt(v, m))
    else ScannedSectors(v, m - 1)
  }

  /** What the visit of the m-th number answers. The number is held in 16 bits. */
  function VisitCode(v: Vol, m: nat): int {
    var (c, i) := ReadInode(v, m % 0x1_0000);
    if c == ERR_NONE then MarkCode(v.disk, i)
    else if c == ERR_UNALLOCATED_INODE then ERR_NONE
    else c
  }

  /** The first failure among visits 1..m. */
  function ScanCode(v: Vol, m: nat): int {
    if m == 0 then ERR_NONE
    else
      var c := ScanCode(v, m - 1);
      if c != ERR_NONE then c else VisitCode(v, m)
  }

  /** Among the j numbers visited with row q of the table, one is live. */
  predicate RowUsed(v: Vol, q: nat, j: nat) {
    exists n :: INODES_PER_SECTOR * q < n <= INODES_PER_SECTOR * q + j && Live(v, n)
  }

  /** The table sectors that the scan of the first rows marks. */
  function TableSectors(v: Vol, rows: nat): set<int> {
    set q | 0 <= q < rows && RowUsed(v, q, INODES_PER_SECTOR) :: v.sb.inodeStart + q
  }

  /** A successful scan met only numbers that fit in 16 bits and lie on the disk; so a disk
      with more than 4096 sectors of inodes is never mounted. */
  lemma {:induction false} ScanStaysInTable(v: Vol, m: nat)
    requires ScanCode(v, m) == ERR_NONE
    ensures m < 0x1_0000 && forall n :: 1 <= n <= m ==> OnDisk(v, n)
  {
    hide InodeAt, MarkCode;
    if m > 0 {
      ScanStaysInTable(v, m - 1);
    }
  }

  /** The inode bitmap right after a mount. */
  function InodeBits(v: Vol): Bits
    requires v.sb.isize >= 1
  {
    Bits(ROOT_INUMBER, v.sb.isize * INODES_PER_SECTOR, 0, ScannedInodes(v, ScanLimit(v.sb)))
  }

  /** The sector bitmap right after a mount. */
  function SectorBits(v: Vol): Bits
    requires v.sb.isize >= 1
  {
    Bits(v.sb.blockStart, v.sb.fsize, 0, MarkedSectors(v, ScanLimit(v.sb), v.sb.isize - 1) * Interval(v.sb.blockStart, v.sb.fsize))
  }

  /** All sectors passed to `bm_set` for inodes 1..m and the first rows of the table. */
  function MarkedSectors(v: Vol, m: nat, rows: nat): set<int> {
    ScannedSectors(v, m) + TableSectors(v, rows)
  }

  /** What the bitmaps range over, and which numbers a mount visits. */
  lemma MountRanges(v: Vol)
    requires v.sb.isize >= 1
    ensures InodeBits(v).min == 1 && InodeBits(v).max == 16 * v.sb.isize && InodeBits(v).cursor == 0
    ensures SectorBits(v).min == v.sb.blockStart && SectorBits(v).max == v.sb.fsize && SectorBits(v).cursor == 0
    ensures ScanLimit(v.sb) == 16 * (v.sb.isize - 1)
    ensures forall n :: n in InodeBits(v).marks <==> 1 <= n <= 16 * (v.sb.isize - 1) && Live(v, n)
  {
    hide InodeAt;
  }

  lemma {:induction false} ScanReaches(v: Vol, m: nat, n: int)
    requires ScanCode(v, m) == ERR_NONE && 1 <= n <= m && Live(v, n)
    ensures MarkCode(v.disk, InodeAt(v, n)) == ERR_NONE && Marked(v.disk, InodeAt(v, n)) <= ScannedSectors(v, m)
  {
    hide InodeAt, MarkCode, Marked;
    ScanStaysInTable(v, m);
    if n < m {
      ScanReaches(v, m - 1, n);
    }
  }

  /** What a successful scan means on any volume, well formed or not: the inode bitmap
      is exact for the numbers scanned, and each live file among them has every sector it
      uses marked, if it lies in the range of the bitmap, unless one of its blocks was
      refused with the very code that means "past the end". */
  lemma ScanMeans(v: Vol, n: int, k: int)
    requires v.sb.isize >= 1 && ScanCode(v, ScanLimit(v.sb)) == ERR_NONE && 1 <= n <= ScanLimit(v.sb)
    ensures n in InodeBits(v).marks <==> Live(v, n)
    ensures Live(v, n) && UsesSlot(InodeAt(v, n), k) && v.sb.blockStart <= Slot(v.disk, InodeAt(v, n), k) <= v.sb.fsize ==>
      || Slot(v.disk, InodeAt(v, n), k) in SectorBits(v).marks
      || exists b :: 0 <= b < Blocks(InodeAt(v, n)) && FindSector(v.disk, InodeAt(v, n), b) == ERR_OFFSET_OUT_OF_RANGE
  {
    hide InodeAt, FindSector, UsesSlot, Slot, Marked, MarkCode, Size;
    if Live(v, n) {
      var i := InodeAt(v, n);
      ScanReaches(v, ScanLimit(v.sb), n);
      FoundOrRefused(v.disk, i);
    }
  }

  lemma FoundOrRefused(d: Disk, i: Inode)
    requires Allocated(i) && MarkCode(d, i) == ERR_NONE
    ensures MarksAll(d, i) || exists b :: 0 <= b < Blocks(i) && FindSector(d, i, b) == ERR_OFFSET_OUT_OF_RANGE
  {
    hide FindSector, Size;
    var stop := Stop(d, i, 0);
    assert FindSector(d, i, stop) == ERR_OFFSET_OUT_OF_RANGE;
    if stop >= Blocks(i) {
      assert stop == Size(i) / SECTOR_SIZE || FindSector(d, i, Size(i) / SECTOR_SIZE) >= 0;
      ScanIsExact(d, i);
    }
  }

  /** Mount soundness. When the scan reports success on a volume whose live files have their
      blocks in place, the inode bitmap holds exactly the live numbers and the sector bitmap
      holds every sector in use. */
  lemma MountIsSound(v: Vol)
    requires FilesOk(v) && AllScanned(v) && ScanCode(v, ScanLimit(v.sb)) == ERR_NONE
    ensures InodeBits(v).Ok() && SectorBits(v).Ok()
    ensures forall n :: n in InodeBits(v).marks <==> Live(v, n)
    ensures forall n, k :: Live(v, n) && UsesSlot(InodeAt(v, n), k) ==> Slot(v.disk, InodeAt(v, n), k) in SectorBits(v).marks
  {
    hide InodeAt, FindSector, UsesSlot, Slot, Marked, MarkCode, Size;
    forall n, k | Live(v, n) && UsesSlot(InodeAt(v, n), k) ensures Slot(v.disk, InodeAt(v, n), k) in SectorBits(v).marks {
      var i := InodeAt(v, n);
      LiveFilesReadable(v, n);
      LiveNumber(v, n);
      ScanReaches(v, ScanLimit(v.sb), n);
      ReadableIsMarked(v.disk, i);
      assert InDataArea(v, Slot(v.disk, i, k));
    }
  }

  lemma LiveNumber(v: Vol, n: int)
    requires Live(v, n)
    ensures 1 <= n < INODES_PER_SECTOR * v.sb.isize
  {
  }

  lemma ReadableIsMarked(d: Disk, i: Inode)
    requires Allocated(i) && Readable(d, i) && MarkCode(d, i) == ERR_NONE
    ensures MarksAll(d, i)
  {
    hide FindSector, Size;
    var stop, last := Stop(d, i, 0), Size(i) / SECTOR_SIZE;
    forall b | 0 <= b < Blocks(i) ensures FindSector(d, i, b) >= 0 {
      assert BlockOk(d, i, b);
    }
    assert FindSector(d, i, stop) == ERR_OFFSET_OUT_OF_RANGE;
    assert stop > last ==> FindSector(d, i, last) >= 0;
    ScanIsExact(d, i);
  }

  // ---------------------------------------------------------------- when the scan succeeds

  /** The block number just past the full blocks is found, or refused as out of range. */
  predicate EndFound(d: Disk, i: Inode) {
    var c := FindSector(d, i, Size(i) / SECTOR_SIZE);
    c >= 0 || c == ERR_OFFSET_OUT_OF_RANGE
  }

  lemma {:induction false} ScanSucceedsIff(v: Vol, m: nat)
    requires Geometry(v) && m <= ScanLimit(v.sb)
    ensures ScanCode(v, m) == ERR_NONE <==> forall n :: 1 <= n <= m && Live(v, n) ==> MarkCode(v.disk, InodeAt(v, n)) == ERR_NONE
  {
    hide InodeAt, MarkCode;
    if m > 0 {
      ScanSucceedsIff(v, m - 1);
    }
  }

  /** A volume of readable files mounts exactly when every live file's end is found. For an
      indirect file of whole blocks this is the entry behind its last block. */
  lemma ScanOfFilesSucceedsIff(v: Vol)
    requires FilesOk(v)
    ensures ScanCode(v, ScanLimit(v.sb)) == ERR_NONE <==>
      forall n :: 1 <= n <= ScanLimit(v.sb) && Live(v, n) ==> EndFound(v.disk, InodeAt(v, n))
  {
    hide InodeAt, MarkCode, EndFound, Readable;
    ScanSucceedsIff(v, ScanLimit(v.sb));
    forall n | 1 <= n <= ScanLimit(v.sb) && Live(v, n)
      ensures MarkCode(v.disk, InodeAt(v, n)) == ERR_NONE <==> EndFound(v.disk, InodeAt(v, n))
    {
      LiveFilesReadable(v, n);
      ReadableScan(v.disk, InodeAt(v, n));
    }
  }

  lemma ReadableScan(d: Disk, i: Inode)
    requires Allocated(i) && Readable(d, i)
    ensures MarkCode(d, i) == ERR_NONE <==> EndFound(d, i)
  {
    hide FindSector, Size, MarksAll, MarkCode;
    forall b | 0 <= b < Blocks(i) ensures FindSector(d, i, b) >= 0 {
      assert BlockOk(d, i, b);
    }
    ScanIsExact(d, i);
    if MarkCode(d, i) == ERR_NONE {
      ReadableIsMarked(d, i);
    }
  }

  /** The files whose end is always found. */
  predicate EndsInside(i: Inode) {
    Size(i) < 4096 || Size(i) % SECTOR_SIZE != 0
  }

  lemma EndsInsideFound(d: Disk, i: Inode)
    requires Allocated(i) && Readable(d, i) && EndsInside(i)
    ensures EndFound(d, i)
  {
    if Size(i) >= 4096 {
      assert BlockOk(d, i, Size(i) / SECTOR_SIZE);
    }
  }

  /** A free inode number that a mount looks at. */
  ghost predicate InodeRoom(v: Vol) {
    exists n :: 1 <= n <= ScanLimit(v.sb) && !Live(v, n)
  }

  /** A sector of the data area that a mount does not mark. */
  ghost predicate SectorRoom(v: Vol) {
    v.sb.isize >= 1 && exists s :: v.sb.blockStart <= s <= v.sb.fsize && s !in SectorBits(v).marks
  }

  /** After such a mount the sector search hands out an unused sector or reports that none
      is left; and the inode search hands out a free number, one that the next mount will
      look at exactly when there is one. */
  lemma MountedSearches(v: Vol)
    requires FilesOk(v) && AllScanned(v) && ScanCode(v, ScanLimit(v.sb)) == ERR_NONE
    ensures InodeBits(v).Ok() && SectorBits(v).Ok()
    ensures SectorAnswer(v, NextFree(SectorBits(v))) && (NextFree(SectorBits(v)) >= 0 <==> SectorRoom(v))
    ensures var n := NextFree(InodeBits(v));
      && 1 <= n < 0x1_0000 && InTable(v.sb, n) && !Live(v, n)
      && (n <= ScanLimit(v.sb) <==> InodeRoom(v))
  {
    hide InodeAt, FindSector, UsesSlot, Slot, Live;
    MountIsSound(v);
    var ib := InodeBits(v);
    assert ib.Free(ScanLimit(v.sb) + 1);
    FreshSearchFindsSmallest(ib, ScanLimit(v.sb) + 1);
    if x :| 1 <= x <= ScanLimit(v.sb) && !Live(v, x) {
      assert ib.Free(x);
      FreshSearchFindsSmallest(ib, x);
    }
  }

  // ---------------------------------------------------------------- mounting

  /** The volume a disk image holds: its superblock is sector 1. */
  function VolumeOf(d: Disk): Vol
    requires |d| > SUPERBLOCK_SECTOR
  {
    Vol(d, SuperblockOf(d[SUPERBLOCK_SECTOR]))
  }

  /** The return code of `mountv6`. */
  function MountCode(d: Disk): int {
    if |d| <= BOOTBLOCK_SECTOR then ERR_IO
    else if d[BOOTBLOCK_SECTOR][0] != BOOTBLOCK_MAGIC_NUM then ERR_BAD_BOOT_SECTOR
    else if |d| <= SUPERBLOCK_SECTOR then ERR_IO
    else
      var v := VolumeOf(d);
      if v.sb.isize * INODES_PER_SECTOR < ROOT_INUMBER || v.sb.fsize < v.sb.blockStart then ERR_NOMEM
      else ScanCode(v, ScanLimit(v.sb))
  }
}
