/** When a volume is well formed at the level of files: the layout drawn in unixv6fs.h,
    and no sector claimed twice. */
module Volumes {
  import opened Unixv6fs
  import opened Inodes
  import opened Files

  /** The regions come in the documented order and inode numbers fit in 16 bits. */
  predicate Geometry(v: Vol) {
    && 2 <= v.sb.inodeStart
    && 1 <= v.sb.isize <= 4095
    && v.sb.inodeStart + v.sb.isize <= v.sb.blockStart <= v.sb.fsize
    && v.sb.inodeStart + v.sb.isize <= |v.disk|
  }

  predicate Live(v: Vol, n: int) {
    OnDisk(v, n) && Allocated(InodeAt(v, n))
  }

  /** The largest inode number the mount scan looks at. */
  function ScanLimit(sb: Superblock): int {
    INODES_PER_SECTOR * (sb.isize - 1)
  }

  // ---------------------------------------------------------------- sectors of a file

  /** Slot k of a file: data block k when k >= 0, indirect sector -1 - k when k < 0. */
  function Slot(d: Disk, i: Inode, k: int): int {
    if k >= 0 then FindSector(d, i, k)
    else if k >= -ADDR_SMALL_LENGTH then i.addr[-1 - k]
    else ERR_OFFSET_OUT_OF_RANGE
  }

  predicate UsesSlot(i: Inode, k: int) {
    if k >= 0 then k < Blocks(i)
    else -ADDR_SMALL_LENGTH <= k && Size(i) >= 4096 && -1 - k <= (Blocks(i) - 1) / ADDRESSES_PER_SECTOR
  }

  predicate InDataArea(v: Vol, s: int) {
    v.sb.blockStart <= s <= v.sb.fsize && s < |v.disk|
  }

  /** Every sector of every live file lies in the data area. */
  ghost predicate Placed(v: Vol) {
    forall n, k :: Live(v, n) && UsesSlot(InodeAt(v, n), k) ==> InDataArea(v, Slot(v.disk, InodeAt(v, n), k))
  }

  /** No sector serves two purposes. */
  ghost predicate Disjoint(v: Vol) {
    forall n, k, m, j ::
      && Live(v, n) && UsesSlot(InodeAt(v, n), k)
      && Live(v, m) && UsesSlot(InodeAt(v, m), j)
      && Slot(v.disk, InodeAt(v, n), k) == Slot(v.disk, InodeAt(v, m), j)
      ==> n == m && k == j
  }

  /** No live inode hides where the mount scan does not look. */
  ghost predicate AllScanned(v: Vol) {
    forall n :: Live(v, n) ==> n <= ScanLimit(v.sb)
  }

  ghost predicate FilesOk(v: Vol) {
    Geometry(v) && Placed(v) && Disjoint(v)
  }

  /** A sector of the data area that no live file uses. */
  ghost predicate Unused(v: Vol, s: int) {
    && v.sb.blockStart <= s <= v.sb.fsize
    && forall n, k :: Live(v, n) && UsesSlot(InodeAt(v, n), k) ==> Slot(v.disk, InodeAt(v, n), k) != s
  }

  lemma LiveFilesReadable(v: Vol, n: int)
    requires FilesOk(v) && Live(v, n)
    ensures Readable(v.disk, InodeAt(v, n))
  {
    hide FindSector, InodeAt;
    var i := InodeAt(v, n);
    forall b | 0 <= b < Blocks(i) ensures BlockOk(v.disk, i, b) {
      assert UsesSlot(i, b);
    }
  }

  /** The bytes of live file n. */
  ghost function Data(v: Vol, n: int): seq<Byte>
    requires FilesOk(v) && Live(v, n)
  {
    LiveFilesReadable(v, n);
    Content(v.disk, InodeAt(v, n))
  }

  // ---------------------------------------------------------------- framing

  /** Disk e holds the same bytes as d in every sector the file uses. */
  ghost predicate SameSectors(d: Disk, e: Disk, i: Inode) {
    forall k :: UsesSlot(i, k) ==>
      0 <= Slot(d, i, k) < |d| && Slot(d, i, k) < |e| && e[Slot(d, i, k)] == d[Slot(d, i, k)]
  }

  lemma SameBlock(d: Disk, e: Disk, i: Inode, b: nat)
    requires SameSectors(d, e, i) && b < Blocks(i)
    ensures FindSector(e, i, b) == FindSector(d, i, b) && BlockOk(d, i, b) && BlockOk(e, i, b)
    ensures e[FindSector(e, i, b)] == d[FindSector(d, i, b)]
  {
    assert UsesSlot(i, b);
    assert Slot(d, i, b) >= 0;
    if SectorCount(i) > ADDR_SMALL_LENGTH {
      assert UsesSlot(i, -1 - b / ADDRESSES_PER_SECTOR);
      assert Slot(d, i, -1 - b / ADDRESSES_PER_SECTOR) == i.addr[b / ADDRESSES_PER_SECTOR];
    }
  }

  lemma SameSlot(d: Disk, e: Disk, i: Inode, k: int)
    requires SameSectors(d, e, i) && UsesSlot(i, k)
    ensures Slot(e, i, k) == Slot(d, i, k)
  {
    if k >= 0 {
      SameBlock(d, e, i, k);
    }
  }

  lemma SameContent(d: Disk, e: Disk, i: Inode)
    requires SameSectors(d, e, i)
    ensures Readable(d, i) && Readable(e, i) && Content(e, i) == Content(d, i)
  {
    hide FindSector, Size;
    forall b | 0 <= b < Blocks(i) ensures BlockOk(d, i, b) && BlockOk(e, i, b) {
      SameBlock(d, e, i, b);
    }
    forall k | 0 <= k < Size(i) ensures Content(e, i)[k] == Content(d, i)[k] {
      SameBlock(d, e, i, k / SECTOR_SIZE);
    }
  }
}
