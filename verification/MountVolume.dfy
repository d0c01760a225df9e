/** mount.c in place: the two bitmaps filled by scanning the inode table. */
module VolumeMounting {
  import opened Unixv6fs
  import opened BmBlock
  import opened Inodes
  import opened Volumes
  import opened Filesystem
  import opened Mounting

  /** The address slots below k. */
  function Heads(i: Inode, k: nat): set<int> {
    set x | 0 <= x < ADDR_SMALL_LENGTH && x < k :: i.addr[x]
  }

  function FoundBelow(d: Disk, i: Inode, k: nat): set<int> {
    set j | 0 <= j < k :: FindSector(d, i, j)
  }

  lemma MarkedSplits(d: Disk, i: Inode)
    ensures Marked(d, i) ==
      (if SectorCount(i) <= MEDIUM_FILE_SECTORS then Heads(i, SectorCount(i) / ADDRESSES_PER_SECTOR + 1) else {})
      + FoundBelow(d, i, Stop(d, i, 0))
  {
    hide FindSector, Size, Stop;
  }

  lemma StopIs(d: Disk, i: Inode, k: nat)
    requires (forall j :: 0 <= j < k ==> FindSector(d, i, j) >= 0) && FindSector(d, i, k) < 0 && k <= SectorCount(i)
    ensures Stop(d, i, 0) == k
  {
    hide FindSector, Size;
    var s := Stop(d, i, 0);
    assert s < k ==> FindSector(d, i, s) >= 0;
  }

  lemma FoundInRange(d: Disk, i: Inode, k: int)
    requires FindSector(d, i, k) >= 0
    ensures 0 <= k < SectorCount(i)
  {
  }

  /** The sectors of a that a bitmap over [min, max] can hold, one more marked. */
  lemma MarkOne(before: set<int>, a: set<int>, x: int, min: int, max: int)
    ensures before + a * Interval(min, max) + (if min <= x <= max then {x} else {}) == before + (a + {x}) * Interval(min, max)
  {
  }

  lemma OneMoreHead(i: Inode, k: nat)
    requires k < ADDR_SMALL_LENGTH
    ensures Heads(i, k + 1) == Heads(i, k) + {i.addr[k]}
    ensures Heads(i, 0) == {}
  {
  }

  /** The first loop of `write_sector_on_bitmap`. */
  method MarkHeads(u: UnixFs, inode: Inode, maxIndex: nat)
    requires u.Valid() && maxIndex < ADDR_SMALL_LENGTH
    modifies u.fbm.bm
    ensures u.Valid() && u.ibm.View() == old(u.ibm.View())
    ensures u.fbm.View() ==
      old(u.fbm.View()).(marks := old(u.fbm.Marks()) + Heads(inode, maxIndex + 1) * Interval(u.fbm.min, u.fbm.max))
  {
    hide Heads, Interval;
    ghost var before := u.fbm.Marks();
    ghost var range := Interval(u.fbm.min, u.fbm.max);
    var index := 0;
    OneMoreHead(inode, 0);
    assert before + Heads(inode, 0) * range == before;
    while index <= maxIndex
      invariant 0 <= index <= maxIndex + 1
      invariant u.Valid() && u.ibm.View() == old(u.ibm.View())
      invariant u.fbm.View() == old(u.fbm.View()).(marks := before + Heads(inode, index) * range)
    {
      MarkOne(before, Heads(inode, index), inode.addr[index], u.fbm.min, u.fbm.max);
      OneMoreHead(inode, index);
      u.fbm.Set(inode.addr[index]);
      index := index + 1;
    }
  }

  lemma OneMoreFound(d: Disk, i: Inode, k: nat)
    ensures FoundBelow(d, i, k + 1) == FoundBelow(d, i, k) + {FindSector(d, i, k)}
    ensures FoundBelow(d, i, 0) == {}
  {
    hide FindSector;
  }

  /** The second loop of `write_sector_on_bitmap`: block 0 is visited twice, then every
      block in turn until one is refused. The refusal is returned. */
  method MarkFound(u: UnixFs, inode: Inode) returns (sector: int)
    requires u.Valid()
    modifies u.fbm.bm
    ensures u.Valid() && u.ibm.View() == old(u.ibm.View())
    ensures sector == FindSector(u.f, inode, Stop(u.f, inode, 0))
    ensures u.fbm.View() ==
      old(u.fbm.View()).(marks := old(u.fbm.Marks()) + FoundBelow(u.f, inode, Stop(u.f, inode, 0)) * Interval(u.fbm.min, u.fbm.max))
  {
    hide FindSector, Size, Stop, FoundBelow, Interval;
    ghost var d, before := u.f, u.fbm.Marks();
    ghost var range := Interval(u.fbm.min, u.fbm.max);
    var sectorIndex := 0;
    sector := FindSector(u.f, inode, sectorIndex);
    ghost var asked, marked := 0, 0;
    OneMoreFound(d, inode, 0);
    assert before + FoundBelow(d, inode, 0) * range == before;
    while sector >= 0
      invariant u.Valid() && u.ibm.View() == old(u.ibm.View()) && 0 <= sectorIndex
      invariant asked == (if sectorIndex == 0 then 0 else sectorIndex - 1) && asked <= SectorCount(inode)
      invariant marked == (if sectorIndex == 1 then 1 else asked)
      invariant sector == FindSector(d, inode, asked)
      invariant forall j :: 0 <= j < marked ==> FindSector(d, inode, j) >= 0
      invariant u.fbm.View() == old(u.fbm.View()).(marks := before + FoundBelow(d, inode, marked) * range)
      decreases SectorCount(inode) + 1 - sectorIndex
    {
      FoundInRange(d, inode, asked);
      MarkOne(before, FoundBelow(d, inode, marked), sector, u.fbm.min, u.fbm.max);
      OneMoreFound(d, inode, asked);
      u.fbm.Set(sector);
      marked := asked + 1;
      asked := sectorIndex;
      sector := FindSector(u.f, inode, sectorIndex);
      sectorIndex := sectorIndex + 1;
    }
    StopIs(d, inode, asked);
  }

  /** `write_sector_on_bitmap` */
  method WriteSectorOnBitmap(u: UnixFs, inode: Inode) returns (ret: int)
    requires u.Valid()
    modifies u.fbm.bm
    ensures u.Valid() && u.ibm.View() == old(u.ibm.View())
    ensures ret == MarkCode(u.f, inode)
    ensures u.fbm.View() == old(u.fbm.View()).(marks := old(u.fbm.Marks()) + Marked(u.f, inode) * Interval(u.fbm.min, u.fbm.max))
  {
    hide FindSector, Size, Stop, Marked, Heads, FoundBelow, Interval;
    var total := SectorCount(inode);
    if total <= MEDIUM_FILE_SECTORS {
      MarkHeads(u, inode, total / ADDRESSES_PER_SECTOR);
    }
    var sector := MarkFound(u, inode);
    MarkedSplits(u.f, inode);
    if sector != ERR_OFFSET_OUT_OF_RANGE {
      return sector;
    }
    return ERR_NONE;
  }

  /** Nothing is marked before the scan. */
  lemma ScanStart(v: Vol)
    ensures MarkedSectors(v, 0, 0) == {} && ScannedInodes(v, 0) == {}
  {
  }

  /** One more number visited: what the inode read answers decides the marks and the code. */
  lemma ScanRound(v: Vol, m: nat, rows: nat)
    requires ScanCode(v, m) == ERR_NONE
    ensures var (c, i) := ReadInode(v, (m + 1) % 0x1_0000);
      && (c == ERR_NONE ==>
           && m + 1 < 0x1_0000 && m + 1 <= v.sb.isize * INODES_PER_SECTOR && ScanCode(v, m + 1) == MarkCode(v.disk, i)
           && ScannedInodes(v, m + 1) == ScannedInodes(v, m) + {m + 1}
           && MarkedSectors(v, m + 1, rows) == MarkedSectors(v, m, rows) + Marked(v.disk, i) && Live(v, m + 1))
      && (c == ERR_UNALLOCATED_INODE ==>
           && ScanCode(v, m + 1) == ERR_NONE && ScannedInodes(v, m + 1) == ScannedInodes(v, m)
           && MarkedSectors(v, m + 1, rows) == MarkedSectors(v, m, rows) && !Live(v, m + 1))
      && (c != ERR_NONE && c != ERR_UNALLOCATED_INODE ==> ScanCode(v, m + 1) == c)
  {
    hide InodeAt, MarkCode, Marked, TableSectors;
    ScanStaysInTable(v, m);
  }

  /** The sectors of a that a bitmap over [min, max] can hold, those of b marked too. */
  lemma MarkMore(a: set<int>, b: set<int>, min: int, max: int)
    ensures a * Interval(min, max) + b * Interval(min, max) == (a + b) * Interval(min, max)
  {
  }

  /** One more table sector visited. */
  lemma RowRound(v: Vol, rows: nat)
    ensures TableSectors(v, rows + 1) ==
      TableSectors(v, rows) + if RowUsed(v, rows, INODES_PER_SECTOR) then {v.sb.inodeStart + rows} else {}
  {
    hide RowUsed;
  }

  /** One more number visited with a row. */
  lemma RowGrows(v: Vol, q: nat, j: nat)
    ensures RowUsed(v, q, j + 1) <==> RowUsed(v, q, j) || Live(v, INODES_PER_SECTOR * q + j + 1)
    ensures !RowUsed(v, q, 0)
  {
    hide Live;
  }

  /** Bitmaps as after scanning inode numbers 1..m and some rows without a failure. */
  ghost predicate ScannedBits(v: Vol, m: nat, rows: nat, ib: Bits, fb: Bits) {
    && ScanCode(v, m) == ERR_NONE
    && ib == Bits(ROOT_INUMBER, v.sb.isize * INODES_PER_SECTOR, 0, ScannedInodes(v, m))
    && fb == Bits(v.sb.blockStart, v.sb.fsize, 0, MarkedSectors(v, m, rows) * Interval(v.sb.blockStart, v.sb.fsize))
  }

  /** One visit, on the bitmaps as values. */
  lemma VisitRound(v: Vol, m: nat, rows: nat, ib: Bits, fb: Bits)
    requires ScannedBits(v, m, rows, ib, fb)
    ensures var inr := (m + 1) % 0x1_0000;
      var (c, i) := ReadInode(v, inr);
      if c == ERR_NONE then
        && ib.min <= inr <= ib.max && Live(v, m + 1) && ScanCode(v, m + 1) == MarkCode(v.disk, i)
        && (MarkCode(v.disk, i) == ERR_NONE ==> ScannedBits(v, m + 1, rows,
             ib.(marks := ib.marks + {inr}), fb.(marks := fb.marks + Marked(v.disk, i) * Interval(fb.min, fb.max))))
      else if c == ERR_UNALLOCATED_INODE then
        !Live(v, m + 1) && ScanCode(v, m + 1) == ERR_NONE && ScannedBits(v, m + 1, rows, ib, fb)
      else ScanCode(v, m + 1) == c
  {
    hide ReadInode, MarkCode, Marked, Interval, ScanCode, ScannedInodes, MarkedSectors, Live;
    ScanRound(v, m, rows);
    MarkMore(MarkedSectors(v, m, rows), Marked(v.disk, ReadInode(v, (m + 1) % 0x1_0000).1), fb.min, fb.max);
  }

  /** Both bitmaps in memory are so. */
  ghost predicate Scanned(u: UnixFs, m: nat, rows: nat)
    requires u.Valid()
    reads u, u.ibm, u.ibm.bm, u.fbm, u.fbm.bm
  {
    ScannedBits(u.Volume(), m, rows, u.ibm.View(), u.fbm.View())
  }

  /** The body of the inner loop of `fill_bitmaps`, for the inode number after m. */
  method ScanInode(u: UnixFs, inr: U16, ghost m: nat, ghost rows: nat) returns (ret: int, used: bool)
    requires u.Valid() && Scanned(u, m, rows)
    requires inr == (m + 1) % 0x1_0000
    modifies u.ibm.bm, u.fbm.bm
    ensures u.Valid() && ret == ScanCode(u.Volume(), m + 1)
    ensures ret == ERR_NONE ==> Scanned(u, m + 1, rows) && (used <==> Live(u.Volume(), m + 1))
  {
    hide ReadInode, MarkCode, Marked, Interval, ScanCode, ScannedBits, Live, Bitmap.Valid, Bitmap.Marks;
    ghost var v, ib, fb := u.Volume(), u.ibm.View(), u.fbm.View();
    VisitRound(v, m, rows, ib, fb);
    used := false;
    var code, inode := u.InodeRead(inr);
    if code != ERR_UNALLOCATED_INODE {
      u.ibm.Set(inr);
      used := true;
      assert u.ibm.View() == ib.(marks := ib.marks + if ib.min <= inr <= ib.max then {inr} else {});
    }
    assert u.fbm.View() == fb;
    if code == ERR_NONE {
      var write := WriteSectorOnBitmap(u, inode);
      if write != 0 {
        return write, used;
      }
    }
    if code != ERR_NONE && code != ERR_UNALLOCATED_INODE {
      return code, used;
    }
    return ERR_NONE, used;
  }

  /** `fill_bitmaps` */
  method FillBitmaps(u: UnixFs) returns (ret: int)
    requires u.Valid() && u.s.isize >= 1 && Scanned(u, 0, 0)
    modifies u.ibm.bm, u.fbm.bm
    ensures u.Valid()
    ensures ret == ScanCode(u.Volume(), ScanLimit(u.s))
    ensures ret == ERR_NONE ==> Scanned(u, ScanLimit(u.s), u.s.isize - 1)
  {
    hide ScanCode, ScannedInodes, ScannedSectors, Interval, Live, RowUsed, TableSectors;
    ghost var v := u.Volume();
    var start := u.s.inodeStart;
    var end := u.s.isize + start - 1;
    var i := start;
    while i < end
      invariant start <= i <= end && u.Valid() && Scanned(u, INODES_PER_SECTOR * (i - start), i - start)
    {
      var foundAUsedInode := false;
      var j := 0;
      RowGrows(v, i - start, 0);
      while j < INODES_PER_SECTOR
        invariant 0 <= j <= INODES_PER_SECTOR && u.Valid() && Scanned(u, INODES_PER_SECTOR * (i - start) + j, i - start)
        invariant foundAUsedInode <==> RowUsed(v, i - start, j)
      {
        ghost var m := INODES_PER_SECTOR * (i - start) + j;
        var inr := (INODES_PER_SECTOR * (i - start) + j + ROOT_INUMBER) % 0x1_0000;
        RowGrows(v, i - start, j);
        var code, used := ScanInode(u, inr, m, i - start);
        foundAUsedInode := foundAUsedInode || used;
        if code != ERR_NONE {
          ScanStays(v, m + 1, ScanLimit(v.sb));
          return code;
        }
        j := j + 1;
      }
      RowRound(v, i - start);
      if foundAUsedInode {
        u.fbm.Set(i);
      }
      i := i + 1;
    }
    return ERR_NONE;
  }

  lemma {:induction false} ScanStays(v: Vol, m: nat, n: nat)
    requires m <= n && ScanCode(v, m) != ERR_NONE
    ensures ScanCode(v, n) == ScanCode(v, m)
    decreases n
  {
    if m < n {
      ScanStays(v, m, n - 1);
    }
  }

  /** `mountv6`: the mounted file system, or null and a code. */
  method MountV6(file: Disk) returns (ret: int, u: UnixFs?)
    ensures ret == MountCode(file)
    ensures ret == ERR_NONE <==> u != null
    ensures u != null ==> fresh(u) && fresh(u.ibm) && fresh(u.fbm) && fresh(u.ibm.bm) && fresh(u.fbm.bm)
    ensures u != null ==>
      && u.Valid() && u.Volume() == VolumeOf(file) && u.s.isize >= 1
      && u.ibm.View() == InodeBits(u.Volume()) && u.fbm.View() == SectorBits(u.Volume())
  {
    hide Live, Interval;
    if |file| <= BOOTBLOCK_SECTOR {
      return ERR_IO, null;
    }
    if file[BOOTBLOCK_SECTOR][0] != BOOTBLOCK_MAGIC_NUM {
      return ERR_BAD_BOOT_SECTOR, null;
    }
    if |file| <= SUPERBLOCK_SECTOR {
      return ERR_IO, null;
    }
    var s := SuperblockOf(file[SUPERBLOCK_SECTOR]);
    var minInode, maxInode := ROOT_INUMBER, s.isize * INODES_PER_SECTOR;
    var ibm := BmAlloc(minInode, maxInode);
    if ibm == null {
      return ERR_NOMEM, null;
    }
    var minSector, maxSector := s.blockStart, s.fsize;
    var fbm := BmAlloc(minSector, maxSector);
    if fbm == null {
      return ERR_NOMEM, null;
    }
    u := new UnixFs(file, s, ibm, fbm);
    ScanStart(u.Volume());
    ret := FillBitmaps(u);
    if ret != ERR_NONE {
      u := null;
    }
  }
}
