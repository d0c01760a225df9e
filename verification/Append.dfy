/** What `filev6_writebytes` does to a well-formed volume. */
module Appends {
  import opened Unixv6fs
  import opened Inodes
  import opened Files
  import opened Volumes

  predicate InInodeTable(sb: Superblock, k: int) {
    sb.inodeStart <= k < sb.inodeStart + sb.isize
  }

  /** The boot and superblock sectors, and all others before the inode table, are unchanged. */
  ghost predicate KeepsHead(v: Vol, w: Vol) {
    && w.sb == v.sb && v.sb.inodeStart <= |v.disk| && v.sb.inodeStart <= |w.disk|
    && forall k :: 0 <= k < v.sb.inodeStart ==> w.disk[k] == v.disk[k]
  }

  /** From v to w nothing changed but file n: not another inode, not a byte of another
      file, not a sector of the boot, superblock or bitmap regions. */
  ghost predicate OnlyFile(v: Vol, w: Vol, n: int) {
    && w.sb == v.sb
    && |v.disk| <= |w.disk|
    && (forall m :: OnDisk(v, m) && m != n ==> InodeAt(w, m) == InodeAt(v, m))
    && (forall m :: Live(v, m) && m != n ==> SameSectors(v.disk, w.disk, InodeAt(v, m)))
    && (forall k :: 0 <= k < v.sb.blockStart && k < |v.disk| && !InInodeTable(v.sb, k) ==> w.disk[k] == v.disk[k])
  }

  // ---------------------------------------------------------------- the two kinds of sector write

  lemma DataWriteKeepsInodes(v: Vol, s: int, data: Sector, m: int)
    requires Geometry(v) && s >= v.sb.blockStart && OnDisk(v, m)
    ensures OnDisk(PutSector(v, s, data), m) && InodeAt(PutSector(v, s, data), m) == InodeAt(v, m)
  {
    hide DecodeInode;
    assert PutSector(v, s, data).disk[SectorOfInode(v.sb, m)] == v.disk[SectorOfInode(v.sb, m)];
  }

  lemma DataWriteKeepsFile(v: Vol, s: int, data: Sector, m: int)
    requires FilesOk(v) && s >= v.sb.blockStart && Live(v, m)
    requires forall k :: UsesSlot(InodeAt(v, m), k) ==> Slot(v.disk, InodeAt(v, m), k) != s
    ensures SameSectors(v.disk, PutSector(v, s, data).disk, InodeAt(v, m))
  {
    hide FindSector, InodeAt, Size, Slot;
    var i, e := InodeAt(v, m), PutSector(v, s, data).disk;
    forall k | UsesSlot(i, k)
      ensures 0 <= Slot(v.disk, i, k) < |v.disk| && Slot(v.disk, i, k) < |e| && e[Slot(v.disk, i, k)] == v.disk[Slot(v.disk, i, k)]
    {
      assert InDataArea(v, Slot(v.disk, i, k));
    }
  }

  /** Writing sector s of the data area and then inode n: everything but file n is kept,
      provided s is not a sector of another live file. */
  lemma WriteKeepsOthers(v: Vol, s: int, data: Sector, n: int, i: Inode) returns (w: Vol)
    requires FilesOk(v) && s >= v.sb.blockStart && OnDisk(v, n)
    requires forall m, k :: Live(v, m) && m != n && UsesSlot(InodeAt(v, m), k) ==> Slot(v.disk, InodeAt(v, m), k) != s
    ensures OnDisk(PutSector(v, s, data), n)
    ensures w == PutInode(PutSector(v, s, data), n, i)
    ensures OnlyFile(v, w, n) && OnDisk(w, n) && InodeAt(w, n) == i
    ensures |w.disk| == if s < |v.disk| then |v.disk| else s + 1
    ensures forall k :: v.sb.blockStart <= k < |w.disk| ==> w.disk[k] == PutSector(v, s, data).disk[k]
  {
    hide FindSector, InodeAt, Slot, UsesSlot, EncodeInode;
    DataWriteKeepsInodes(v, s, data, n);
    var v1 := PutSector(v, s, data);
    w := PutInode(v1, n, i);
    PutInodeIsUpdate(v1, n, i, n);
    forall m | OnDisk(v, m) && m != n ensures InodeAt(w, m) == InodeAt(v, m) {
      DataWriteKeepsInodes(v, s, data, m);
      PutInodeIsUpdate(v1, n, i, m);
    }
    forall m | Live(v, m) && m != n ensures SameSectors(v.disk, w.disk, InodeAt(v, m)) {
      DataWriteKeepsFile(v, s, data, m);
      forall k | UsesSlot(InodeAt(v, m), k)
        ensures w.disk[Slot(v.disk, InodeAt(v, m), k)] == v.disk[Slot(v.disk, InodeAt(v, m), k)]
      {
        assert InDataArea(v, Slot(v.disk, InodeAt(v, m), k));
      }
    }
  }

  /** Slot k of the new file n is the same slot of the old one. */
  ghost predicate KeptSlot(v: Vol, w: Vol, n: int, k: int) {
    && Live(v, n) && OnDisk(w, n) && UsesSlot(InodeAt(v, n), k)
    && Slot(w.disk, InodeAt(w, n), k) == Slot(v.disk, InodeAt(v, n), k)
  }

  /** Slot k of the new file n is a sector that nobody used. */
  ghost predicate FreshSlot(v: Vol, w: Vol, n: int, k: int) {
    OnDisk(w, n) && Unused(v, Slot(w.disk, InodeAt(w, n), k)) && Slot(w.disk, InodeAt(w, n), k) < |w.disk|
  }

  ghost predicate TwoFresh(v: Vol, w: Vol, n: int, k: int, j: int) {
    && FreshSlot(v, w, n, k) && FreshSlot(v, w, n, j)
    && UsesSlot(InodeAt(w, n), k) && UsesSlot(InodeAt(w, n), j)
    && Slot(w.disk, InodeAt(w, n), k) == Slot(w.disk, InodeAt(w, n), j)
  }

  /** A change confined to file n keeps the volume well formed when every slot of the new
      file n is an old slot of n or a fresh sector of its own. */
  lemma OnlyFileKeepsOk(v: Vol, w: Vol, n: int)
    requires FilesOk(v) && OnlyFile(v, w, n) && OnDisk(v, n)
    requires forall k :: UsesSlot(InodeAt(w, n), k) ==> KeptSlot(v, w, n, k) || FreshSlot(v, w, n, k)
    requires forall k, j :: TwoFresh(v, w, n, k, j) ==> k == j
    ensures FilesOk(w)
  {
    hide FindSector, InodeAt, Slot, UsesSlot, Allocated;
    forall m, k | Live(w, m) && UsesSlot(InodeAt(w, m), k)
      ensures KeptSlot(v, w, m, k) || (m == n && FreshSlot(v, w, n, k))
    {
      SlotKept(v, w, n, m, k);
    }
    forall m, k | Live(w, m) && UsesSlot(InodeAt(w, m), k) ensures InDataArea(w, Slot(w.disk, InodeAt(w, m), k)) {
      SlotKept(v, w, n, m, k);
      if KeptSlot(v, w, m, k) {
        assert InDataArea(v, Slot(v.disk, InodeAt(v, m), k));
      }
    }
    SlotsStayDisjoint(v, w, n);
  }

  lemma SlotKept(v: Vol, w: Vol, n: int, m: int, k: int)
    requires FilesOk(v) && OnlyFile(v, w, n) && OnDisk(v, n) && Live(w, m) && UsesSlot(InodeAt(w, m), k)
    requires UsesSlot(InodeAt(w, n), k) ==> KeptSlot(v, w, n, k) || FreshSlot(v, w, n, k)
    ensures KeptSlot(v, w, m, k) || (m == n && FreshSlot(v, w, n, k))
  {
    hide FindSector, InodeAt, Slot, UsesSlot, Allocated;
    if m != n {
      SameSlot(v.disk, w.disk, InodeAt(v, m), k);
      assert Live(v, m);
    }
  }

  lemma SlotsStayDisjoint(v: Vol, w: Vol, n: int)
    requires FilesOk(v) && w.sb == v.sb
    requires forall m, k :: Live(w, m) && UsesSlot(InodeAt(w, m), k) ==> KeptSlot(v, w, m, k) || (m == n && FreshSlot(v, w, n, k))
    requires forall k, j :: TwoFresh(v, w, n, k, j) ==> k == j
    ensures Disjoint(w)
  {
    hide FindSector, InodeAt, Slot, UsesSlot, Allocated, OnDisk, Geometry, Placed;
    forall m, k, m', j | Live(w, m) && UsesSlot(InodeAt(w, m), k) && Live(w, m') && UsesSlot(InodeAt(w, m'), j)
        && Slot(w.disk, InodeAt(w, m), k) == Slot(w.disk, InodeAt(w, m'), j)
      ensures m == m' && k == j
    {
      if KeptSlot(v, w, m, k) || KeptSlot(v, w, m', j) {
        assert KeptSlot(v, w, m, k) && KeptSlot(v, w, m', j);
      } else {
        assert TwoFresh(v, w, n, k, j);
      }
    }
  }

  // ---------------------------------------------------------------- one new sector

  /** Below 4096 bytes the address slots are the sectors. */
  lemma DirectSlots(d: Disk, i: Inode, k: int)
    requires Allocated(i) && Size(i) < 4096
    ensures Blocks(i) <= ADDR_SMALL_LENGTH
    ensures 0 <= k <= Size(i) / SECTOR_SIZE ==> FindSector(d, i, k) == i.addr[k]
    ensures UsesSlot(i, k) <==> 0 <= k < Blocks(i)
  {
  }

  /** The inode `filev6_writesector` writes back. */
  function Grown(i: Inode, len: nat, free: int): (r: Inode)
    requires Size(i) + len < 4096
    ensures Size(r) == Size(i) + len && r.mode == i.mode
    ensures r.addr == i.addr[(Size(i) + len) / SECTOR_SIZE := free % 0x1_0000]
    ensures r.(size0 := i.size0, size1 := i.size1, addr := i.addr) == i
  {
    SizeRoundTrip(i, Size(i) + len);
    var i1 := SetSize(i, Size(i) + len).1;
    i1.(addr := i1.addr[(Size(i) + len) / SECTOR_SIZE := free % 0x1_0000])
  }

  /** A chunk shorter than a sector, after a whole number of blocks, goes into one fresh
      sector: the file grows by the chunk and everything else stays. */
  lemma AppendSector(v: Vol, n: int, chunk: seq<Byte>, free: int, junk: Junk) returns (w: Vol)
    requires FilesOk(v) && Live(v, n)
    requires Size(InodeAt(v, n)) % SECTOR_SIZE == 0 && 0 < |chunk| < SECTOR_SIZE
    requires Size(InodeAt(v, n)) + |chunk| < 4096
    requires Unused(v, free)
    ensures FilesOk(w) && OnlyFile(v, w, n) && Live(w, n)
    ensures WriteSector(v, n, InodeAt(v, n), chunk, Size(InodeAt(v, n)), free, junk) == (ERR_NONE, w, InodeAt(w, n))
    ensures InodeAt(w, n) == Grown(InodeAt(v, n), |chunk|, free)
    ensures Data(w, n) == Data(v, n) + chunk
  {
    hide InodeAt, FindSector, UsesSlot, Size;
    var i, b := InodeAt(v, n), Size(InodeAt(v, n)) / SECTOR_SIZE;
    var i2 := Grown(i, |chunk|, free);
    SizeRoundTrip(i, Size(i) + |chunk|);
    var data: Sector := chunk + junk(Size(i))[|chunk|..];
    w := WriteKeepsOthers(v, free, data, n, i2);
    forall k | UsesSlot(i2, k)
      ensures (k == b && FindSector(w.disk, i2, k) == free) || (UsesSlot(i, k) && Slot(w.disk, i2, k) == Slot(v.disk, i, k))
    {
      DirectSlots(w.disk, i2, k);
      DirectSlots(v.disk, i, k);
    }
    OnlyFileKeepsOk(v, w, n);
    forall b | 0 <= b < Blocks(i) ensures InDataArea(v, i.addr[b]) && w.disk[i.addr[b]] == v.disk[i.addr[b]] {
      DirectSlots(v.disk, i, b);
      assert UsesSlot(i, b) && Slot(v.disk, i, b) == i.addr[b] != free;
    }
    LiveFilesReadable(v, n);
    assert w.disk[free][..|chunk|] == chunk;
    SectorAppended(v.disk, w.disk, i, chunk, free);
  }

  lemma SectorAppended(d: Disk, e: Disk, i: Inode, chunk: seq<Byte>, free: int)
    requires Allocated(i) && Readable(d, i) && Size(i) % SECTOR_SIZE == 0
    requires 0 < |chunk| < SECTOR_SIZE && Size(i) + |chunk| < 4096
    requires 0 <= free < 0x1_0000 && free < |e| && e[free][..|chunk|] == chunk
    requires forall b :: 0 <= b < Blocks(i) && b < ADDR_SMALL_LENGTH ==> i.addr[b] < |d| && i.addr[b] < |e| && e[i.addr[b]] == d[i.addr[b]]
    ensures Readable(e, Grown(i, |chunk|, free))
    ensures Content(e, Grown(i, |chunk|, free)) == Content(d, i) + chunk
  {
    hide FindSector, Size, Grown;
    var i2 := Grown(i, |chunk|, free);
    forall b | 0 <= b < Blocks(i2) ensures FindSector(e, i2, b) == if b < Blocks(i) then i.addr[b] else free {
      DirectSlots(e, i2, b);
      DirectSlots(d, i, b);
    }
    forall b | 0 <= b < Blocks(i) ensures BlockOk(d, i, b) && BlockOk(e, i2, b) && e[FindSector(e, i2, b)] == d[FindSector(d, i, b)] {
      DirectSlots(d, i, b);
    }
    assert Readable(e, i2);
    BlocksThenChunk(d, e, i, i2, chunk, free);
  }

  lemma BlocksThenChunk(d: Disk, e: Disk, i: Inode, i2: Inode, chunk: seq<Byte>, free: int)
    requires Readable(d, i) && Readable(e, i2) && Size(i2) == Size(i) + |chunk|
    requires Size(i) % SECTOR_SIZE == 0 && 0 < |chunk| < SECTOR_SIZE
    requires 0 <= free < |e| && e[free][..|chunk|] == chunk
    requires FindSector(e, i2, Blocks(i)) == free
    requires forall b :: 0 <= b < Blocks(i) ==> BlockOk(d, i, b) && BlockOk(e, i2, b) && e[FindSector(e, i2, b)] == d[FindSector(d, i, b)]
    ensures Content(e, i2) == Content(d, i) + chunk
  {
    hide FindSector, Size;
    forall k | 0 <= k < Size(i) ensures Content(e, i2)[k] == Content(d, i)[k] {
      assert BlockOk(d, i, k / SECTOR_SIZE);
    }
    forall k | Size(i) <= k < Size(i2) ensures Content(e, i2)[k] == chunk[k - Size(i)] {
      assert k / SECTOR_SIZE == Blocks(i);
      assert e[free][..|chunk|][k - Size(i)] == e[free][k % SECTOR_SIZE];
    }
  }

  // ---------------------------------------------------------------- the last, partly filled sector

  /** Growing from size by len bytes keeps the way blocks are looked up. */
  predicate SameAddressing(size: nat, len: nat) {
    size + len < 4096 || (size >= 4096 && (size + len) / SECTOR_SIZE < MEDIUM_FILE_SECTORS)
  }

  function Resized(i: Inode, size: nat): (r: Inode)
    requires size < 0x1_000000
    ensures Size(r) == size && r.(size0 := i.size0, size1 := i.size1) == i
    ensures SetSize(i, size) == (ERR_NONE, r)
  {
    SizeRoundTrip(i, size);
    SetSize(i, size).1
  }

  /** Completing the last block moves no block. */
  lemma ResidualBlocks(d: Disk, e: Disk, i: Inode, len: nat, k: int)
    requires Allocated(i) && Size(i) % SECTOR_SIZE != 0 && Size(i) % SECTOR_SIZE + len <= SECTOR_SIZE
    requires SameAddressing(Size(i), len)
    requires forall b :: b < 0 && UsesSlot(i, b) ==> Slot(d, i, b) < |d| && Slot(d, i, b) < |e| && e[Slot(d, i, b)] == d[Slot(d, i, b)]
    ensures UsesSlot(Resized(i, Size(i) + len), k) <==> UsesSlot(i, k)
    ensures UsesSlot(i, k) ==> Slot(e, Resized(i, Size(i) + len), k) == Slot(d, i, k)
  {
    hide Resized;
    var i2 := Resized(i, Size(i) + len);
    assert Blocks(i2) == Blocks(i);
    if k >= 0 && UsesSlot(i, k) && Size(i) >= 4096 {
      var x := -1 - k / ADDRESSES_PER_SECTOR;
      assert UsesSlot(i, x) && Slot(d, i, x) == i.addr[k / ADDRESSES_PER_SECTOR];
    }
  }

  /** Bytes that fit in the last sector are spliced in there: the file grows by them and
      everything else stays. This holds for direct and for indirect files. */
  lemma AppendResidual(v: Vol, n: int, chunk: seq<Byte>) returns (w: Vol)
    requires FilesOk(v) && Live(v, n)
    requires Size(InodeAt(v, n)) % SECTOR_SIZE != 0 && Size(InodeAt(v, n)) % SECTOR_SIZE + |chunk| <= SECTOR_SIZE
    requires SameAddressing(Size(InodeAt(v, n)), |chunk|)
    ensures FilesOk(w) && OnlyFile(v, w, n) && Live(w, n)
    ensures WriteResidual(v, n, InodeAt(v, n), chunk) == (ERR_NONE, w, InodeAt(w, n))
    ensures InodeAt(w, n) == Resized(InodeAt(v, n), Size(InodeAt(v, n)) + |chunk|) && |w.disk| == |v.disk|
    ensures forall s :: Unused(v, s) ==> Unused(w, s)
    ensures Data(w, n) == Data(v, n) + chunk
  {
    hide InodeAt, FindSector, UsesSlot, Size, Resized;
    var i, b := InodeAt(v, n), Size(InodeAt(v, n)) / SECTOR_SIZE;
    var i2 := Resized(i, Size(i) + |chunk|);
    assert UsesSlot(i, b) by { LastBlockUsed(i); }
    var last := Slot(v.disk, i, b);
    assert InDataArea(v, last);
    w := WriteKeepsOthers(v, last, Splice(v.disk[last], Size(i) % SECTOR_SIZE, chunk), n, i2);
    forall k | UsesSlot(i, k) && k != b ensures InDataArea(v, Slot(v.disk, i, k)) && w.disk[Slot(v.disk, i, k)] == v.disk[Slot(v.disk, i, k)] {
      assert Slot(v.disk, i, k) != last;
    }
    forall k ensures UsesSlot(i2, k) <==> UsesSlot(i, k) ensures UsesSlot(i, k) ==> Slot(w.disk, i2, k) == Slot(v.disk, i, k) {
      ResidualBlocks(v.disk, w.disk, i, |chunk|, k);
    }
    OnlyFileKeepsOk(v, w, n);
    LiveFilesReadable(v, n);
    LiveFilesReadable(w, n);
    forall k | 0 <= k < Blocks(i)
      ensures UsesSlot(i, k) && BlockOk(v.disk, i, k) && BlockOk(w.disk, i2, k)
      ensures FindSector(w.disk, i2, k) == Slot(v.disk, i, k) == FindSector(v.disk, i, k)
    {
      DataBlockUsed(i, k);
    }
    ResidualAppended(v.disk, w.disk, i, i2, chunk);
    forall s | Unused(v, s) ensures Unused(w, s) {
      UnusedStays(v, w, n, s);
    }
  }

  lemma DataBlockUsed(i: Inode, b: nat)
    requires b < Blocks(i)
    ensures UsesSlot(i, b)
  {
  }

  lemma LastBlockUsed(i: Inode)
    requires Size(i) % SECTOR_SIZE != 0
    ensures UsesSlot(i, Size(i) / SECTOR_SIZE)
  {
  }

  /** A change of file n that gives it no new sector takes no sector out of the free ones. */
  lemma UnusedStays(v: Vol, w: Vol, n: int, s: int)
    requires FilesOk(v) && OnlyFile(v, w, n) && Unused(v, s) && Live(v, n)
    requires forall k :: UsesSlot(InodeAt(w, n), k) ==> UsesSlot(InodeAt(v, n), k) && Slot(w.disk, InodeAt(w, n), k) == Slot(v.disk, InodeAt(v, n), k)
    ensures Unused(w, s)
  {
    hide InodeAt, FindSector, UsesSlot, Slot;
    forall m, k | Live(w, m) && UsesSlot(InodeAt(w, m), k) ensures Slot(w.disk, InodeAt(w, m), k) != s {
      if m != n {
        SameSlot(v.disk, w.disk, InodeAt(v, m), k);
        assert Live(v, m);
      }
    }
  }

  lemma ResidualAppended(d: Disk, e: Disk, i: Inode, i2: Inode, chunk: seq<Byte>)
    requires Readable(d, i) && Readable(e, i2)
    requires Size(i) % SECTOR_SIZE != 0 && Size(i) % SECTOR_SIZE + |chunk| <= SECTOR_SIZE && Size(i2) == Size(i) + |chunk|
    requires forall b :: 0 <= b < Blocks(i) ==>
      && BlockOk(d, i, b) && BlockOk(e, i2, b)
      && e[FindSector(e, i2, b)] ==
        (if b == Size(i) / SECTOR_SIZE then Splice(d[FindSector(d, i, b)], Size(i) % SECTOR_SIZE, chunk) else d[FindSector(d, i, b)])
    ensures Content(e, i2) == Content(d, i) + chunk
  {
    hide FindSector, Size;
    forall k | 0 <= k < Size(i2) ensures Content(e, i2)[k] == (Content(d, i) + chunk)[k] {
      assert BlockOk(d, i, k / SECTOR_SIZE);
    }
  }

  // ---------------------------------------------------------------- filev6_writebytes

  lemma OnlyFileTwice(v: Vol, v1: Vol, w: Vol, n: int)
    requires Geometry(v) && OnlyFile(v, v1, n) && OnlyFile(v1, w, n)
    ensures OnlyFile(v, w, n)
  {
    hide InodeAt, Slot, UsesSlot;
    forall m | Live(v, m) && m != n ensures SameSectors(v.disk, w.disk, InodeAt(v, m)) {
      var i := InodeAt(v, m);
      assert Live(v1, m);
      forall k | UsesSlot(i, k) ensures w.disk[Slot(v.disk, i, k)] == v.disk[Slot(v.disk, i, k)] {
        SameSlot(v.disk, v1.disk, i, k);
      }
    }
  }

  /** The bytes that do not fit in the last sector. */
  function Spill(size: nat, len: nat): int {
    len - Fitting(size, len)
  }

  /** The appends the code carries out correctly. */
  predicate AppendOk(size: nat, len: nat) {
    && SameAddressing(size, len)
    && Spill(size, len) < SECTOR_SIZE
    && (size >= 4096 ==> Spill(size, len) == 0)
  }

  /** Inode j is i lengthened by len bytes, all of them in the last sector or all of them in
      one new sector s. */
  predicate Lengthened(i: Inode, j: Inode, len: nat, s: int) {
    if Size(i) % SECTOR_SIZE != 0 then Size(i) % SECTOR_SIZE + len <= SECTOR_SIZE && Size(i) + len < 0x1_000000 && j == Resized(i, Size(i) + len)
    else if len == 0 then j == i
    else len < SECTOR_SIZE && Size(i) + len < 4096 && j == Grown(i, len, s)
  }

  /** Completing the last sector does not take the file past 4096 bytes, from where on it is
      read in another way, nor past the largest size that can be read. */
  predicate FittingStays(size: nat, len: nat) {
    size % SECTOR_SIZE == 0 || SameAddressing(size, Fitting(size, len))
  }

  /** One entry of a directory can be appended, or there is no sector for it. */
  predicate EntryRoom(size: nat, sector: bool) {
    FittingStays(size, DIRENT_SIZE) && (size % SECTOR_SIZE != 0 || !sector || size + DIRENT_SIZE < 4096)
  }

  /** The part of an append that goes into the last sector. */
  lemma AppendFitting(v: Vol, n: int, buf: seq<Byte>, m: nat) returns (v1: Vol)
    requires FilesOk(v) && Live(v, n) && FittingStays(Size(InodeAt(v, n)), |buf|)
    requires m == Fitting(Size(InodeAt(v, n)), |buf|)
    ensures m <= |buf| && FilesOk(v1) && OnlyFile(v, v1, n) && Live(v1, n) && v1.sb == v.sb
    ensures InodeAt(v1, n).mode == InodeAt(v, n).mode && InodeAt(v1, n).addr == InodeAt(v, n).addr
    ensures Size(InodeAt(v1, n)) == Size(InodeAt(v, n)) + m && |v1.disk| == |v.disk|
    ensures m < |buf| ==> Size(InodeAt(v1, n)) % SECTOR_SIZE == 0
    ensures Data(v1, n) == Data(v, n) + buf[..m]
    ensures forall s :: Unused(v, s) ==> Unused(v1, s)
    ensures Size(InodeAt(v, n)) % SECTOR_SIZE == 0 ==> v1 == v
    ensures Size(InodeAt(v, n)) % SECTOR_SIZE != 0 ==> WriteResidual(v, n, InodeAt(v, n), buf[..m]) == (ERR_NONE, v1, InodeAt(v1, n))
    ensures forall s :: Lengthened(InodeAt(v, n), InodeAt(v1, n), m, s)
  {
    hide InodeAt, Data, Unused, Allocated;
    if Size(InodeAt(v, n)) % SECTOR_SIZE != 0 {
      v1 := AppendResidual(v, n, buf[..m]);
    } else {
      v1 := v;
      NothingChanged(v, n);
    }
  }

  lemma NothingChanged(v: Vol, n: int)
    requires FilesOk(v)
    ensures OnlyFile(v, v, n)
  {
    hide InodeAt, Slot, UsesSlot;
    forall m | Live(v, m) && m != n ensures SameSectors(v.disk, v.disk, InodeAt(v, m)) {
    }
  }

  lemma OneChunk(v: Vol, n: int, i: Inode, rest: seq<Byte>, fileSize: nat, free: int, junk: Junk)
    requires 0 < |rest| <= SECTOR_SIZE && fileSize + |rest| < 4096
    requires WriteSector(v, n, i, rest, fileSize, free, junk).0 <= 0
    ensures WriteChunks(v, n, i, rest, fileSize, free, junk) == WriteSector(v, n, i, rest, fileSize, free, junk)
  {
    hide WriteSector;
    assert rest[..|rest|] == rest;
  }

  /** `filev6_writebytes` appends: the content of file n becomes content + buf, every other
      file, inode and metadata sector is as before, and the volume stays well formed. */
  lemma AppendBytes(v: Vol, n: int, buf: seq<Byte>, free: int, junk: Junk) returns (w: Vol)
    requires FilesOk(v) && Live(v, n) && AppendOk(Size(InodeAt(v, n)), |buf|)
    requires Spill(Size(InodeAt(v, n)), |buf|) > 0 ==> Unused(v, free)
    ensures FilesOk(w) && OnlyFile(v, w, n) && Live(w, n)
    ensures WriteBytes(v, n, InodeAt(v, n), buf, free, junk) == (ERR_NONE, w, InodeAt(w, n))
    ensures InodeAt(w, n).mode == InodeAt(v, n).mode
    ensures Data(w, n) == Data(v, n) + buf
    ensures Size(InodeAt(v, n)) % SECTOR_SIZE == 0 || Spill(Size(InodeAt(v, n)), |buf|) == 0 ==>
      Lengthened(InodeAt(v, n), InodeAt(w, n), |buf|, free)
    ensures Spill(Size(InodeAt(v, n)), |buf|) == 0 ==> forall s :: Unused(v, s) ==> Unused(w, s)
  {
    hide InodeAt, Data, Allocated, Unused, OnlyFile, WriteResidual, Size, WriteSector, Grown;
    var i := InodeAt(v, n);
    var m := Fitting(Size(i), |buf|);
    var v1 := AppendFitting(v, n, buf, m);
    assert buf == buf[..m] + buf[m..];
    if m < |buf| {
      w := AppendSector(v1, n, buf[m..], free, junk);
      OneChunk(v1, n, InodeAt(v1, n), buf[m..], Size(i) + m, free, junk);
      OnlyFileTwice(v, v1, w, n);
    } else {
      w := v1;
    }
  }

  /** On a full volume the fitting part is written, and the failure is reported. */
  lemma AppendOnFullVolume(v: Vol, n: int, buf: seq<Byte>, free: int, junk: Junk) returns (w: Vol)
    requires FilesOk(v) && Live(v, n) && FittingStays(Size(InodeAt(v, n)), |buf|)
    requires Spill(Size(InodeAt(v, n)), |buf|) > 0 && free < 0
    ensures FilesOk(w) && OnlyFile(v, w, n) && Live(w, n)
    ensures WriteBytes(v, n, InodeAt(v, n), buf, free, junk) == (free, w, InodeAt(w, n))
    ensures InodeAt(w, n).mode == InodeAt(v, n).mode
    ensures Data(w, n) == Data(v, n) + buf[..Fitting(Size(InodeAt(v, n)), |buf|)]
    ensures Size(InodeAt(v, n)) % SECTOR_SIZE == 0 ==> w == v
  {
    hide InodeAt, Data, Allocated, Unused, OnlyFile, WriteResidual, Size;
    NotTooLarge(v, n);
    w := AppendFitting(v, n, buf, Fitting(Size(InodeAt(v, n)), |buf|));
  }

  /** A file whose blocks are all in place is not beyond the largest size. */
  lemma NotTooLarge(v: Vol, n: int)
    requires FilesOk(v) && Live(v, n)
    ensures SectorCount(InodeAt(v, n)) <= MEDIUM_FILE_SECTORS
  {
    hide InodeAt;
    assert Blocks(InodeAt(v, n)) > 0 ==> UsesSlot(InodeAt(v, n), 0);
  }

  // ---------------------------------------------------------------- writes that spill a whole sector

  /** A data sector and an inode written, whatever the sector was used for. */
  lemma PutBoth(v: Vol, f: int, data: Sector, n: int, j: Inode) returns (w: Vol)
    requires Geometry(v) && OnDisk(v, n) && f >= v.sb.blockStart
    ensures OnDisk(PutSector(v, f, data), n) && w == PutInode(PutSector(v, f, data), n, j)
    ensures Geometry(w) && w.sb == v.sb && OnDisk(w, n) && InodeAt(w, n) == j
    ensures forall m :: OnDisk(v, m) && m != n ==> OnDisk(w, m) && InodeAt(w, m) == InodeAt(v, m)
    ensures forall k :: 0 <= k < v.sb.inodeStart ==> w.disk[k] == v.disk[k]
  {
    hide DecodeInode, EncodeInode;
    DataWriteKeepsInodes(v, f, data, n);
    var v1 := PutSector(v, f, data);
    w := PutInode(v1, n, j);
    PutInodeIsUpdate(v1, n, j, n);
    forall m | OnDisk(v, m) && m != n ensures OnDisk(w, m) && InodeAt(w, m) == InodeAt(v, m) {
      DataWriteKeepsInodes(v, f, data, m);
      PutInodeIsUpdate(v1, n, j, m);
    }
  }

  /** Writing the same sector and the same inode again leaves only the last write. */
  lemma WriteAgain(v: Vol, f: int, a: Sector, b: Sector, n: int, i: Inode, j: Inode)
    requires Geometry(v) && OnDisk(v, n) && f >= v.sb.blockStart
    ensures OnDisk(PutSector(v, f, a), n) && OnDisk(PutSector(v, f, b), n)
    ensures var v1 := PutInode(PutSector(v, f, a), n, i);
      OnDisk(PutSector(v1, f, b), n) && PutInode(PutSector(v1, f, b), n, j) == PutInode(PutSector(v, f, b), n, j)
  {
    hide EncodeInode;
    DataWriteKeepsInodes(v, f, a, n);
    DataWriteKeepsInodes(v, f, b, n);
    var k, at := SectorOfInode(v.sb, n), OffsetOfInode(n);
    var x, y := EncodeInode(i), EncodeInode(j);
    assert Splice(Splice(v.disk[k], at, x), at, y) == Splice(v.disk[k], at, y);
    var v1 := PutInode(PutSector(v, f, a), n, i);
    assert PutInode(PutSector(v1, f, b), n, j).disk == PutInode(PutSector(v, f, b), n, j).disk;
  }

  lemma OneSectorWrite(v: Vol, n: int, i: Inode, chunk: seq<Byte>, fileSize: nat, free: int, junk: Junk) returns (data: Sector, j: Inode)
    requires Geometry(v) && OnDisk(v, n) && free >= v.sb.blockStart
    requires |chunk| <= SECTOR_SIZE && fileSize + |chunk| < 4096
    ensures OnDisk(PutSector(v, free, data), n)
    ensures WriteSector(v, n, i, chunk, fileSize, free, junk) == (ERR_NONE, PutInode(PutSector(v, free, data), n, j), j)
    ensures Size(j) == fileSize + |chunk| && j.mode == i.mode
    ensures j.addr == i.addr[(fileSize + |chunk|) / SECTOR_SIZE := free % 0x1_0000]
    ensures data[..|chunk|] == chunk
  {
    SizeRoundTrip(i, fileSize + |chunk|);
    data := chunk + junk(fileSize)[|chunk|..];
    j := WriteSector(v, n, i, chunk, fileSize, free, junk).2;
    DataWriteKeepsInodes(v, free, data, n);
  }

  /** The first slot that a loop over len bytes writes: computed from the size after the
      first chunk. */
  function FirstSlot(fileSize: nat, len: nat): nat {
    (fileSize + if len < SECTOR_SIZE then len else SECTOR_SIZE) / SECTOR_SIZE
  }

  /** The bytes that the loop writes last. */
  function LastChunk(rest: seq<Byte>): (chunk: seq<Byte>)
    requires rest != []
    ensures 0 < |chunk| <= SECTOR_SIZE
  {
    rest[(|rest| - 1) / SECTOR_SIZE * SECTOR_SIZE..]
  }

  lemma LastOfRest(rest: seq<Byte>)
    requires rest != []
    ensures |rest| <= SECTOR_SIZE ==> LastChunk(rest) == rest
    ensures |rest| > SECTOR_SIZE ==> LastChunk(rest[SECTOR_SIZE..]) == LastChunk(rest)
  {
  }

  /** What the whole loop comes to: one sector written, with the last chunk in it, and the slots
      from the first to the last computed one all pointing to it. */
  lemma {:induction false} ChunksFillSlots(v: Vol, n: int, i: Inode, rest: seq<Byte>, fileSize: nat, free: int, junk: Junk)
    returns (data: Sector, j: Inode)
    requires Geometry(v) && OnDisk(v, n) && free >= v.sb.blockStart
    requires rest != [] && fileSize % SECTOR_SIZE == 0 && fileSize + |rest| < 4096
    ensures OnDisk(PutSector(v, free, data), n)
    ensures WriteChunks(v, n, i, rest, fileSize, free, junk) == (ERR_NONE, PutInode(PutSector(v, free, data), n, j), j)
    ensures Size(j) == fileSize + |rest| && j.mode == i.mode
    ensures data[..|LastChunk(rest)|] == LastChunk(rest)
    ensures forall k :: 0 <= k < ADDR_SMALL_LENGTH ==>
      (j.addr[k] == if FirstSlot(fileSize, |rest|) <= k <= (fileSize + |rest|) / SECTOR_SIZE then free % 0x1_0000 else i.addr[k])
    decreases |rest|
  {
    hide InodeAt, WriteSector, Size, PutInode, PutSector, LastChunk;
    LastOfRest(rest);
    var m := if |rest| > SECTOR_SIZE then SECTOR_SIZE else |rest|;
    var data1, j1 := OneSectorWrite(v, n, i, rest[..m], fileSize, free, junk);
    var v1 := PutBoth(v, free, data1, n, j1);
    if |rest| > SECTOR_SIZE {
      data, j := ChunksFillSlots(v1, n, j1, rest[m..], fileSize + m, free, junk);
      WriteAgain(v, free, data1, data, n, j1, j);
    } else {
      data, j := data1, j1;
      assert rest[m..] == [];
    }
  }

  /** When a whole sector or more spills over, every block after the last one but the first
      gets the free sector, and that first one keeps whatever its slot held. */
  lemma SpillResult(v: Vol, n: int, buf: seq<Byte>, free: int, junk: Junk) returns (v1: Vol, data: Sector, j: Inode)
    requires FilesOk(v) && Live(v, n) && free >= v.sb.blockStart
    requires Size(InodeAt(v, n)) + |buf| < 4096 && Spill(Size(InodeAt(v, n)), |buf|) >= SECTOR_SIZE
    ensures FilesOk(v1) && OnlyFile(v, v1, n) && Live(v1, n) && InodeAt(v1, n).addr == InodeAt(v, n).addr
    ensures Size(InodeAt(v1, n)) == SECTOR_SIZE * Blocks(InodeAt(v, n)) && |v1.disk| == |v.disk|
    ensures forall s :: Unused(v, s) ==> Unused(v1, s)
    ensures OnDisk(PutSector(v1, free, data), n)
    ensures WriteBytes(v, n, InodeAt(v, n), buf, free, junk) == (ERR_NONE, PutInode(PutSector(v1, free, data), n, j), j)
    ensures Size(j) == Size(InodeAt(v, n)) + |buf| && Allocated(j)
    ensures var b := Blocks(InodeAt(v, n));
      forall k :: 0 <= k < ADDR_SMALL_LENGTH ==>
        (j.addr[k] == if b < k <= Size(j) / SECTOR_SIZE then free % 0x1_0000 else InodeAt(v, n).addr[k])
  {
    hide InodeAt, Data, Unused, WriteResidual, WriteChunks, Size, FindSector, UsesSlot, OnlyFile, Placed, Disjoint, PutInode, PutSector;
    var i := InodeAt(v, n);
    var m := Fitting(Size(i), |buf|);
    v1 := AppendFitting(v, n, buf, m);
    data, j := ChunksFillSlots(v1, n, InodeAt(v1, n), buf[m..], Size(i) + m, free, junk);
  }

  /** So the file then claims the sector in that stale slot. */
  lemma SpillKeepsStaleSlot(v: Vol, n: int, buf: seq<Byte>, free: int, junk: Junk) returns (w: Vol)
    requires FilesOk(v) && Live(v, n) && free >= v.sb.blockStart
    requires Size(InodeAt(v, n)) + |buf| < 4096 && Spill(Size(InodeAt(v, n)), |buf|) >= SECTOR_SIZE
    ensures Live(w, n) && w.sb == v.sb
    ensures WriteBytes(v, n, InodeAt(v, n), buf, free, junk) == (ERR_NONE, w, InodeAt(w, n))
    ensures Size(InodeAt(w, n)) == Size(InodeAt(v, n)) + |buf|
    ensures var b := Blocks(InodeAt(v, n)); UsesSlot(InodeAt(w, n), b) && Slot(w.disk, InodeAt(w, n), b) == InodeAt(v, n).addr[b]
    ensures forall k :: 0 <= k < v.sb.inodeStart ==> w.disk[k] == v.disk[k]
  {
    hide InodeAt, Data, Unused, WriteBytes, Size, FindSector, UsesSlot, Placed, Disjoint, SameSectors;
    var v1, data, j := SpillResult(v, n, buf, free, junk);
    w := PutBoth(v1, free, data, n, j);
    DirectSlots(w.disk, j, Blocks(InodeAt(v, n)));
  }

  /** The slot of the block after the last one holds a sector that may become the file's:
      unused, on the disk after the write, and not the one that is free anyway if that gets
      a block too; and no more than one block gets that. */
  ghost predicate StaleSlotServes(v: Vol, n: int, spill: int, free: int)
    requires Live(v, n)
  {
    var b := Blocks(InodeAt(v, n));
    && spill <= 2 * SECTOR_SIZE && b < ADDR_SMALL_LENGTH
    && var x := InodeAt(v, n).addr[b];
      Unused(v, x) && (x < |v.disk| || x <= free) && (spill > SECTOR_SIZE ==> x != free)
  }

  /** When a sector was found and something spills over: for a final size below 4096 the
      append leaves the volume well formed exactly when less than a whole sector spills
      over, or the stale slot happens to serve. */
  lemma SpillKeepsVolumeIff(v: Vol, n: int, buf: seq<Byte>, free: int, junk: Junk)
    requires FilesOk(v) && Live(v, n) && Size(InodeAt(v, n)) + |buf| < 4096
    requires Spill(Size(InodeAt(v, n)), |buf|) > 0 && Unused(v, free)
    ensures var spill := Spill(Size(InodeAt(v, n)), |buf|);
      var (c, w, _) := WriteBytes(v, n, InodeAt(v, n), buf, free, junk);
      c == ERR_NONE && (FilesOk(w) <==> spill < SECTOR_SIZE || StaleSlotServes(v, n, spill, free))
  {
    hide InodeAt, Data, Allocated, OnlyFile, WriteBytes, Size, UsesSlot, Slot, PutInode, PutSector, StaleSlotServes, Placed, Disjoint;
    var spill := Spill(Size(InodeAt(v, n)), |buf|);
    if spill < SECTOR_SIZE {
      var w := AppendBytes(v, n, buf, free, junk);
    } else {
      var v1, data, j := SpillResult(v, n, buf, free, junk);
      var w := WriteKeepsOthers(v1, free, data, n, j);
      OnlyFileTwice(v, v1, w, n);
      assert Spilled(v, w, n, free, spill);
      if StaleSlotServes(v, n, spill, free) {
        StaleServes(v, w, n, free, spill);
      } else if FilesOk(w) {
        StaleFails(v, w, n, free, spill);
      }
    }
  }

  /** The slots of file n after the spill. */
  ghost predicate Spilled(v: Vol, w: Vol, n: int, free: int, spill: int) {
    && Live(v, n) && Live(w, n) && OnlyFile(v, w, n) && Size(InodeAt(v, n)) < 4096 && Size(InodeAt(w, n)) < 4096
    && |w.disk| == (if free < |v.disk| then |v.disk| else free + 1)
    && var b := Blocks(InodeAt(v, n));
      && SECTOR_SIZE <= spill && 0 <= free < 0x1_0000 && Size(InodeAt(w, n)) == SECTOR_SIZE * b + spill
      && forall k :: 0 <= k < ADDR_SMALL_LENGTH ==>
        (InodeAt(w, n).addr[k] == if b < k <= Size(InodeAt(w, n)) / SECTOR_SIZE then free else InodeAt(v, n).addr[k])
  }

  lemma StaleServes(v: Vol, w: Vol, n: int, free: int, spill: int)
    requires FilesOk(v) && Unused(v, free) && Spilled(v, w, n, free, spill) && StaleSlotServes(v, n, spill, free)
    ensures FilesOk(w)
  {
    hide InodeAt, Unused, Size, Slot, UsesSlot, OnlyFile, Placed, Disjoint, FindSector;
    var i, j, b := InodeAt(v, n), InodeAt(w, n), Blocks(InodeAt(v, n));
    forall k | UsesSlot(j, k) ensures KeptSlot(v, w, n, k) || FreshSlot(v, w, n, k) {
      SpilledSlot(v, w, n, free, spill, k);
    }
    forall k, l | TwoFresh(v, w, n, k, l) ensures k == l {
      SpilledSlot(v, w, n, free, spill, k);
      SpilledSlot(v, w, n, free, spill, l);
    }
    OnlyFileKeepsOk(v, w, n);
  }

  lemma SpilledSlot(v: Vol, w: Vol, n: int, free: int, spill: int, k: int)
    requires FilesOk(v) && Unused(v, free) && Spilled(v, w, n, free, spill) && StaleSlotServes(v, n, spill, free)
    requires UsesSlot(InodeAt(w, n), k)
    ensures var b := Blocks(InodeAt(v, n));
      if k < b then KeptSlot(v, w, n, k) && !FreshSlot(v, w, n, k)
      else
        && FreshSlot(v, w, n, k)
        && Slot(w.disk, InodeAt(w, n), k) == (if k == b then InodeAt(v, n).addr[b] else free)
        && (k > b ==> k == b + 1 && spill > SECTOR_SIZE)
  {
    hide InodeAt, Unused, Size, Slot, UsesSlot, OnlyFile, Placed, Disjoint, FindSector;
    DirectSlot(v.disk, InodeAt(v, n), k);
    DirectSlot(w.disk, InodeAt(w, n), k);
    if k < Blocks(InodeAt(v, n)) {
      KeptIsNotFresh(v, w, n, k);
    }
  }

  lemma KeptIsNotFresh(v: Vol, w: Vol, n: int, k: int)
    requires KeptSlot(v, w, n, k)
    ensures !FreshSlot(v, w, n, k)
  {
    hide InodeAt, Slot, UsesSlot;
  }

  /** Slot k of a directly addressed file. */
  lemma DirectSlot(d: Disk, i: Inode, k: int)
    requires Allocated(i) && Size(i) < 4096
    ensures UsesSlot(i, k) <==> 0 <= k < Blocks(i)
    ensures UsesSlot(i, k) ==> k < ADDR_SMALL_LENGTH && Slot(d, i, k) == i.addr[k]
  {
    DirectSlots(d, i, k);
  }

  lemma StaleFails(v: Vol, w: Vol, n: int, free: int, spill: int)
    requires FilesOk(v) && FilesOk(w) && Spilled(v, w, n, free, spill)
    ensures StaleSlotServes(v, n, spill, free)
  {
    hide InodeAt, Size, Slot, UsesSlot, FindSector, SameSectors;
    var i, j, b := InodeAt(v, n), InodeAt(w, n), Blocks(InodeAt(v, n));
    DirectSlot(w.disk, j, b);
    DirectSlot(w.disk, j, b + 1);
    DirectSlot(w.disk, j, b + 2);
    var x := i.addr[b];
    assert UsesSlot(j, b) && Slot(w.disk, j, b) == x;
    assert InDataArea(w, x);
    forall m, k | Live(v, m) && UsesSlot(InodeAt(v, m), k) ensures Slot(v.disk, InodeAt(v, m), k) != x {
      if m != n {
        SameSlot(v.disk, w.disk, InodeAt(v, m), k);
        assert Live(w, m);
      } else {
        DirectSlot(v.disk, i, k);
        DirectSlot(w.disk, j, k);
      }
    }
  }
  // ---------------------------------------------------------------- reaching a limit

  /** Word k of the content, read as the code reads an indirect entry. */
  ghost function FirstWord(v: Vol, n: int, k: nat): int
    requires FilesOk(v) && Live(v, n) && 2 * k + 1 < Size(InodeAt(v, n))
  {
    Int16(Word(Data(v, n), 2 * k))
  }

  /** The first 16 bytes of file n happen to name eight different sectors of the data area
      that no other file uses, and not the sector these bytes are in. */
  ghost predicate FirstWordsServe(v: Vol, n: int)
    requires FilesOk(v) && Live(v, n) && Size(InodeAt(v, n)) >= 2 * ADDR_SMALL_LENGTH
  {
    && (forall k :: 0 <= k < ADDR_SMALL_LENGTH ==> InDataArea(v, FirstWord(v, n, k)) && FirstWord(v, n, k) != InodeAt(v, n).addr[0])
    && (forall k, m, j :: 0 <= k < ADDR_SMALL_LENGTH && m != n && Live(v, m) && UsesSlot(InodeAt(v, m), j) ==>
         Slot(v.disk, InodeAt(v, m), j) != FirstWord(v, n, k))
    && (forall j, k :: 0 <= j < k < ADDR_SMALL_LENGTH ==> FirstWord(v, n, j) != FirstWord(v, n, k))
  }

  /** Bytes that take a file to exactly 4096: from then on it is read through indirect
      sectors, but its slots were not rebuilt, so its own first eight words are taken for
      the sectors of its blocks. */
  lemma ReachesIndirect(v: Vol, n: int, chunk: seq<Byte>) returns (w: Vol)
    requires FilesOk(v) && Live(v, n) && Size(InodeAt(v, n)) % SECTOR_SIZE != 0
    requires Size(InodeAt(v, n)) % SECTOR_SIZE + |chunk| <= SECTOR_SIZE && Size(InodeAt(v, n)) + |chunk| == 4096
    ensures OnlyFile(v, w, n) && Live(w, n) && InodeAt(w, n) == Resized(InodeAt(v, n), 4096) && |w.disk| == |v.disk|
    ensures WriteResidual(v, n, InodeAt(v, n), chunk) == (ERR_NONE, w, InodeAt(w, n))
    ensures forall k :: 0 <= k < ADDR_SMALL_LENGTH ==> FindSector(w.disk, InodeAt(w, n), k) == FirstWord(v, n, k)
    ensures InDataArea(v, InodeAt(v, n).addr[0])
    ensures var last := InodeAt(v, n).addr[7];
      && v.sb.blockStart <= last < |v.disk|
      && forall t :: v.sb.blockStart <= t < |w.disk| ==>
        w.disk[t] == if t == last then Splice(v.disk[last], Size(InodeAt(v, n)) % SECTOR_SIZE, chunk) else v.disk[t]
  {
    hide InodeAt, FindSector, UsesSlot, Size, SameSectors, Resized;
    var i := InodeAt(v, n);
    var i2 := Resized(i, 4096);
    var first, last := i.addr[0], i.addr[7];
    LiveFilesReadable(v, n);
    DirectSlots(v.disk, i, 7);
    DirectSlots(v.disk, i, 0);
    assert Slot(v.disk, i, 7) == last && Slot(v.disk, i, 0) == first;
    assert InDataArea(v, first) && InDataArea(v, last);
    w := WriteKeepsOthers(v, last, Splice(v.disk[last], Size(i) % SECTOR_SIZE, chunk), n, i2);
    assert first != last && w.disk[first] == v.disk[first];
    forall k | 0 <= k < ADDR_SMALL_LENGTH ensures FindSector(w.disk, i2, k) == FirstWord(v, n, k) {
      EntryMisread(v.disk, w.disk, i, i2, k);
    }
  }

  lemma EntryMisread(d: Disk, e: Disk, i: Inode, i2: Inode, k: nat)
    requires Readable(d, i) && 2 * ADDR_SMALL_LENGTH <= Size(i) < 4096 && Allocated(i) && k < ADDR_SMALL_LENGTH
    requires Allocated(i2) && i2.addr == i.addr && Size(i2) == 4096
    requires i.addr[0] < |d| && i.addr[0] < |e| && e[i.addr[0]] == d[i.addr[0]]
    ensures FindSector(e, i2, k) == Int16(Word(Content(d, i), 2 * k))
  {
    hide Size;
    DirectSlots(d, i, 0);
    assert Content(d, i)[2 * k] == d[i.addr[0]][2 * k] && Content(d, i)[2 * k + 1] == d[i.addr[0]][2 * k + 1];
  }

  /** The slots of a file of 4096 bytes. */
  lemma SlotsAt4096(d: Disk, i: Inode, k: int)
    requires Allocated(i) && Size(i) == 4096
    ensures UsesSlot(i, k) <==> -1 <= k < ADDR_SMALL_LENGTH
    ensures Slot(d, i, -1) == i.addr[0] && (k >= 0 ==> Slot(d, i, k) == FindSector(d, i, k))
  {
  }

  /** After such an append the volume is well formed exactly when the first words serve. */
  lemma ReachedIndirectIff(v: Vol, w: Vol, n: int)
    requires FilesOk(v) && Live(v, n) && 3584 < Size(InodeAt(v, n)) < 4096
    requires OnlyFile(v, w, n) && Live(w, n) && InodeAt(w, n) == Resized(InodeAt(v, n), 4096) && |w.disk| == |v.disk|
    requires forall k :: 0 <= k < ADDR_SMALL_LENGTH ==> FindSector(w.disk, InodeAt(w, n), k) == FirstWord(v, n, k)
    ensures FilesOk(w) <==> FirstWordsServe(v, n)
  {
    hide InodeAt, FindSector, UsesSlot, Slot, Size, Resized, FirstWord;
    forall k ensures UsesSlot(InodeAt(w, n), k) <==> -1 <= k < ADDR_SMALL_LENGTH
      ensures Slot(w.disk, InodeAt(w, n), -1) == InodeAt(v, n).addr[0]
      ensures 0 <= k < ADDR_SMALL_LENGTH ==> Slot(w.disk, InodeAt(w, n), k) == FirstWord(v, n, k)
    {
      SlotsAt4096(w.disk, InodeAt(w, n), k);
    }
    DirectSlot(v.disk, InodeAt(v, n), 0);
    assert At4096(v, w, n);
    if FilesOk(w) {
      WordsServe(v, w, n);
    } else if FirstWordsServe(v, n) {
      WordsKeep(v, w, n);
    }
  }

  ghost predicate At4096(v: Vol, w: Vol, n: int) {
    && FilesOk(v) && Live(v, n) && OnlyFile(v, w, n) && Live(w, n) && |w.disk| == |v.disk| && Size(InodeAt(v, n)) >= 2 * ADDR_SMALL_LENGTH
    && UsesSlot(InodeAt(v, n), 0) && Slot(v.disk, InodeAt(v, n), 0) == InodeAt(v, n).addr[0]
    && (forall k :: UsesSlot(InodeAt(w, n), k) <==> -1 <= k < ADDR_SMALL_LENGTH)
    && Slot(w.disk, InodeAt(w, n), -1) == InodeAt(v, n).addr[0]
    && forall k :: 0 <= k < ADDR_SMALL_LENGTH ==> Slot(w.disk, InodeAt(w, n), k) == FirstWord(v, n, k)
  }

  lemma WordsServe(v: Vol, w: Vol, n: int)
    requires At4096(v, w, n) && FilesOk(w)
    ensures FirstWordsServe(v, n)
  {
    hide InodeAt, FindSector, UsesSlot, Slot, Size, FirstWord, SameSectors;
    forall k | 0 <= k < ADDR_SMALL_LENGTH
      ensures InDataArea(v, FirstWord(v, n, k)) && FirstWord(v, n, k) != InodeAt(v, n).addr[0]
    {
      assert UsesSlot(InodeAt(w, n), k) && UsesSlot(InodeAt(w, n), -1);
    }
    forall k, m, j | 0 <= k < ADDR_SMALL_LENGTH && m != n && Live(v, m) && UsesSlot(InodeAt(v, m), j)
      ensures Slot(v.disk, InodeAt(v, m), j) != FirstWord(v, n, k)
    {
      SameSlot(v.disk, w.disk, InodeAt(v, m), j);
      assert UsesSlot(InodeAt(w, n), k) && Live(w, m);
    }
    forall j, k | 0 <= j < k < ADDR_SMALL_LENGTH ensures FirstWord(v, n, j) != FirstWord(v, n, k) {
      assert UsesSlot(InodeAt(w, n), k) && UsesSlot(InodeAt(w, n), j);
    }
  }

  lemma WordsKeep(v: Vol, w: Vol, n: int)
    requires At4096(v, w, n) && FirstWordsServe(v, n)
    ensures FilesOk(w)
  {
    hide InodeAt, FindSector, UsesSlot, Slot, Size, FirstWord, SameSectors, Allocated;
    forall m, k | Live(w, m) && UsesSlot(InodeAt(w, m), k)
      ensures InDataArea(w, Slot(w.disk, InodeAt(w, m), k))
      ensures m != n ==> Live(v, m) && UsesSlot(InodeAt(v, m), k) && Slot(w.disk, InodeAt(w, m), k) == Slot(v.disk, InodeAt(v, m), k)
    {
      if m != n {
        assert Live(v, m);
        SameSlot(v.disk, w.disk, InodeAt(v, m), k);
        assert InDataArea(v, Slot(v.disk, InodeAt(v, m), k));
      }
    }
    forall m, k, m', j | Live(w, m) && UsesSlot(InodeAt(w, m), k) && Live(w, m') && UsesSlot(InodeAt(w, m'), j)
        && Slot(w.disk, InodeAt(w, m), k) == Slot(w.disk, InodeAt(w, m'), j)
      ensures m == m' && k == j
    {
    }
  }

  /** Bytes that take a file to the largest size: no block of it is found any more. */
  lemma ReachesLargest(v: Vol, n: int, chunk: seq<Byte>) returns (w: Vol)
    requires FilesOk(v) && Live(v, n) && Size(InodeAt(v, n)) % SECTOR_SIZE != 0 && Size(InodeAt(v, n)) >= 4096
    requires Size(InodeAt(v, n)) % SECTOR_SIZE + |chunk| <= SECTOR_SIZE
    requires (Size(InodeAt(v, n)) + |chunk|) / SECTOR_SIZE >= MEDIUM_FILE_SECTORS
    ensures OnlyFile(v, w, n) && Live(w, n) && |w.disk| == |v.disk|
    ensures FindSector(w.disk, InodeAt(w, n), 0) == ERR_FILE_TOO_LARGE && !FilesOk(w)
    ensures WriteResidual(v, n, InodeAt(v, n), chunk) == (ERR_NONE, w, InodeAt(w, n))
  {
    hide InodeAt, UsesSlot, Size, SameSectors, Resized;
    NotTooLarge(v, n);
    var i, b := InodeAt(v, n), Size(InodeAt(v, n)) / SECTOR_SIZE;
    var i2 := Resized(i, Size(i) + |chunk|);
    assert UsesSlot(i, b) by { LastBlockUsed(i); }
    var last := Slot(v.disk, i, b);
    assert InDataArea(v, last);
    w := WriteKeepsOthers(v, last, Splice(v.disk[last], Size(i) % SECTOR_SIZE, chunk), n, i2);
    DataBlockUsed(i2, 0);
    assert Slot(w.disk, i2, 0) < 0;
  }

  // ---------------------------------------------------------------- every append the code defines

  /** What a caller can check before an append: where a sector was found and something spills
      over, less than a whole sector does, or the stale slot serves; otherwise the bytes that
      fit do not take the file to a limit, or at 4096 bytes its first words serve. */
  ghost predicate AppendKeeps(v: Vol, n: int, len: nat, free: int)
    requires FilesOk(v) && Live(v, n)
  {
    var size := Size(InodeAt(v, n));
    var spill, end := Spill(size, len), size + Fitting(size, len);
    if spill > 0 && free >= 0 then spill < SECTOR_SIZE || StaleSlotServes(v, n, spill, free)
    else if size < 4096 && end >= 4096 then FirstWordsServe(v, n)
    else end / SECTOR_SIZE < MEDIUM_FILE_SECTORS
  }

  /** Every append that stays inside `i_addr` fails exactly when something spills over and no
      sector was found, and leaves the volume well formed exactly when `AppendKeeps` says. */
  lemma AppendKeepsVolumeIff(v: Vol, n: int, buf: seq<Byte>, free: int, junk: Junk)
    requires FilesOk(v) && Live(v, n) && WriteDefined(Size(InodeAt(v, n)), |buf|, free)
    requires Spill(Size(InodeAt(v, n)), |buf|) > 0 ==> free < 0 || Unused(v, free)
    ensures var (c, w, _) := WriteBytes(v, n, InodeAt(v, n), buf, free, junk);
      && c == (if Spill(Size(InodeAt(v, n)), |buf|) > 0 && free < 0 then free else ERR_NONE)
      && (FilesOk(w) <==> AppendKeeps(v, n, |buf|, free))
  {
    hide InodeAt, Data, Allocated, OnlyFile, Size, UsesSlot, Slot, Placed, Disjoint, StaleSlotServes, FirstWordsServe, WriteResidual, WriteSector, FirstWord, FindSector, Unused;
    NotTooLarge(v, n);
    var i, size := InodeAt(v, n), Size(InodeAt(v, n));
    var m := Fitting(size, |buf|);
    if Spill(size, |buf|) > 0 && free >= 0 {
      SpillKeepsVolumeIff(v, n, buf, free, junk);
    } else if FittingStays(size, |buf|) {
      var w := AppendFitting(v, n, buf, m);
      RestOfAppend(v, w, n, InodeAt(w, n), buf, free, junk);
    } else if size < 4096 {
      var w := ReachesIndirect(v, n, buf[..m]);
      ReachedIndirectIff(v, w, n);
      RestOfAppend(v, w, n, InodeAt(w, n), buf, free, junk);
    } else {
      var w := ReachesLargest(v, n, buf[..m]);
      RestOfAppend(v, w, n, InodeAt(w, n), buf, free, junk);
    }
  }

  /** After the fitting part nothing is left, or no sector is found for it. */
  lemma RestOfAppend(v: Vol, w: Vol, n: int, j: Inode, buf: seq<Byte>, free: int, junk: Junk)
    requires OnDisk(v, n) && WriteDefined(Size(InodeAt(v, n)), |buf|, free) && SectorCount(InodeAt(v, n)) <= MEDIUM_FILE_SECTORS
    requires Spill(Size(InodeAt(v, n)), |buf|) == 0 || free < 0
    requires if Size(InodeAt(v, n)) % SECTOR_SIZE == 0 then w == v && j == InodeAt(v, n)
      else WriteResidual(v, n, InodeAt(v, n), buf[..Fitting(Size(InodeAt(v, n)), |buf|)]) == (ERR_NONE, w, j)
    ensures WriteBytes(v, n, InodeAt(v, n), buf, free, junk) ==
      (if Spill(Size(InodeAt(v, n)), |buf|) > 0 then free else ERR_NONE, w, j)
  {
    hide InodeAt, Size, WriteResidual, WriteSector;
    var size := Size(InodeAt(v, n));
    var m := Fitting(size, |buf|);
    var rest := buf[m..];
    if rest != [] {
      NoSectorNoWrite(w, n, j, rest[..if |rest| > SECTOR_SIZE then SECTOR_SIZE else |rest|], size + m, free, junk);
    }
  }
}
