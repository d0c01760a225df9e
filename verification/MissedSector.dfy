/** A bootable image on which a mount succeeds although it leaves a used sector unmarked,
    and hands that sector out. */
module MissedSector {
  import opened Unixv6fs
  import opened BmBlock
  import opened Inodes
  import opened Volumes
  import opened Creation
  import opened Mounting
  import opened Commands
  import opened EmptyDisk

  /** A file of 4096 bytes whose indirect sector is sector 4. */
  function Indirect(): (i: Inode)
    ensures Allocated(i) && Size(i) == 4096
  {
    ZeroInode().(mode := 0x8000, size1 := 4096, addr := [4, 0, 0, 0, 0, 0, 0, 0])
  }

  /** Inode 1 is an empty root, inode 2 the indirect file; the first entry of its indirect
      sector is 0xFF8C and the second is sector 5. */
  predicate HidesASector(v: Vol) {
    && v.sb == Superblock(2, 5, 0, 0, 2, 4, 0, 0) && |v.disk| == 6
    && Word(v.disk[4], 0) == 0xFF8C && Word(v.disk[4], 2) == 5
    && forall n :: 1 <= n < 2 * INODES_PER_SECTOR ==>
      InodeAt(v, n) == if n == ROOT_INUMBER then NewInode(IFDIR) else if n == 2 then Indirect() else ZeroInode()
  }

  lemma IndirectBlocks(v: Vol)
    requires HidesASector(v)
    ensures FindSector(v.disk, Indirect(), 0) == ERR_OFFSET_OUT_OF_RANGE && FindSector(v.disk, Indirect(), 1) == 5
    ensures MarkCode(v.disk, Indirect()) == ERR_NONE && Marked(v.disk, Indirect()) == {4}
    ensures UsesSlot(Indirect(), 1)
  {
    hide InodeAt;
    var d, i := v.disk, Indirect();
    assert FindSector(d, i, 0) == Int16(0xFF8C) && FindSector(d, i, 1) == Int16(5);
    assert Stop(d, i, 0) == 0;
    assert MarkedSlot(i, 0) && forall x :: MarkedSlot(i, x) ==> x == 0;
    assert (set x | 0 <= x < ADDR_SMALL_LENGTH && MarkedSlot(i, x) :: i.addr[x]) == {4};
  }

  lemma {:induction false} ScanOfHiding(v: Vol, m: nat)
    requires HidesASector(v) && m <= INODES_PER_SECTOR
    ensures ScanCode(v, m) == ERR_NONE && ScannedSectors(v, m) <= {0, 4}
  {
    hide InodeAt, FindSector, NewInode, ZeroInode, Indirect, Allocated, Marked, MarkCode;
    if m > 0 {
      ScanOfHiding(v, m - 1);
      RootScan(v.disk);
      IndirectBlocks(v);
      TwoKinds();
    }
  }

  /** The inode bitmap is right and the scan reports success, but sector 5, block 1 of live
      file 2, is not marked, and it is what the next search for a free sector answers. */
  lemma MountHandsOutUsedSector(d: Disk)
    requires |d| > SUPERBLOCK_SECTOR && d[BOOTBLOCK_SECTOR][0] == BOOTBLOCK_MAGIC_NUM && HidesASector(VolumeOf(d))
    ensures var v := VolumeOf(d);
      && Geometry(v) && MountCode(d) == ERR_NONE
      && Live(v, 2) && UsesSlot(InodeAt(v, 2), 1) && Slot(v.disk, InodeAt(v, 2), 1) == 5 && 5 < |d|
      && SectorBits(v).Ok() && 5 !in SectorBits(v).marks && NextFree(SectorBits(v)) == 5
  {
    hide InodeAt, ScanCode, ScannedSectors, FindSector, UsesSlot, NewInode;
    var v := VolumeOf(d);
    ScanOfHiding(v, INODES_PER_SECTOR);
    IndirectBlocks(v);
    ScanReachesHiding(v);
    FreshSearchFindsSmallest(SectorBits(v), 5);
  }

  /** Sector 4, the indirect one, is marked. */
  lemma ScanReachesHiding(v: Vol)
    requires HidesASector(v) && ScanCode(v, INODES_PER_SECTOR) == ERR_NONE
    ensures 4 in ScannedSectors(v, INODES_PER_SECTOR)
  {
    hide InodeAt, FindSector, MarkCode, Marked;
    IndirectBlocks(v);
    ScanReaches(v, INODES_PER_SECTOR, 2);
  }

  lemma HidingImageExists() returns (d: Disk)
    ensures |d| > SUPERBLOCK_SECTOR && d[BOOTBLOCK_SECTOR][0] == BOOTBLOCK_MAGIC_NUM && HidesASector(VolumeOf(d))
  {
    hide InodeAt, NewInode, Indirect;
    var zero: Sector := seq(SECTOR_SIZE, _ => 0);
    var boot: Sector := [BOOTBLOCK_MAGIC_NUM] + zero[1..];
    var super: Sector := [2, 0, 5, 0, 0, 0, 0, 0, 2, 0, 4, 0, 0, 0, 0, 0] + zero[16..];
    var entries: Sector := [0x8C, 0xFF, 5, 0] + zero[4..];
    var blank := VolumeOf([boot, super, zero, zero, entries, zero]);
    assert blank.sb == Superblock(2, 5, 0, 0, 2, 4, 0, 0);
    var rooted := PutInode(blank, ROOT_INUMBER, NewInode(IFDIR));
    var v := PutInode(rooted, 2, Indirect());
    d := v.disk;
    assert d[SUPERBLOCK_SECTOR] == super && d[BOOTBLOCK_SECTOR] == boot && d[4] == entries && VolumeOf(d) == v;
    forall n | 1 <= n < 2 * INODES_PER_SECTOR
      ensures InodeAt(v, n) == if n == ROOT_INUMBER then NewInode(IFDIR) else if n == 2 then Indirect() else ZeroInode()
    {
      BlankInode(blank, n);
      PutInodeIsUpdate(blank, ROOT_INUMBER, NewInode(IFDIR), n);
      PutInodeIsUpdate(rooted, 2, Indirect(), n);
    }
  }
}
