/** Disk images on which the code goes wrong: a well-formed disk whose next mkdir hides its
    directory from every mount, a well-formed disk that does not mount, and one whose root
    is broken by the next entry. */
module Images {
  import opened Unixv6fs
  import opened Inodes
  import opened Files
  import opened Volumes
  import opened Appends
  import opened Directories
  import opened Creation
  import opened Hierarchy
  import opened Mounting
  import opened Commands
  import opened Remounting
  import opened EmptyDisk
  import opened Limits

  function EmptyFile(): (i: Inode)
    ensures Allocated(i) && Size(i) == 0 && !IsDir(i) && TidyInode(i)
  {
    ZeroInode().(mode := 0x8000)
  }

  /** A volume whose only directory is an empty root is a hierarchy. */
  lemma OnlyRootDir(v: Vol)
    requires FilesOk(v) && LiveDir(v, ROOT_INUMBER) && Size(InodeAt(v, ROOT_INUMBER)) == 0
    requires forall n :: LiveDir(v, n) ==> n == ROOT_INUMBER
    ensures VolumeOk(v) && DirEntries(v, ROOT_INUMBER) == []
  {
    hide InodeAt, FilesOk, Allocated, OnDisk;
    LiveFilesReadable(v, ROOT_INUMBER);
    assert |Data(v, ROOT_INUMBER)| == 0;
    var rank: seq<nat> := seq(INODES_PER_SECTOR * v.sb.isize, _ => 0);
    assert Ranked(v, rank);
  }

  // ---------------------------------------------------------------- no inode left that a mount sees

  /** The root is empty, every other inode that a mount looks at is an empty file, and the
      rest of the table is blank. */
  predicate PackedTable(v: Vol) {
    && Geometry(v) && v.sb.isize >= 2
    && forall n :: 1 <= n < INODES_PER_SECTOR * v.sb.isize ==>
      OnDisk(v, n) && InodeAt(v, n) ==
        if n == ROOT_INUMBER then NewInode(IFDIR) else if n <= ScanLimit(v.sb) then EmptyFile() else ZeroInode()
  }

  lemma PackedInode(v: Vol, n: int)
    requires PackedTable(v)
    ensures Live(v, n) <==> 1 <= n <= ScanLimit(v.sb)
    ensures OnDisk(v, n) ==> Size(InodeAt(v, n)) == 0
    ensures LiveDir(v, n) <==> n == ROOT_INUMBER
    ensures Live(v, n) ==> TidyInode(InodeAt(v, n))
  {
    hide InodeAt, ZeroInode, NewInode, EmptyFile, Size, Allocated, OnDisk, Geometry, TidyInode, IsDir;
    OnDiskRange(v, n);
    TwoKinds();
    NewInodeTidy(IFDIR);
    BlankIsNoDir();
  }

  lemma BlankIsNoDir()
    ensures !IsDir(ZeroInode())
  {
  }

  lemma PackedIsOk(d: Disk) returns (v: Vol)
    requires Bootable(d) && |d| > SUPERBLOCK_SECTOR && PackedTable(VolumeOf(d))
    ensures v == VolumeOf(d) && DiskOk(d) && MountCode(d) == ERR_NONE && SectorRoom(v) && !InodeRoom(v)
    ensures LiveDir(v, ROOT_INUMBER) && DirEntries(v, ROOT_INUMBER) == [] && OnDisk(v, ROOT_INUMBER) && Size(InodeAt(v, ROOT_INUMBER)) == 0
  {
    hide InodeAt, Size, Allocated, TidyInode, SuperblockOf, Slot, FindSector, MountCode, DirEntries, Acyclic, DirOk;
    v := VolumeOf(d);
    forall n
      ensures Live(v, n) <==> 1 <= n <= ScanLimit(v.sb)
      ensures OnDisk(v, n) ==> Size(InodeAt(v, n)) == 0
      ensures LiveDir(v, n) <==> n == ROOT_INUMBER
      ensures Live(v, n) ==> TidyInode(InodeAt(v, n))
    {
      PackedInode(v, n);
    }
    EmptyFiles(v);
    OnlyRootDir(v);
    SmallEndInside(v);
    EndInsideMounts(d);
    NothingUsed(v);
    SmallTidyRoom(d);
  }

  lemma NothingUsed(v: Vol)
    requires Geometry(v) && forall n :: OnDisk(v, n) ==> Size(InodeAt(v, n)) == 0
    ensures Unused(v, v.sb.blockStart)
  {
    hide InodeAt, Slot;
  }

  /** On such a disk mkdir succeeds, and takes an inode that no later mount will see. */
  lemma MkdirHidesDirectory(d: Disk, name: seq<Byte>, junk: Junk)
    requires Bootable(d) && |d| > SUPERBLOCK_SECTOR && PackedTable(VolumeOf(d)) && GoodName(name) && |name| <= DIRENT_MAXLEN
    ensures var c := Mkdir(InRoot(name), junk);
      DiskOk(d) && CommandDefined(d, c) && RunCommand(d, c).0 == ERR_NONE && !DiskOk(RunCommand(d, c).1)
  {
    hide InodeAt, IsFormatted, Lookup, VolumeOk, RelativeName, AbsoluteName, InodeRoom, SectorRoom, Size, DirFind, RunCommand, CommandDefined, AllScanned, InRoot, EntryRoom, PackedTable, DirEntries;
    var v := PackedIsOk(d);
    RootTarget(v, name);
    VolumeFacts(v);
    EmptyRootFinds(v, name);
    SixteenFits();
    CommandKeepsDiskIff(d, Mkdir(InRoot(name), junk));
  }

  lemma EmptyRootFinds(v: Vol, name: seq<Byte>)
    requires FilesOk(v) && LiveDir(v, ROOT_INUMBER) && DirEntries(v, ROOT_INUMBER) == []
    ensures DirFind(v, ROOT_INUMBER, name) == ERR_NO_SUCH_FILE
  {
    hide InodeAt, FilesOk, DirFind, DirEntries;
    DirFindInEntries(v, ROOT_INUMBER, name);
  }

  lemma PackInodes(v: Vol, k: nat) returns (w: Vol)
    requires Geometry(v) && 1 <= k < INODES_PER_SECTOR * v.sb.isize
    ensures w.sb == v.sb && |w.disk| == |v.disk| && forall t :: 0 <= t < v.sb.inodeStart ==> w.disk[t] == v.disk[t]
    ensures forall n :: OnDisk(v, n) ==> OnDisk(w, n) && InodeAt(w, n) == if 2 <= n <= k then EmptyFile() else InodeAt(v, n)
  {
    hide InodeAt, EmptyFile;
    if k == 1 {
      w := v;
    } else {
      var u := PackInodes(v, k - 1);
      w := PutInode(u, k, EmptyFile());
      forall n | OnDisk(v, n) ensures InodeAt(w, n) == if n == k then EmptyFile() else InodeAt(u, n) {
        PutInodeIsUpdate(u, k, EmptyFile(), n);
      }
    }
  }

  lemma PackedImageExists() returns (d: Disk)
    ensures Bootable(d) && |d| > SUPERBLOCK_SECTOR && PackedTable(VolumeOf(d))
  {
    hide InodeAt, NewInode, EmptyFile, EncodeInode, Splice;
    var zero: Sector := seq(SECTOR_SIZE, _ => 0);
    var boot: Sector := [BOOTBLOCK_MAGIC_NUM] + zero[1..];
    var super: Sector := [2, 0, 8, 0, 0, 0, 0, 0, 2, 0, 4, 0, 0, 0, 0, 0] + zero[16..];
    var blank := VolumeOf([boot, super, zero, zero]);
    assert blank.sb == Superblock(2, 8, 0, 0, 2, 4, 0, 0);
    var rooted := PutInode(blank, ROOT_INUMBER, NewInode(IFDIR));
    var v := PackInodes(rooted, INODES_PER_SECTOR);
    d := v.disk;
    assert d[SUPERBLOCK_SECTOR] == super && d[BOOTBLOCK_SECTOR] == boot && VolumeOf(d) == v;
    forall n | 1 <= n < INODES_PER_SECTOR * v.sb.isize
      ensures OnDisk(v, n) && InodeAt(v, n) ==
        if n == ROOT_INUMBER then NewInode(IFDIR) else if n <= ScanLimit(v.sb) then EmptyFile() else ZeroInode()
    {
      BlankInode(blank, n);
      PutInodeIsUpdate(blank, ROOT_INUMBER, NewInode(IFDIR), n);
    }
  }

  // ---------------------------------------------------------------- a well-formed disk that does not mount

  /** A file of nine whole blocks behind the indirect sector 4. */
  function NineBlocks(): (i: Inode)
    ensures Allocated(i) && Size(i) == 4608 && !IsDir(i) && i.addr[0] == 4
  {
    ZeroInode().(mode := 0x8000, size1 := 4608, addr := [4, 0, 0, 0, 0, 0, 0, 0])
  }

  /** The root is empty, inode 2 is that file with its blocks in sectors 5 to 13, and the
      entry behind its last block is 0xFFFF. */
  predicate BadEnd(v: Vol) {
    && v.sb == Superblock(2, 13, 0, 0, 2, 4, 0, 0) && |v.disk| == 14
    && (forall k :: 0 <= k < 9 ==> Word(v.disk[4], 2 * k) == 5 + k) && Word(v.disk[4], 18) == 0xFFFF
    && forall n :: 1 <= n < 2 * INODES_PER_SECTOR ==>
      InodeAt(v, n) == if n == ROOT_INUMBER then NewInode(IFDIR) else if n == 2 then NineBlocks() else ZeroInode()
  }

  lemma BadEndInode(v: Vol, n: int)
    requires BadEnd(v)
    ensures Live(v, n) <==> n == ROOT_INUMBER || n == 2
    ensures LiveDir(v, n) <==> n == ROOT_INUMBER
    ensures OnDisk(v, ROOT_INUMBER) && OnDisk(v, 2)
    ensures InodeAt(v, ROOT_INUMBER) == NewInode(IFDIR) && InodeAt(v, 2) == NineBlocks()
  {
    hide InodeAt, ZeroInode, NewInode, NineBlocks, Size, Allocated, IsDir;
    OnDiskRange(v, n);
    TwoKinds();
    BlankIsNoDir();
  }

  lemma NineSlots(d: Disk, k: int)
    requires |d| > 4 && (forall k :: 0 <= k < 9 ==> Word(d[4], 2 * k) == 5 + k) && Word(d[4], 18) == 0xFFFF
    ensures UsesSlot(NineBlocks(), k) <==> -1 <= k < 9
    ensures UsesSlot(NineBlocks(), k) ==> Slot(d, NineBlocks(), k) == 5 + k
    ensures FindSector(d, NineBlocks(), 9) == -1 && !EndFound(d, NineBlocks())
  {
    if 0 <= k < 9 {
      assert FindSector(d, NineBlocks(), k) == Int16(Word(d[4], 2 * k));
    }
    assert FindSector(d, NineBlocks(), 9) == Int16(Word(d[4], 18));
  }

  /** Such a disk is well formed in every respect, but a mount fails. */
  lemma WellFormedDoesNotMount(d: Disk)
    requires Bootable(d) && |d| > SUPERBLOCK_SECTOR && BadEnd(VolumeOf(d))
    ensures DiskOk(d) && MountCode(d) != ERR_NONE
  {
    hide InodeAt, FindSector, UsesSlot, Slot, NewInode, NineBlocks, Size, Allocated, IsDir, MountCode, EndFound, Acyclic, DirOk, DirEntries, SuperblockOf, OnDisk;
    var v := VolumeOf(d);
    TwoKinds();
    forall n ensures Live(v, n) <==> n == ROOT_INUMBER || n == 2 ensures LiveDir(v, n) <==> n == ROOT_INUMBER
    {
      BadEndInode(v, n);
    }
    BadEndInode(v, ROOT_INUMBER);
    forall k ensures !UsesSlot(NewInode(IFDIR), k)
      ensures UsesSlot(NineBlocks(), k) <==> -1 <= k < 9
      ensures UsesSlot(NineBlocks(), k) ==> Slot(v.disk, NineBlocks(), k) == 5 + k
    {
      EmptyUsesNothing(NewInode(IFDIR), k);
      NineSlots(v.disk, k);
    }
    assert FilesOk(v);
    OnlyRootDir(v);
    NineSlots(v.disk, 0);
    DiskMountsIff(d);
    assert Live(v, 2);
  }

  lemma NineEntries() returns (entries: Sector)
    ensures (forall k :: 0 <= k < 9 ==> Word(entries, 2 * k) == 5 + k) && Word(entries, 18) == 0xFFFF
  {
    var zero: Sector := seq(SECTOR_SIZE, _ => 0);
    entries := [5, 0, 6, 0, 7, 0, 8, 0, 9, 0, 10, 0, 11, 0, 12, 0, 13, 0, 255, 255] + zero[20..];
  }

  lemma BadEndImageExists() returns (d: Disk)
    ensures Bootable(d) && |d| > SUPERBLOCK_SECTOR && BadEnd(VolumeOf(d))
  {
    hide InodeAt, NewInode, NineBlocks, EncodeInode, Splice;
    var zero: Sector := seq(SECTOR_SIZE, _ => 0);
    var boot: Sector := [BOOTBLOCK_MAGIC_NUM] + zero[1..];
    var super: Sector := [2, 0, 13, 0, 0, 0, 0, 0, 2, 0, 4, 0, 0, 0, 0, 0] + zero[16..];
    var entries := NineEntries();
    var blank := VolumeOf([boot, super, zero, zero, entries, zero, zero, zero, zero, zero, zero, zero, zero, zero]);
    assert blank.sb == Superblock(2, 13, 0, 0, 2, 4, 0, 0);
    var rooted := PutInode(blank, ROOT_INUMBER, NewInode(IFDIR));
    var v := PutInode(rooted, 2, NineBlocks());
    d := v.disk;
    assert d[SUPERBLOCK_SECTOR] == super && d[BOOTBLOCK_SECTOR] == boot && d[4] == entries && VolumeOf(d) == v;
    forall n | 1 <= n < 2 * INODES_PER_SECTOR
      ensures InodeAt(v, n) == if n == ROOT_INUMBER then NewInode(IFDIR) else if n == 2 then NineBlocks() else ZeroInode()
    {
      BlankInode(blank, n);
      PutInodeIsUpdate(blank, ROOT_INUMBER, NewInode(IFDIR), n);
      PutInodeIsUpdate(rooted, 2, NineBlocks(), n);
    }
  }

  // ---------------------------------------------------------------- a root with room for one last entry

  /** 255 different names of one byte, and of two for the one that would be a slash. */
  function CrowdName(j: nat): (name: seq<Byte>)
    requires j < 255
    ensures name != [] && |name| <= 2 && 0 !in name && SLASH !in name
  {
    if j + 1 == SLASH then [1, 1] else [j + 1]
  }

  /** Byte p of 255 entries with these names, all for inode 2. */
  function CrowdByte(p: nat): Byte {
    var j, r := p / DIRENT_SIZE, p % DIRENT_SIZE;
    if j >= 255 then 0
    else if r == 0 then 2
    else if 2 <= r < 2 + |CrowdName(j)| then CrowdName(j)[r - 2]
    else 0
  }

  function CrowdBytes(): (s: seq<Byte>)
    ensures |s| == 4096 && forall p :: 0 <= p < 4096 ==> s[p] == CrowdByte(p)
  {
    seq(4096, p requires 0 <= p < 4096 => CrowdByte(p))
  }

  function CrowdSector(b: nat): (s: seq<Byte>)
    requires b < ADDR_SMALL_LENGTH
    ensures |s| == SECTOR_SIZE && forall i :: 0 <= i < SECTOR_SIZE ==> s[i] == CrowdByte(SECTOR_SIZE * b + i)
  {
    CrowdBytes()[SECTOR_SIZE * b..SECTOR_SIZE * b + SECTOR_SIZE]
  }

  lemma CrowdedEntry(data: seq<Byte>, j: nat)
    requires |data| == 4080 && j < 255 && forall p :: 0 <= p < 4080 ==> data[p] == CrowdByte(p)
    ensures Entries(data)[j] == Dirent(2, CrowdName(j))
  {
    hide CrowdName;
    var b := data[DIRENT_SIZE * j..DIRENT_SIZE * j + DIRENT_SIZE];
    var name := CrowdName(j);
    forall r | 0 <= r < DIRENT_SIZE ensures b[r] == if r == 0 then 2 else if 2 <= r < 2 + |name| then name[r - 2] else 0 {
      assert b[r] == data[DIRENT_SIZE * j + r] && (DIRENT_SIZE * j + r) / DIRENT_SIZE == j && (DIRENT_SIZE * j + r) % DIRENT_SIZE == r;
    }
    assert b[2..] == name + b[2 + |name|..];
    UpToNulOfPadded(name, b[2 + |name|..]);
  }

  /** The inode of the root: eight sectors from 4 on, 4080 bytes. */
  function CrowdedInode(): (i: Inode)
    ensures Allocated(i) && IsDir(i) && Size(i) == 4080 && forall k :: 0 <= k < ADDR_SMALL_LENGTH ==> i.addr[k] == 4 + k
  {
    ZeroInode().(mode := 0xC000, size1 := 4080, addr := [4, 5, 6, 7, 8, 9, 10, 11])
  }

  predicate CrowdedRoot(v: Vol) {
    && v.sb == Superblock(2, 13, 0, 0, 2, 4, 0, 0) && |v.disk| == 12
    && (forall b :: 0 <= b < ADDR_SMALL_LENGTH ==> v.disk[4 + b] == CrowdSector(b))
    && forall n :: 1 <= n < 2 * INODES_PER_SECTOR ==>
      InodeAt(v, n) == if n == ROOT_INUMBER then CrowdedInode() else if n == 2 then EmptyFile() else ZeroInode()
  }

  lemma CrowdedInodes(v: Vol, n: int)
    requires CrowdedRoot(v)
    ensures Live(v, n) <==> n == ROOT_INUMBER || n == 2
    ensures LiveDir(v, n) <==> n == ROOT_INUMBER
    ensures OnDisk(v, ROOT_INUMBER) && OnDisk(v, 2)
    ensures InodeAt(v, ROOT_INUMBER) == CrowdedInode() && InodeAt(v, 2) == EmptyFile()
  {
    hide InodeAt, ZeroInode, CrowdedInode, EmptyFile, Size, Allocated, IsDir, TidyInode, CrowdSector;
    OnDiskRange(v, n);
    TwoKinds();
    BlankIsNoDir();
  }

  lemma CrowdedFiles(v: Vol)
    requires CrowdedRoot(v)
    ensures FilesOk(v) && LiveDir(v, ROOT_INUMBER) && InodeAt(v, ROOT_INUMBER) == CrowdedInode()
    ensures forall n :: Live(v, n) <==> n == ROOT_INUMBER || n == 2
    ensures forall n :: LiveDir(v, n) <==> n == ROOT_INUMBER
    ensures forall n :: Live(v, n) ==> Size(InodeAt(v, n)) < 4096
    ensures Unused(v, 12)
  {
    hide InodeAt, FindSector, UsesSlot, Slot, CrowdedInode, EmptyFile, Size, Allocated, IsDir, OnDisk, CrowdSector, TidyInode;
    forall n ensures Live(v, n) <==> n == ROOT_INUMBER || n == 2 ensures LiveDir(v, n) <==> n == ROOT_INUMBER
    {
      CrowdedInodes(v, n);
    }
    CrowdedInodes(v, ROOT_INUMBER);
    forall k ensures !UsesSlot(EmptyFile(), k)
      ensures UsesSlot(CrowdedInode(), k) <==> 0 <= k < ADDR_SMALL_LENGTH
      ensures UsesSlot(CrowdedInode(), k) ==> Slot(v.disk, CrowdedInode(), k) == 4 + k
    {
      EmptyUsesNothing(EmptyFile(), k);
      DirectSlot(v.disk, CrowdedInode(), k);
    }
    assert FilesOk(v);
  }

  lemma CrowdedData(v: Vol)
    requires CrowdedRoot(v) && FilesOk(v) && LiveDir(v, ROOT_INUMBER) && InodeAt(v, ROOT_INUMBER) == CrowdedInode()
    ensures |Data(v, ROOT_INUMBER)| == 4080 && forall p :: 0 <= p < 4080 ==> Data(v, ROOT_INUMBER)[p] == CrowdByte(p)
  {
    hide InodeAt, FindSector, UsesSlot, Slot, CrowdedInode, CrowdByte, Size, Allocated, IsDir;
    LiveFilesReadable(v, ROOT_INUMBER);
    forall p | 0 <= p < 4080 ensures Data(v, ROOT_INUMBER)[p] == CrowdByte(p) {
      var b := p / SECTOR_SIZE;
      DirectSlots(v.disk, CrowdedInode(), b);
      assert v.disk[4 + b] == CrowdSector(b) && SECTOR_SIZE * b + p % SECTOR_SIZE == p;
    }
  }

  lemma CrowdedIsOk(d: Disk) returns (v: Vol)
    requires Bootable(d) && |d| > SUPERBLOCK_SECTOR && CrowdedRoot(VolumeOf(d))
    ensures v == VolumeOf(d) && DiskOk(d) && MountCode(d) == ERR_NONE && LiveDir(v, ROOT_INUMBER)
    ensures Size(InodeAt(v, ROOT_INUMBER)) == 4096 - DIRENT_SIZE && FirstWord(v, ROOT_INUMBER, 0) == 2
    ensures forall e :: e in DirEntries(v, ROOT_INUMBER) ==> |e.name| <= 2
  {
    hide InodeAt, CrowdedInode, EmptyFile, Size, Allocated, IsDir, OnDisk, MountCode, SuperblockOf, CrowdSector, CrowdName, Entries, Content, FilesOk;
    v := VolumeOf(d);
    CrowdedFiles(v);
    CrowdedData(v);
    var es := DirEntries(v, ROOT_INUMBER);
    assert |es| == 255;
    forall j | 0 <= j < 255 ensures es[j] == Dirent(2, CrowdName(j)) {
      CrowdedEntry(Data(v, ROOT_INUMBER), j);
    }
    CrowdNamesDiffer();
    var rank: seq<nat> := seq(INODES_PER_SECTOR * v.sb.isize, _ => 0);
    assert Ranked(v, rank);
    assert VolumeOk(v);
    SmallEndInside(v);
    EndInsideMounts(d);
  }

  lemma CrowdNamesDiffer()
    ensures forall j, k :: 0 <= j < k < 255 ==> CrowdName(j) != CrowdName(k)
  {
  }

  /** On such a disk mkdir of any new name of three bytes or more below the root succeeds, and
      the root is broken: its first word, 2, is taken for the sector of its first block. */
  lemma LastEntryBreaksTheRoot(d: Disk, name: seq<Byte>, junk: Junk)
    requires Bootable(d) && |d| > SUPERBLOCK_SECTOR && CrowdedRoot(VolumeOf(d)) && GoodName(name) && 3 <= |name| <= DIRENT_MAXLEN
    ensures var c := Mkdir(InRoot(name), junk);
      DiskOk(d) && CommandDefined(d, c) && RunCommand(d, c).0 == ERR_NONE && !DiskOk(RunCommand(d, c).1)
  {
    hide InodeAt, Lookup, VolumeOk, RelativeName, AbsoluteName, InodeRoom, SectorRoom, DirFind, RunCommand, CommandDefined, AllScanned, InRoot, CrowdedRoot, DirEntries, FirstWord, MountCode, EntriesServe, Size, Allocated;
    var v := CrowdedIsOk(d);
    RootTarget(v, name);
    VolumeFacts(v);
    NewNameMissing(v, name);
    var parent, n, s := CommandAtLimitIff(d, Mkdir(InRoot(name), junk));
  }

  lemma NewNameMissing(v: Vol, name: seq<Byte>)
    requires FilesOk(v) && LiveDir(v, ROOT_INUMBER) && forall e :: e in DirEntries(v, ROOT_INUMBER) ==> e.name != name
    ensures DirFind(v, ROOT_INUMBER, name) == ERR_NO_SUCH_FILE
  {
    hide InodeAt, FilesOk, DirFind, DirEntries;
    DirFindInEntries(v, ROOT_INUMBER, name);
    var es := DirEntries(v, ROOT_INUMBER);
    assert forall k :: 0 <= k < |es| ==> es[k] in es;
  }

  lemma CrowdedImageExists() returns (d: Disk)
    ensures Bootable(d) && |d| > SUPERBLOCK_SECTOR && CrowdedRoot(VolumeOf(d))
  {
    hide InodeAt, CrowdedInode, EmptyFile, CrowdSector, EncodeInode, Splice;
    var zero: Sector := seq(SECTOR_SIZE, _ => 0);
    var boot: Sector := [BOOTBLOCK_MAGIC_NUM] + zero[1..];
    var super: Sector := [2, 0, 13, 0, 0, 0, 0, 0, 2, 0, 4, 0, 0, 0, 0, 0] + zero[16..];
    var blank := VolumeOf([boot, super, zero, zero, CrowdSector(0), CrowdSector(1), CrowdSector(2), CrowdSector(3),
                           CrowdSector(4), CrowdSector(5), CrowdSector(6), CrowdSector(7)]);
    assert blank.sb == Superblock(2, 13, 0, 0, 2, 4, 0, 0);
    var rooted := PutInode(blank, ROOT_INUMBER, CrowdedInode());
    var v := PutInode(rooted, 2, EmptyFile());
    d := v.disk;
    assert d[SUPERBLOCK_SECTOR] == super && d[BOOTBLOCK_SECTOR] == boot && VolumeOf(d) == v;
    forall n | 1 <= n < 2 * INODES_PER_SECTOR
      ensures InodeAt(v, n) == if n == ROOT_INUMBER then CrowdedInode() else if n == 2 then EmptyFile() else ZeroInode()
    {
      BlankInode(blank, n);
      PutInodeIsUpdate(blank, ROOT_INUMBER, CrowdedInode(), n);
      PutInodeIsUpdate(rooted, 2, EmptyFile(), n);
    }
  }
}
