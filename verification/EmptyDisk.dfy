/** Disks with nothing but an empty root directory: they are well formed, they mount, and
    mkdir works on them. They are where a run of commands starts. */
module EmptyDisk {
  import opened Unixv6fs
  import opened BmBlock
  import opened Inodes
  import opened Files
  import opened Volumes
  import opened Appends
  import opened Directories
  import opened Creation
  import opened Hierarchy
  import opened Growth
  import opened Mounting
  import opened Commands
  import opened Remounting

  /** Inode 1 is an empty directory and every other inode is blank. A mount looks at more
      than one row of the inode table. */
  predicate OnlyRoot(v: Vol) {
    && Geometry(v) && v.sb.isize >= 2
    && forall n :: 1 <= n < INODES_PER_SECTOR * v.sb.isize ==>
      OnDisk(v, n) && InodeAt(v, n) == if n == ROOT_INUMBER then NewInode(IFDIR) else ZeroInode()
  }

  /** A bootable image of such a volume. */
  predicate IsFormatted(d: Disk) {
    |d| > SUPERBLOCK_SECTOR && d[BOOTBLOCK_SECTOR][0] == BOOTBLOCK_MAGIC_NUM && OnlyRoot(VolumeOf(d))
  }

  lemma OnlyRootIsLive(v: Vol, n: int)
    requires OnlyRoot(v)
    ensures Live(v, n) <==> n == ROOT_INUMBER
    ensures OnDisk(v, n) ==> Size(InodeAt(v, n)) == 0
    ensures InodeAt(v, ROOT_INUMBER) == NewInode(IFDIR) && OnDisk(v, ROOT_INUMBER)
  {
    hide InodeAt, ZeroInode, NewInode, Size, Allocated, OnDisk, Geometry;
    OnDiskRange(v, n);
    TwoKinds();
  }

  lemma OnDiskRange(v: Vol, n: int)
    ensures OnDisk(v, n) ==> 1 <= n < INODES_PER_SECTOR * v.sb.isize
  {
  }

  lemma TwoKinds()
    ensures Allocated(NewInode(IFDIR)) && IsDir(NewInode(IFDIR)) && Size(NewInode(IFDIR)) == 0
    ensures !Allocated(ZeroInode()) && Size(ZeroInode()) == 0
  {
  }

  lemma FormattedFiles(d: Disk) returns (v: Vol)
    requires IsFormatted(d)
    ensures |d| > SUPERBLOCK_SECTOR && v == VolumeOf(d) && v.sb.isize >= 2 && FilesOk(v)
    ensures LiveDir(v, ROOT_INUMBER) && InodeAt(v, ROOT_INUMBER) == NewInode(IFDIR)
    ensures DirEntries(v, ROOT_INUMBER) == []
    ensures forall n :: Live(v, n) <==> n == ROOT_INUMBER
    ensures forall n :: OnDisk(v, n) ==> Size(InodeAt(v, n)) == 0
  {
    hide InodeAt, FindSector, Slot, Live, OnDisk, DecodeDirent, NewInode, Content, SuperblockOf;
    v := VolumeOf(d);
    forall n
      ensures Live(v, n) <==> n == ROOT_INUMBER
      ensures OnDisk(v, n) ==> Size(InodeAt(v, n)) == 0
    {
      OnlyRootIsLive(v, n);
    }
    OnlyRootIsLive(v, ROOT_INUMBER);
    EmptyFiles(v);
    assert |Data(v, ROOT_INUMBER)| == 0;
  }

  /** Empty files use no sectors. */
  lemma EmptyFiles(v: Vol)
    requires Geometry(v) && forall n :: OnDisk(v, n) ==> Size(InodeAt(v, n)) == 0
    ensures FilesOk(v)
  {
    hide InodeAt, Slot;
  }

  lemma FormattedIsOk(d: Disk)
    requires IsFormatted(d)
    ensures DiskOk(d)
  {
    hide InodeAt, Data, DirEntries, Allocated, FilesOk, NewInode, IsFormatted;
    var v := FormattedFiles(d);
    var rank: seq<nat> := seq(INODES_PER_SECTOR * v.sb.isize, _ => 0);
    assert Ranked(v, rank);
  }

  lemma {:induction false} FormattedScan(v: Vol, m: nat)
    requires OnlyRoot(v) && m <= ScanLimit(v.sb)
    ensures ScanCode(v, m) == ERR_NONE && ScannedSectors(v, m) <= {0}
  {
    hide InodeAt, Allocated, Marked, VisitCode, OnlyRoot, OnDisk;
    if m > 0 {
      FormattedScan(v, m - 1);
      FormattedVisit(v, m);
    }
  }

  lemma FormattedVisit(v: Vol, m: nat)
    requires OnlyRoot(v) && 1 <= m <= ScanLimit(v.sb)
    ensures VisitCode(v, m) == ERR_NONE
    ensures OnDisk(v, m) && Allocated(InodeAt(v, m)) ==> Marked(v.disk, InodeAt(v, m)) <= {0}
  {
    hide InodeAt, NewInode, ZeroInode, Allocated, Marked, MarkCode, OnlyRoot;
    RootScan(v.disk);
    TwoKinds();
    NumberInTable(v, m);
  }

  lemma NumberInTable(v: Vol, m: int)
    requires OnlyRoot(v) && 1 <= m <= ScanLimit(v.sb)
    ensures m < 0x1_0000 && OnDisk(v, m) && InodeAt(v, m) == if m == ROOT_INUMBER then NewInode(IFDIR) else ZeroInode()
  {
    hide InodeAt, OnDisk;
  }

  lemma RootScan(d: Disk)
    ensures MarkCode(d, NewInode(IFDIR)) == ERR_NONE && Marked(d, NewInode(IFDIR)) == {0}
  {
    hide FindSector;
    EmptyFileBlocks(d, NewInode(IFDIR));
  }

  /** An empty file has one block number that is found, and one address slot marked. */
  lemma EmptyFileBlocks(d: Disk, i: Inode)
    requires Allocated(i) && Size(i) == 0 && i.addr[0] == 0
    ensures MarkCode(d, i) == ERR_NONE && Marked(d, i) == {0}
  {
    hide Size;
    assert FindSector(d, i, 0) == 0 && FindSector(d, i, 1) == ERR_OFFSET_OUT_OF_RANGE;
    assert Stop(d, i, 1) == 1 == Stop(d, i, 0);
    assert MarkedSlot(i, 0) && forall x :: MarkedSlot(i, x) ==> x == 0;
    assert (set x | 0 <= x < ADDR_SMALL_LENGTH && MarkedSlot(i, x) :: i.addr[x]) == {0};
  }

  /** It mounts, with a free inode number and a free sector. */
  lemma FormattedMounts(d: Disk) returns (v: Vol)
    requires IsFormatted(d)
    ensures DiskOk(d) && MountCode(d) == ERR_NONE && v == VolumeOf(d) && InodeRoom(v) && SectorRoom(v)
  {
    hide InodeAt, DirEntries, Allocated, NewInode, VolumeOk, ScanCode, ScannedSectors, Live, Placed, Disjoint;
    FormattedIsOk(d);
    v := FormattedFiles(d);
    FormattedScan(v, ScanLimit(v.sb));
    assert !Live(v, 2);
    assert v.sb.blockStart !in SectorBits(v).marks;
  }

  /** Every path that a C string can hold is in scope on it. */
  lemma FormattedScope(d: Disk, c: Command)
    requires IsFormatted(d) && 0 !in c.entry && (c.Add? ==> |c.buf| < MAX_ADD_SIZE)
    ensures DiskOk(d) && CommandInScope(d, c)
  {
    hide InodeAt, DirEntries, FilesOk, Lookup, VolumeOk, IsFormatted, EntryRoom, Size, RelativeName, AbsoluteName, OnDisk, Live;
    FormattedIsOk(d);
    var v := FormattedFiles(d);
    SixteenFits();
  }

  lemma SixteenFits()
    ensures forall sector :: EntryRoom(0, sector) && EntryRoom(DIRENT_SIZE, sector)
  {
  }

  lemma FormattedUpkeep(d: Disk)
    requires IsFormatted(d)
    ensures DiskOk(d) && Bootable(d) && SmallFiles(VolumeOf(d)) && Tidy(VolumeOf(d))
  {
    hide InodeAt, DirEntries, FilesOk, VolumeOk, TidyInode, NewInode, Size, Allocated;
    FormattedIsOk(d);
    var v := FormattedFiles(d);
    NewInodeTidy(IFDIR);
    TwoKinds();
  }

  // ---------------------------------------------------------------- entries of the root

  function InRoot(name: seq<Byte>): seq<Byte> {
    [SLASH] + name
  }

  lemma RootTarget(v: Vol, name: seq<Byte>)
    requires VolumeOk(v) && GoodName(name)
    ensures 0 !in InRoot(name) && RelativeName(InRoot(name)) == name
    ensures CreateTarget(v, InRoot(name)) == (ROOT_INUMBER, DirFind(v, ROOT_INUMBER, name))
  {
    hide Lookup, RelativeName, AbsoluteName, VolumeOk, DirFind;
    assert InRoot(name) == [] + [SLASH] + name;
    SplitIsUnique(InRoot(name), [], [SLASH], name);
    LookupOfName(v, ROOT_INUMBER, []);
    LookupOfName(v, ROOT_INUMBER, name);
  }

  lemma RootIsEmpty(d: Disk, name: seq<Byte>)
    requires IsFormatted(d)
    ensures |d| > SUPERBLOCK_SECTOR && DirFind(VolumeOf(d), ROOT_INUMBER, name) == ERR_NO_SUCH_FILE
    ensures OnDisk(VolumeOf(d), ROOT_INUMBER) && Size(InodeAt(VolumeOf(d), ROOT_INUMBER)) == 0
  {
    hide InodeAt, Data, FilesOk, DirFind, NewInode;
    var v := FormattedFiles(d);
    DirFindInEntries(v, ROOT_INUMBER, name);
  }

  /** On it mkdir succeeds for every usable name placed directly below the root. */
  lemma MkdirSucceeds(d: Disk, name: seq<Byte>, junk: Junk)
    requires IsFormatted(d) && GoodName(name) && |name| <= DIRENT_MAXLEN
    ensures DiskOk(d) && CommandSound(d, Mkdir(InRoot(name), junk)) && CommandSucceeds(d, Mkdir(InRoot(name), junk))
  {
    hide InodeAt, IsFormatted, Lookup, VolumeOk, RelativeName, AbsoluteName, RoomInParent, InodeRoom, SectorRoom, Size, DirFind, AllScanned, InRoot;
    var v := FormattedMounts(d);
    RootTarget(v, name);
    RootIsEmpty(d, name);
    FormattedScope(d, Mkdir(InRoot(name), junk));
  }

  /** On it adding any file that is not empty succeeds too, and breaks the volume: the root
      just took the sector that the file is given, or the file claims the boot sector. */
  lemma FirstAddBreaksTheDisk(d: Disk, name: seq<Byte>, buf: seq<Byte>, junk: Junk, junk': Junk)
    requires IsFormatted(d) && GoodName(name) && |name| <= DIRENT_MAXLEN && 0 < |buf| < MAX_ADD_SIZE
    ensures var c := Add(InRoot(name), buf, junk, junk');
      DiskOk(d) && CommandDefined(d, c) && RunCommand(d, c).0 == ERR_NONE && !DiskOk(RunCommand(d, c).1)
  {
    hide InodeAt, IsFormatted, Lookup, VolumeOk, RelativeName, AbsoluteName, RoomInParent, InodeRoom, SectorRoom, Size, DirFind, RunCommand, CommandDefined, AllScanned, InRoot;
    var c := Add(InRoot(name), buf, junk, junk');
    var v := FormattedMounts(d);
    RootTarget(v, name);
    RootIsEmpty(d, name);
    FormattedScope(d, c);
    CommandKeepsDiskIff(d, c);
  }

  // ---------------------------------------------------------------- a run of two commands

  /** What making a first directory in the root does. */
  ghost predicate OneDirectory(v: Vol, w: Vol, n: int, name: seq<Byte>, s: int) {
    && VolumeOk(v) && VolumeOk(w) && EntryAdded(v, w, ROOT_INUMBER, n, name, IFDIR)
    && FirstMatch(DirEntries(v, ROOT_INUMBER), name) == -1
    && ParentGrew(v, w, ROOT_INUMBER, s) && Size(InodeAt(v, ROOT_INUMBER)) == 0
    && forall m :: Live(w, m) <==> m == ROOT_INUMBER || m == n
  }

  lemma FirstDirectory(d: Disk, name: seq<Byte>, junk: Junk) returns (n: int, s: int, e: Disk)
    requires IsFormatted(d) && GoodName(name) && |name| <= DIRENT_MAXLEN
    ensures DiskOk(d) && CommandSound(d, Mkdir(InRoot(name), junk)) && CommandDefined(d, Mkdir(InRoot(name), junk))
    ensures RunCommand(d, Mkdir(InRoot(name), junk)) == (ERR_NONE, e) && DiskOk(e)
    ensures OneDirectory(VolumeOf(d), VolumeOf(e), n, name, s) && VolumeOf(e).sb == VolumeOf(d).sb
    ensures MountCode(e) == ERR_NONE && SmallFiles(VolumeOf(e)) && Tidy(VolumeOf(e))
  {
    hide InodeAt, IsFormatted, VolumeOk, RunCommand, CommandDefined, CommandSucceeds, CommandSound, TidyInode, MountCode, AllScanned, OneDirectory, InRoot;
    var c := Mkdir(InRoot(name), junk);
    MkdirSucceeds(d, name, junk);
    FormattedUpkeep(d);
    CommandScope(d, c);
    CommandKeepsDiskIff(d, c);
    CommandKeepsSmall(d, c);
    CommandKeepsTidy(d, c);
    e := RunCommand(d, c).1;
    SmallEndInside(VolumeOf(e));
    EndInsideMounts(e);
    n, s := DirectoryMade(d, name, junk);
    ExtendsKeepsHead(VolumeOf(d), VolumeOf(e));
  }

  lemma DirectoryMade(d: Disk, name: seq<Byte>, junk: Junk) returns (n: int, s: int)
    requires IsFormatted(d) && GoodName(name) && |name| <= DIRENT_MAXLEN
    requires DiskOk(d) && CommandInScope(d, Mkdir(InRoot(name), junk)) && CommandDefined(d, Mkdir(InRoot(name), junk))
    requires RunCommand(d, Mkdir(InRoot(name), junk)).0 == ERR_NONE
    ensures var e := RunCommand(d, Mkdir(InRoot(name), junk)).1;
      |e| > SUPERBLOCK_SECTOR && OneDirectory(VolumeOf(d), VolumeOf(e), n, name, s)
  {
    hide InodeAt, Data, Allocated, FilesOk, IsFormatted, NewInode, Lookup, VolumeOk, Create, CreateDefined, RelativeName, AbsoluteName, EntryRoom, InodeBits, SectorBits, ScanCode, Size, OnlyFile, EntryAdded, DirFind, Lengthened, FirstMatch, Extends, OnlyTheseGrew, InRoot, DirEntries, RoomInParent, AllScanned, InodeRoom, SectorRoom;
    var v := FormattedMounts(d);
    RootIsEmpty(d, name);
    RootTarget(v, name);
    var v' := FormattedFiles(d);
    MountedSearches(v);
    n, s := NextFree(InodeBits(v)), NextFree(SectorBits(v));
    var r, w := CreateResult(v, InRoot(name), IFDIR, n, s, junk);
    SameSuperblock(v, w);
    AddedAreLive(v, w, n, name);
  }

  lemma AddedAreLive(v: Vol, w: Vol, n: int, name: seq<Byte>)
    requires EntryAdded(v, w, ROOT_INUMBER, n, name, IFDIR)
    ensures Live(v, ROOT_INUMBER) && Live(w, ROOT_INUMBER) && Live(w, n)
    ensures forall m :: Live(w, m) <==> Live(v, m) || m == n
  {
    hide InodeAt, Data, FilesOk, NewInode;
  }

  /** What is left after it: inode numbers, all sectors but one, and all other names. */
  lemma RoomAfterDirectory(v: Vol, w: Vol, n: int, name: seq<Byte>, s: int, other: seq<Byte>)
    requires OneDirectory(v, w, n, name, s) && w.sb.isize >= 2 && w.sb.blockStart < w.sb.fsize
    requires GoodName(other) && other != name
    requires DirFind(v, ROOT_INUMBER, other) == ERR_NO_SUCH_FILE
    ensures OnDisk(w, ROOT_INUMBER) && Size(InodeAt(w, ROOT_INUMBER)) == DIRENT_SIZE
    ensures InodeRoom(w) && DirFind(w, ROOT_INUMBER, other) == ERR_NO_SUCH_FILE
    ensures Unused(w, w.sb.blockStart) || Unused(w, w.sb.fsize)
  {
    hide InodeAt, Data, FilesOk, NewInode, Lengthened, FirstIndex, DirEntries, DirFind, Size, Acyclic, DirOk, UsesSlot, Slot, Allocated;
    LengthenedSize(InodeAt(v, ROOT_INUMBER), InodeAt(w, ROOT_INUMBER), DIRENT_SIZE, s);
    DirFindAfterAdd(v, w, ROOT_INUMBER, n, name, IFDIR, ROOT_INUMBER, other);
    DirFindInEntries(w, ROOT_INUMBER, other);
    assert !Live(w, 2) || !Live(w, 3);
    var t := if s % 0x1_0000 == w.sb.blockStart then w.sb.fsize else w.sb.blockStart;
    forall m, k | Live(w, m) && UsesSlot(InodeAt(w, m), k) ensures Slot(w.disk, InodeAt(w, m), k) != t {
      if m == ROOT_INUMBER {
        RootSlot(v, w, s, k);
      } else {
        NoSlots(n, w, IFDIR, k);
      }
    }
  }

  lemma RootSlot(v: Vol, w: Vol, s: int, k: int)
    requires ParentGrew(v, w, ROOT_INUMBER, s) && Size(InodeAt(v, ROOT_INUMBER)) == 0 && UsesSlot(InodeAt(w, ROOT_INUMBER), k)
    ensures Slot(w.disk, InodeAt(w, ROOT_INUMBER), k) == s % 0x1_0000
  {
    hide InodeAt;
    DirectSlot(w.disk, InodeAt(w, ROOT_INUMBER), k);
  }

  lemma NoSlots(n: int, w: Vol, mode: U16, k: int)
    requires Live(w, n) && InodeAt(w, n) == NewInode(mode)
    ensures !UsesSlot(InodeAt(w, n), k)
  {
    hide InodeAt;
  }

  /** A run on a disk with room for two sectors: make a directory, then add a file of less
      than a sector beside it. Both commands are sound and succeed, and in the end the path
      leads to exactly the bytes added. */
  lemma MkdirThenAdd(d: Disk, name: seq<Byte>, other: seq<Byte>, buf: seq<Byte>, junk: Junk, junk': Junk, junk'': Junk)
    returns (n: int, e: Disk, f: Disk)
    requires IsFormatted(d) && VolumeOf(d).sb.blockStart < VolumeOf(d).sb.fsize && |buf| < SECTOR_SIZE
    requires GoodName(name) && GoodName(other) && name != other && |name| <= DIRENT_MAXLEN && |other| <= DIRENT_MAXLEN
    ensures Succeeds(d, Mkdir(InRoot(name), junk), e) && Succeeds(e, Add(InRoot(other), buf, junk', junk''), f)
    ensures |f| > SUPERBLOCK_SECTOR && HoldsFile(VolumeOf(f), InRoot(other), n, buf)
  {
    hide InodeAt, IsFormatted, VolumeOk, OneDirectory, RunCommand, CommandDefined, Tidy, SmallFiles, MountCode, AllScanned, DirFind, InodeRoom, SectorRoom, HoldsFile, InRoot, Lookup, RelativeName, AbsoluteName, OnDisk;
    var m, s;
    m, s, e := FirstDirectory(d, name, junk);
    var v, w, c := VolumeOf(d), VolumeOf(e), Add(InRoot(other), buf, junk', junk'');
    RootIsEmpty(d, other);
    FormattedSize(d);
    RootTarget(w, other);
    RoomAfterDirectory(v, w, m, name, s, other);
    SmallTidyRoom(e);
    SixteenFits();
    CommandKeepsDiskIff(e, c);
    f := RunCommand(e, c).1;
    n := AddMakes(e, InRoot(other), buf, junk', junk'');
  }

  /** Command c on disk d is sound, succeeds, and leaves disk e. */
  ghost predicate Succeeds(d: Disk, c: Command, e: Disk) {
    DiskOk(d) && CommandSound(d, c) && CommandDefined(d, c) && RunCommand(d, c) == (ERR_NONE, e) && DiskOk(e)
  }

  lemma FormattedSize(d: Disk)
    requires IsFormatted(d)
    ensures |d| > SUPERBLOCK_SECTOR && VolumeOf(d).sb.isize >= 2
  {
  }

  // ---------------------------------------------------------------- there is such a disk

  lemma BlankInode(v: Vol, n: int)
    requires OnDisk(v, n) && forall k :: 0 <= k < SECTOR_SIZE ==> v.disk[SectorOfInode(v.sb, n)][k] == 0
    ensures InodeAt(v, n) == ZeroInode()
  {
    hide DecodeInode;
    var at := OffsetOfInode(n);
    ZerosDecode(v.disk[SectorOfInode(v.sb, n)][at..at + INODE_SIZE]);
  }

  lemma ZerosDecode(b: seq<Byte>)
    requires |b| == INODE_SIZE && forall k :: 0 <= k < INODE_SIZE ==> b[k] == 0
    ensures DecodeInode(b) == ZeroInode()
  {
    var ws := WordsOf(b[6..]);
    assert forall k :: 0 <= k < 13 ==> ws[k] == 0;
    assert ws[1..9] == ZeroInode().addr && ws[9..11] == [0, 0] && ws[11..13] == [0, 0];
  }

  lemma FormattedExists() returns (d: Disk)
    ensures IsFormatted(d) && VolumeOf(d).sb.blockStart < VolumeOf(d).sb.fsize
  {
    hide InodeAt, NewInode;
    var zero: Sector := seq(SECTOR_SIZE, _ => 0);
    var boot: Sector := [BOOTBLOCK_MAGIC_NUM] + zero[1..];
    var super: Sector := [3, 0, 20, 0, 1, 0, 2, 0, 7, 0, 10, 0, 4, 0, 5, 0] + zero[16..];
    var blank := VolumeOf([boot, super, zero, zero, zero, zero, zero, zero, zero, zero]);
    assert blank.sb == Superblock(3, 20, 1, 2, 7, 10, 4, 5);
    var v := PutInode(blank, ROOT_INUMBER, NewInode(IFDIR));
    d := v.disk;
    assert d[SUPERBLOCK_SECTOR] == super && d[BOOTBLOCK_SECTOR] == boot && VolumeOf(d) == v;
    forall n | 1 <= n < INODES_PER_SECTOR * v.sb.isize
      ensures OnDisk(v, n) && InodeAt(v, n) == if n == ROOT_INUMBER then NewInode(IFDIR) else ZeroInode()
    {
      BlankInode(blank, n);
      PutInodeIsUpdate(blank, ROOT_INUMBER, NewInode(IFDIR), n);
    }
  }
}
