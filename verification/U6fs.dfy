/** u6fs.c: the commands that change a disk, each run as mount, operation, umount, and what
    every sequence of them keeps. */
module Commands {
  import opened Unixv6fs
  import opened BmBlock
  import opened Inodes
  import opened Files
  import opened Volumes
  import opened Appends
  import opened Directories
  import opened Creation
  import opened Hierarchy
  import opened Growth
  import opened Mounting
  import opened Format

  const IFDIR: U16 := 0x4000
  const OWNER_RIGHTS: U16 := 448
  const MAX_ADD_SIZE := 4096

  /** A command line; `junk` is what uninitialised buffer tails will hold. */
  datatype Command =
    | Mkdir(entry: seq<Byte>, junk: Junk)
    | Add(entry: seq<Byte>, buf: seq<Byte>, junk: Junk, junk': Junk)

  /** The inputs for which the C code does not leave the `i_addr` array. */
  ghost predicate CommandDefined(d: Disk, c: Command) {
    MountCode(d) == ERR_NONE ==>
      var v := VolumeOf(d);
      match c
      case Mkdir(entry, _) => CreateDefined(v, entry, IFDIR, NextFree(InodeBits(v)), NextFree(SectorBits(v)))
      case Add(entry, buf, junk, _) => |buf| <= MAX_ADD_SIZE ==>
        AddDefined(v, entry, OWNER_RIGHTS, buf, NextFree(InodeBits(v)), NextFree(SectorBits(v)), junk)
  }

  /** `u6fs_do_one_cmd` for mkdir and add: the exit code and the disk left behind. */
  ghost function RunCommand(d: Disk, c: Command): (int, Disk)
    requires CommandDefined(d, c)
  {
    if MountCode(d) != ERR_NONE then (MountCode(d), d)
    else
      var v := VolumeOf(d);
      var n, s := NextFree(InodeBits(v)), NextFree(SectorBits(v));
      match c
      case Mkdir(entry, junk) =>
        var (r, w) := Create(v, entry, IFDIR, n, s, junk);
        (if r < 0 then r else ERR_NONE, w.disk)
      case Add(entry, buf, junk, junk') =>
        if |buf| > MAX_ADD_SIZE then (ERR_BAD_PARAMETER, d)
        else
          var (r, w) := AddFile(v, entry, OWNER_RIGHTS, buf, n, s, junk, junk');
          (r, w.disk)
  }

  ghost predicate DiskOk(d: Disk) {
    |d| > SUPERBLOCK_SECTOR && VolumeOk(VolumeOf(d)) && AllScanned(VolumeOf(d))
  }

  /** The command gets as far as taking an inode. */
  predicate Attempts(v: Vol, c: Command) {
    Reaches(v, c.entry) && (c.Add? ==> |c.buf| <= MAX_ADD_SIZE)
  }

  /** The commands considered: the path is a C string, the entry does not take its parent to
      a size limit, and neither entry nor bytes are written past the address slots. */
  ghost predicate CommandInScope(d: Disk, c: Command)
    requires DiskOk(d)
  {
    var v := VolumeOf(d);
    0 !in c.entry && (Attempts(v, c) ==>
      RoomInParent(v, c.entry, SectorRoom(v)) && (c.Add? && SectorRoom(v) ==> |c.buf| < MAX_ADD_SIZE))
  }

  /** What a caller can check before such a command, to know about the disk afterwards: if
      it will get as far as taking an inode, a mount sees a free inode number, and a file
      to add is one the code handles, or there is no sector for it anyway. */
  ghost predicate CommandKeeps(d: Disk, c: Command)
    requires DiskOk(d)
  {
    var v := VolumeOf(d);
    MountCode(d) == ERR_NONE && Attempts(v, c) ==>
      InodeRoom(v) && (c.Add? && SectorRoom(v) ==> AddHandled(v, c.entry, c.buf))
  }

  /** And to know whether it will succeed: besides, the entry and the bytes find their
      sectors. */
  ghost predicate CommandSucceeds(d: Disk, c: Command)
    requires DiskOk(d)
  {
    var v := VolumeOf(d);
    && MountCode(d) == ERR_NONE && Attempts(v, c)
    && EntryPlaced(v, c.entry, SectorRoom(v))
    && (c.Add? && c.buf != [] ==> SectorRoom(v))
  }

  ghost predicate CommandSound(d: Disk, c: Command)
    requires DiskOk(d)
  {
    CommandInScope(d, c) && CommandKeeps(d, c)
  }

  lemma CommandScope(d: Disk, c: Command)
    requires DiskOk(d) && CommandSound(d, c)
    ensures CommandInScope(d, c)
  {
  }

  lemma ScopeRoom(d: Disk, c: Command)
    requires DiskOk(d) && CommandSound(d, c) && (c.Add? ==> |c.buf| <= MAX_ADD_SIZE)
    ensures 0 !in c.entry && RoomInParent(VolumeOf(d), c.entry, SectorRoom(VolumeOf(d)))
  {
    hide VolumeOk, Lookup, EntryRoom, InodeAt;
  }

  /** When one command on a well-formed disk succeeds, and when it leaves the disk well
      formed, both in terms of the disk before. And then nothing is lost. */
  lemma CommandKeepsDiskIff(d: Disk, c: Command)
    requires DiskOk(d) && CommandInScope(d, c)
    ensures CommandDefined(d, c)
    ensures var (ret, e) := RunCommand(d, c);
      && (ret == ERR_NONE <==> CommandSucceeds(d, c))
      && (DiskOk(e) <==> CommandKeeps(d, c))
      && (DiskOk(e) ==> Extends(VolumeOf(d), VolumeOf(e)))
  {
    hide InodeAt, VolumeOk, Create, AddFile, CreateDefined, AddDefined, Allocated, Lookup, Size, RelativeName, EntryRoom, ScanCode, InodeBits, SectorBits, InodeRoom, SectorRoom, NewlyLive, AllScanned, Extends, OnlyTheseGrew, Reaches, InTable;
    var v := VolumeOf(d);
    VolumeFacts(v);
    ExtendsItself(v);
    if MountCode(d) == ERR_NONE {
      MountedSearches(v);
      var n, s := NextFree(InodeBits(v)), NextFree(SectorBits(v));
      match c {
        case Mkdir(entry, junk) =>
          var r, w := CreateResult(v, entry, IFDIR, n, s, junk);
          ExtendsKeepsHead(v, w);
          SameSuperblock(v, w);
          ScannedIff(v, w, n);
        case Add(entry, buf, junk, junk') =>
          if |buf| <= MAX_ADD_SIZE {
            var r, w := AddThenReadBack(v, entry, OWNER_RIGHTS, buf, n, s, junk, junk');
            if Reaches(v, entry) {
              AddSoundOrFails(v, entry, buf, n, s);
            }
            if VolumeOk(w) {
              SameSuperblock(v, w);
              ScannedIff(v, w, n);
            } else {
              HeadKeepsSuperblock(v, w);
            }
          }
      }
    }
  }

  /** With a free sector an add that gets as far as taking an inode succeeds; without one it
      succeeds only where the code handles it. */
  lemma AddSoundOrFails(v: Vol, entry: seq<Byte>, buf: seq<Byte>, n: int, s: int)
    requires VolumeOk(v) && 0 !in entry && Reaches(v, entry) && InTable(v.sb, n)
    ensures s >= 0 ==> AddSucceeds(v, entry, buf, n, s)
    ensures AddSucceeds(v, entry, buf, n, s) && s < 0 ==> AddHandled(v, entry, buf)
  {
    hide InodeAt, Lookup, RelativeName, AbsoluteName, Data, DirEntries, DirOk, FirstMatch;
    RelativeIsGood(entry);
    MissingChild(v, CreateTarget(v, entry).0, RelativeName(entry));
  }

  /** Which inodes grew in a sound command on a disk that mounts. */
  lemma CommandGrows(d: Disk, c: Command) returns (n: int, s: int, mode: U16, len: nat)
    requires DiskOk(d) && CommandSound(d, c) && MountCode(d) == ERR_NONE && Attempts(VolumeOf(d), c)
    ensures CommandDefined(d, c) && DiskOk(RunCommand(d, c).1)
    ensures var v, w := VolumeOf(d), VolumeOf(RunCommand(d, c).1);
      && OnlyTheseGrew(v, w, CreateTarget(v, c.entry).0, n, mode, len, s)
      && InTable(v.sb, n)
      && (CreateSucceeds(v, c.entry, n, s) ==> ParentGrew(v, w, CreateTarget(v, c.entry).0, s))
  {
    hide InodeAt, VolumeOk, Create, AddFile, CreateDefined, AddDefined, Allocated, Lookup, Size, RelativeName, EntryRoom, ScanCode, InodeBits, SectorBits, InodeRoom, SectorRoom, NewlyLive, AllScanned, Extends, OnlyTheseGrew, CreateSucceeds, AddSucceeds, InTable, CommandKeeps, CommandSucceeds, Lengthened;
    var v := VolumeOf(d);
    CommandKeepsDiskIff(d, c);
    VolumeFacts(v);
    MountedSearches(v);
    n, s := NextFree(InodeBits(v)), NextFree(SectorBits(v));
    match c {
      case Mkdir(entry, junk) =>
        mode, len := IFDIR, 0;
        var r, w := CreateResult(v, entry, IFDIR, n, s, junk);
        SameSuperblock(v, w);
      case Add(entry, buf, junk, junk') =>
        mode, len := OWNER_RIGHTS, |buf|;
        var r, w := AddThenReadBack(v, entry, OWNER_RIGHTS, buf, n, s, junk, junk');
        if !VolumeOk(w) {
          HeadKeepsSuperblock(v, w);
        } else {
          SameSuperblock(v, w);
        }
    }
  }

  /** After a change the mount still sees every live inode exactly when the new one is in
      the part of the table it scans. */
  lemma ScannedIff(v: Vol, w: Vol, n: int)
    requires AllScanned(v) && w.sb == v.sb && (w == v || NewlyLive(v, w, n))
    ensures NewlyLive(v, w, n) ==> (AllScanned(w) <==> n <= ScanLimit(v.sb))
    ensures w == v ==> AllScanned(w)
  {
    hide InodeAt, Allocated;
  }

  /** One sound command on a well-formed disk, whether it succeeds or fails, leaves it well
      formed and loses nothing. */
  lemma CommandKeepsDisk(d: Disk, c: Command)
    requires DiskOk(d) && CommandSound(d, c)
    ensures CommandDefined(d, c)
    ensures DiskOk(RunCommand(d, c).1)
    ensures Extends(VolumeOf(d), VolumeOf(RunCommand(d, c).1))
  {
    hide DiskOk, CommandDefined, CommandInScope, CommandKeeps, CommandSucceeds, RunCommand, Extends;
    CommandKeepsDiskIff(d, c);
  }

  lemma VolumeFacts(v: Vol)
    requires VolumeOk(v)
    ensures FilesOk(v)
  {
  }

  lemma HeadKeepsSuperblock(v: Vol, w: Vol)
    requires |v.disk| > SUPERBLOCK_SECTOR && v == VolumeOf(v.disk) && Geometry(v) && KeepsHead(v, w)
    ensures |w.disk| > SUPERBLOCK_SECTOR && w == VolumeOf(w.disk)
  {
    assert w.disk[SUPERBLOCK_SECTOR] == v.disk[SUPERBLOCK_SECTOR];
  }

  lemma SameSuperblock(v: Vol, w: Vol)
    requires |v.disk| > SUPERBLOCK_SECTOR && v == VolumeOf(v.disk) && Extends(v, w)
    ensures |w.disk| > SUPERBLOCK_SECTOR && w == VolumeOf(w.disk) && VolumeOk(w)
  {
    hide InodeAt, Data, DirOk, Acyclic, Placed, Disjoint;
    assert w.disk[SUPERBLOCK_SECTOR] == v.disk[SUPERBLOCK_SECTOR];
  }

  /** Every command of the sequence is sound where it is run. */
  ghost predicate RunSound(d: Disk, cs: seq<Command>)
    requires DiskOk(d)
    decreases |cs|
  {
    cs != [] ==>
      CommandSound(d, cs[0]) && (CommandKeepsDisk(d, cs[0]); RunSound(RunCommand(d, cs[0]).1, cs[1..]))
  }

  ghost function Run(d: Disk, cs: seq<Command>): Disk
    requires DiskOk(d) && RunSound(d, cs)
    decreases |cs|
  {
    if cs == [] then d
    else
      CommandKeepsDisk(d, cs[0]);
      Run(RunCommand(d, cs[0]).1, cs[1..])
  }

  /** Whole runs: any sequence of sound mkdir and add commands leaves a well-formed disk
      (sectors disjoint and in the data area, whole entries, distinct names, no cycle), with
      every earlier file still there and every earlier path leading where it led. */
  lemma {:induction false} RunKeepsDisk(d: Disk, cs: seq<Command>, path: seq<Byte>)
    requires DiskOk(d) && RunSound(d, cs)
    ensures DiskOk(Run(d, cs)) && Extends(VolumeOf(d), VolumeOf(Run(d, cs)))
    ensures Lookup(VolumeOf(d), ROOT_INUMBER, path) >= 0 ==>
      Lookup(VolumeOf(Run(d, cs)), ROOT_INUMBER, path) == Lookup(VolumeOf(d), ROOT_INUMBER, path)
    decreases |cs|
  {
    hide VolumeOk, Extends, RunCommand, CommandSound, Lookup;
    if cs == [] {
      ExtendsItself(VolumeOf(d));
    } else {
      CommandKeepsDisk(d, cs[0]);
      var e := RunCommand(d, cs[0]).1;
      RunKeepsDisk(e, cs[1..], path);
      ExtendsTwice(VolumeOf(d), VolumeOf(e), VolumeOf(Run(d, cs)));
    }
    if Lookup(VolumeOf(d), ROOT_INUMBER, path) >= 0 {
      LookupGrows(VolumeOf(d), VolumeOf(Run(d, cs)), path);
    }
  }

  /** A successful mkdir makes its path resolve, and it still resolves, to the same inode,
      at the end of any sound run that follows. */
  lemma MkdirLasts(d: Disk, entry: seq<Byte>, junk: Junk, cs: seq<Command>) returns (n: int, e: Disk)
    requires DiskOk(d) && CommandSound(d, Mkdir(entry, junk))
    ensures CommandDefined(d, Mkdir(entry, junk)) && e == RunCommand(d, Mkdir(entry, junk)).1 && DiskOk(e)
    ensures RunCommand(d, Mkdir(entry, junk)).0 == ERR_NONE && RunSound(e, cs) ==>
      && DiskOk(Run(e, cs))
      && n > 0 && Lookup(VolumeOf(d), ROOT_INUMBER, entry) == ERR_NO_SUCH_FILE
      && Lookup(VolumeOf(Run(e, cs)), ROOT_INUMBER, entry) == n && LiveDir(VolumeOf(Run(e, cs)), n)
  {
    hide InodeAt, VolumeOk, Create, CreateDefined, Allocated, Lookup, Size, RelativeName, EntryRoom, ScanCode, InodeBits, SectorBits, Run, RunSound, NewInode;
    var c := Mkdir(entry, junk);
    CommandKeepsDisk(d, c);
    n, e := 0, RunCommand(d, c).1;
    if RunCommand(d, c).0 == ERR_NONE && RunSound(e, cs) {
      var v := VolumeOf(d);
      n := MkdirMakes(d, entry, junk);
      RunKeepsDisk(e, cs, entry);
      assert Live(VolumeOf(e), n);
    }
  }

  /** A successful mkdir makes a new directory its path leads to. */
  lemma MkdirMakes(d: Disk, entry: seq<Byte>, junk: Junk) returns (n: int)
    requires DiskOk(d) && CommandSound(d, Mkdir(entry, junk))
    requires CommandDefined(d, Mkdir(entry, junk)) && RunCommand(d, Mkdir(entry, junk)).0 == ERR_NONE
    ensures n > 0 && Lookup(VolumeOf(d), ROOT_INUMBER, entry) == ERR_NO_SUCH_FILE
    ensures var e := RunCommand(d, Mkdir(entry, junk)).1;
      && DiskOk(e) && Lookup(VolumeOf(e), ROOT_INUMBER, entry) == n && LiveDir(VolumeOf(e), n)
      && InodeAt(VolumeOf(e), n) == InodeRecord(0xC000, 0, 0, 0, 0, 0, [0, 0, 0, 0, 0, 0, 0, 0], [0, 0], [0, 0])
  {
    hide InodeAt, DirOk, Acyclic, Create, CreateDefined, Allocated, Lookup, Size, RelativeName, EntryRoom, ScanCode, InodeBits, SectorBits, Placed, Disjoint, EntryAdded, AbsoluteName, FirstMatch, OnlyFile, OnDisk, RoomInParent, CommandSound, Reaches, InTable, SectorRoom, InodeRoom;
    var v := VolumeOf(d);
    ScopeRoom(d, Mkdir(entry, junk));
    CommandKeepsDisk(d, Mkdir(entry, junk));
    MountedSearches(v);
    n := NextFree(InodeBits(v));
    var s := NextFree(SectorBits(v));
    var r, w := CreateResult(v, entry, IFDIR, n, s, junk);
    CreateThenLookup(v, entry, IFDIR, n, s, junk, entry);
    NewInodeFields(IFDIR);
    SameSuperblock(v, w);
  }

  /** A successful, sound add makes its path lead to a new file with exactly the bytes
      added, and that is what reading it gives. */
  lemma AddMakes(d: Disk, entry: seq<Byte>, buf: seq<Byte>, junk: Junk, junk': Junk) returns (n: int)
    requires DiskOk(d) && CommandSound(d, Add(entry, buf, junk, junk'))
    requires CommandDefined(d, Add(entry, buf, junk, junk')) && RunCommand(d, Add(entry, buf, junk, junk')).0 == ERR_NONE
    ensures var e := RunCommand(d, Add(entry, buf, junk, junk')).1;
      && DiskOk(e) && n > 0 && AddedFile(VolumeOf(d), VolumeOf(e), entry, n, buf)
      && Live(VolumeOf(e), n) && NewRecord(InodeAt(VolumeOf(e), n), 0x81C0)
  {
    hide InodeAt, VolumeOk, AddFile, AddDefined, Allocated, Lookup, Size, RelativeName, EntryRoom, ScanCode, InodeBits, SectorBits, InodeRoom, SectorRoom, NewlyLive, AllScanned, Extends, OnlyTheseGrew, AddSucceeds, CommandKeeps, CommandSucceeds, ParentGrew, AddedFile, NewRecord, Lengthened, NewInode, InTable, Reaches, AddHandled, OnDisk;
    var c := Add(entry, buf, junk, junk');
    CommandKeepsDiskIff(d, c);
    var v := VolumeOf(d);
    VolumeFacts(v);
    MountedSearches(v);
    n := NextFree(InodeBits(v));
    var s := NextFree(SectorBits(v));
    var r, w := AddThenReadBack(v, entry, OWNER_RIGHTS, buf, n, s, junk, junk');
    if VolumeOk(w) {
      SameSuperblock(v, w);
      FilledRecord(OWNER_RIGHTS, InodeAt(w, n), |buf|, s);
    } else {
      HeadKeepsSuperblock(v, w);
    }
  }

  /** And it is still there, with the same bytes, at the end of any sound run that follows. */
  lemma AddLasts(d: Disk, entry: seq<Byte>, buf: seq<Byte>, junk: Junk, junk': Junk, cs: seq<Command>) returns (n: int, e: Disk)
    requires DiskOk(d) && CommandSound(d, Add(entry, buf, junk, junk'))
    requires CommandSucceeds(d, Add(entry, buf, junk, junk'))
    ensures CommandDefined(d, Add(entry, buf, junk, junk')) && e == RunCommand(d, Add(entry, buf, junk, junk')).1 && DiskOk(e)
    ensures RunSound(e, cs) ==> DiskOk(Run(e, cs)) && HoldsFile(VolumeOf(Run(e, cs)), entry, n, buf)
  {
    hide InodeAt, VolumeOk, Allocated, Lookup, AllScanned, CommandKeeps, CommandSucceeds, RunCommand, CommandDefined, CommandInScope, Run, RunSound, Data, OnDisk;
    var c := Add(entry, buf, junk, junk');
    CommandKeepsDiskIff(d, c);
    e := RunCommand(d, c).1;
    n := AddMakes(d, entry, buf, junk, junk');
    if RunSound(e, cs) {
      RunKeepsDisk(e, cs, entry);
      VolumeFacts(VolumeOf(Run(e, cs)));
    }
  }
}
