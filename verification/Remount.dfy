/** What sound commands keep besides well-formedness: that the disk can be mounted again,
    and that files hold nothing in the address slots they do not use. */
module Remounting {
  import opened Unixv6fs
  import opened BmBlock
  import opened Inodes
  import opened Files
  import opened Volumes
  import opened Appends
  import opened Directories
  import opened Creation
  import opened Hierarchy
  import opened Growth
  import opened Mounting
  import opened Commands

  predicate Bootable(d: Disk) {
    |d| > BOOTBLOCK_SECTOR && d[BOOTBLOCK_SECTOR][0] == BOOTBLOCK_MAGIC_NUM
  }

  /** A well-formed disk mounts exactly when its boot sector says so and every live file's
      end is found. */
  lemma DiskMountsIff(d: Disk)
    requires DiskOk(d)
    ensures MountCode(d) == ERR_NONE <==>
      Bootable(d) && forall n :: Live(VolumeOf(d), n) ==> EndFound(d, InodeAt(VolumeOf(d), n))
  {
    hide InodeAt, VolumeOk, ScanCode, EndFound, Allocated;
    var v := VolumeOf(d);
    VolumeFacts(v);
    ScanOfFilesSucceedsIff(v);
    forall n | Live(v, n) ensures 1 <= n <= ScanLimit(v.sb) {
      LiveNumber(v, n);
    }
  }

  ghost predicate AllEndInside(v: Vol) {
    forall n :: Live(v, n) ==> EndsInside(InodeAt(v, n))
  }

  lemma EndInsideMounts(d: Disk)
    requires DiskOk(d) && Bootable(d) && AllEndInside(VolumeOf(d))
    ensures MountCode(d) == ERR_NONE
  {
    hide InodeAt, VolumeOk, EndFound, EndsInside, Allocated;
    var v := VolumeOf(d);
    VolumeFacts(v);
    DiskMountsIff(d);
    forall n | Live(v, n) ensures EndFound(d, InodeAt(v, n)) {
      LiveFilesReadable(v, n);
      EndsInsideFound(d, InodeAt(v, n));
    }
  }

  // ---------------------------------------------------------------- one command

  /** The new entry does not fill the last sector of a parent with indirect sectors. */
  predicate CommandSettles(d: Disk, c: Command)
    requires |d| > SUPERBLOCK_SECTOR
  {
    var v := VolumeOf(d);
    var parent := CreateTarget(v, c.entry).0;
    Attempts(v, c) && OnDisk(v, parent) ==>
      Size(InodeAt(v, parent)) < 4096 || (Size(InodeAt(v, parent)) + DIRENT_SIZE) % SECTOR_SIZE != 0
  }

  lemma LengthenedSize(i: Inode, j: Inode, len: nat, s: int)
    requires Lengthened(i, j, len, s)
    ensures Size(j) == Size(i) + len
  {
  }

  lemma NewInodeSize(mode: U16)
    ensures Size(NewInode(mode)) == 0
  {
  }

  /** The size of each live file after a command: as before, longer by an entry, or below
      4096 bytes for the new file. */
  lemma SizesAfter(v: Vol, w: Vol, parent: int, n: int, mode: U16, len: nat, s: int, m: int)
    requires OnlyTheseGrew(v, w, parent, n, mode, len, s) && Live(w, m)
    ensures
      || (Live(v, m) && Size(InodeAt(w, m)) == Size(InodeAt(v, m)))
      || (Live(v, m) && m == parent && Size(InodeAt(w, m)) == Size(InodeAt(v, m)) + DIRENT_SIZE)
      || Size(InodeAt(w, m)) < 4096
  {
    hide InodeAt, Size, NewInode, Resized, Grown, Allocated;
    NewInodeSize(mode);
    if m == parent && Live(v, m) && Lengthened(InodeAt(v, m), InodeAt(w, m), DIRENT_SIZE, s) {
      LengthenedSize(InodeAt(v, m), InodeAt(w, m), DIRENT_SIZE, s);
    } else if m == n && Lengthened(NewInode(mode), InodeAt(w, m), len, s) {
      LengthenedSize(NewInode(mode), InodeAt(w, m), len, s);
    }
  }

  /** A command that gets as far as taking an inode has a directory as parent, with room. */
  lemma ReachedParent(d: Disk, c: Command)
    requires DiskOk(d) && CommandInScope(d, c) && Attempts(VolumeOf(d), c)
    ensures var v, parent := VolumeOf(d), CreateTarget(VolumeOf(d), c.entry).0;
      && LiveDir(v, parent)
      && (Size(InodeAt(v, parent)) < 4096 ==> Size(InodeAt(v, parent)) + DIRENT_SIZE < 4096)
  {
    hide InodeAt, Lookup, RelativeName, AbsoluteName, Data, DirEntries, FirstMatch, Acyclic, FilesOk, Size, DistinctNames;
    var v := VolumeOf(d);
    RelativeIsGood(c.entry);
    MissingChild(v, CreateTarget(v, c.entry).0, RelativeName(c.entry));
  }

  lemma UnreachedIsUnchanged(d: Disk, c: Command)
    requires DiskOk(d) && CommandInScope(d, c) && !Attempts(VolumeOf(d), c)
    ensures CommandDefined(d, c) && RunCommand(d, c).1 == d
  {
    hide InodeAt, VolumeOk, Lookup, RelativeName, AbsoluteName, InodeBits, SectorBits, ScanCode;
    CommandKeepsDiskIff(d, c);
  }

  lemma BootKept(d: Disk, c: Command)
    requires DiskOk(d) && CommandSound(d, c)
    ensures CommandDefined(d, c) && DiskOk(RunCommand(d, c).1)
    ensures Bootable(d) ==> Bootable(RunCommand(d, c).1)
  {
    hide VolumeOk, RunCommand, CommandDefined, CommandSound;
    CommandKeepsDisk(d, c);
    ExtendsKeepsHead(VolumeOf(d), VolumeOf(RunCommand(d, c).1));
    GeometryOf(VolumeOf(d));
  }

  lemma GeometryOf(v: Vol)
    requires VolumeOk(v)
    ensures Geometry(v)
  {
  }

  /** From a disk on which every file ends inside a sector or is directly addressed, a sound
      command leaves such a disk exactly when it does not fill up an indirect parent. */
  lemma CommandKeepsEndsIff(d: Disk, c: Command)
    requires DiskOk(d) && Bootable(d) && AllEndInside(VolumeOf(d)) && CommandSound(d, c)
    ensures CommandDefined(d, c) && DiskOk(RunCommand(d, c).1) && Bootable(RunCommand(d, c).1)
    ensures AllEndInside(VolumeOf(RunCommand(d, c).1)) <==> CommandSettles(d, c)
  {
    hide InodeAt, VolumeOk, RunCommand, CommandDefined, Size, Lookup, RelativeName, EntryRoom, Allocated, OnlyTheseGrew, CommandKeeps, Lengthened, InTable, OnDisk, AllScanned;
    EndInsideMounts(d);
    BootKept(d, c);
    var v, e := VolumeOf(d), RunCommand(d, c).1;
    var w, parent := VolumeOf(e), CreateTarget(v, c.entry).0;
    if Attempts(v, c) {
      ReachedParent(d, c);
      var n, s, mode, len := CommandGrows(d, c);
      forall m | Live(w, m) && (m != parent || CommandSettles(d, c)) ensures EndsInside(InodeAt(w, m)) {
        SizesAfter(v, w, parent, n, mode, len, s, m);
      }
      if !CommandSettles(d, c) {
        FilledIsSpilled(v, c.entry, n, s);
        LengthenedSize(InodeAt(v, parent), InodeAt(w, parent), DIRENT_SIZE, s);
        assert !EndsInside(InodeAt(w, parent));
      }
    } else {
      UnreachedIsUnchanged(d, c);
    }
  }

  /** A parent with room in its last sector takes the entry. */
  lemma FilledIsSpilled(v: Vol, entry: seq<Byte>, n: int, s: int)
    requires Reaches(v, entry) && InTable(v.sb, n)
    requires var parent := CreateTarget(v, entry).0;
      OnDisk(v, parent) && Size(InodeAt(v, parent)) % SECTOR_SIZE != 0
    ensures CreateSucceeds(v, entry, n, s)
  {
    hide InodeAt, Lookup, RelativeName;
  }

  // ---------------------------------------------------------------- whole runs

  /** Every disk of the run mounts, the last one included. */
  ghost predicate EachMounts(d: Disk, cs: seq<Command>)
    requires DiskOk(d) && RunSound(d, cs)
    decreases |cs|
  {
    && MountCode(d) == ERR_NONE
    && (cs != [] ==> (CommandKeepsDisk(d, cs[0]); EachMounts(RunCommand(d, cs[0]).1, cs[1..])))
  }

  ghost predicate EachSettles(d: Disk, cs: seq<Command>)
    requires DiskOk(d) && RunSound(d, cs)
    decreases |cs|
  {
    cs != [] ==>
      CommandSettles(d, cs[0]) && (CommandKeepsDisk(d, cs[0]); EachSettles(RunCommand(d, cs[0]).1, cs[1..]))
  }

  /** So no command of such a run is turned away by its mount. */
  lemma {:induction false} RunMounts(d: Disk, cs: seq<Command>)
    requires DiskOk(d) && Bootable(d) && AllEndInside(VolumeOf(d)) && RunSound(d, cs) && EachSettles(d, cs)
    ensures EachMounts(d, cs) && MountCode(Run(d, cs)) == ERR_NONE
    decreases |cs|
  {
    hide DiskOk, Bootable, AllEndInside, RunCommand, CommandSound, CommandSettles, MountCode;
    EndInsideMounts(d);
    if cs != [] {
      CommandKeepsEndsIff(d, cs[0]);
      RunMounts(RunCommand(d, cs[0]).1, cs[1..]);
    }
  }

  ghost predicate SmallFiles(v: Vol) {
    forall n :: Live(v, n) ==> Size(InodeAt(v, n)) < 4096
  }

  lemma CommandKeepsSmall(d: Disk, c: Command)
    requires DiskOk(d) && Bootable(d) && SmallFiles(VolumeOf(d)) && CommandSound(d, c)
    ensures CommandDefined(d, c) && DiskOk(RunCommand(d, c).1) && Bootable(RunCommand(d, c).1)
    ensures SmallFiles(VolumeOf(RunCommand(d, c).1)) && AllEndInside(VolumeOf(d)) && CommandSettles(d, c)
  {
    hide InodeAt, VolumeOk, RunCommand, CommandDefined, Size, Lookup, RelativeName, EntryRoom, Allocated, OnlyTheseGrew, CommandKeeps, Lengthened, InTable, OnDisk, AllScanned;
    EndInsideMounts(d);
    BootKept(d, c);
    var v, w := VolumeOf(d), VolumeOf(RunCommand(d, c).1);
    if Attempts(v, c) {
      ReachedParent(d, c);
      var n, s, mode, len := CommandGrows(d, c);
      forall m | Live(w, m) ensures Size(InodeAt(w, m)) < 4096 {
        SizesAfter(v, w, CreateTarget(v, c.entry).0, n, mode, len, s, m);
      }
    } else {
      UnreachedIsUnchanged(d, c);
    }
  }

  /** A disk whose files are all directly addressed keeps mounting: in every sound run each
      command gets past its mount. */
  lemma {:induction false} SmallRunMounts(d: Disk, cs: seq<Command>)
    requires DiskOk(d) && Bootable(d) && SmallFiles(VolumeOf(d)) && RunSound(d, cs)
    ensures EachMounts(d, cs) && DiskOk(Run(d, cs)) && SmallFiles(VolumeOf(Run(d, cs)))
    decreases |cs|
  {
    hide VolumeOk, AllScanned, Bootable, RunCommand, CommandSound, CommandSettles, MountCode, SmallFiles, AllEndInside;
    SmallEndInside(VolumeOf(d));
    EndInsideMounts(d);
    if cs != [] {
      CommandKeepsSmall(d, cs[0]);
      SmallRunMounts(RunCommand(d, cs[0]).1, cs[1..]);
    }
  }

  lemma SmallEndInside(v: Vol)
    requires SmallFiles(v)
    ensures AllEndInside(v)
  {
    hide InodeAt, Size;
  }

  // ---------------------------------------------------------------- unused address slots

  /** The slots behind the last block of a directly addressed file are 0. */
  predicate TidyInode(i: Inode) {
    Size(i) < 4096 ==> forall k :: Blocks(i) <= k < ADDR_SMALL_LENGTH ==> i.addr[k] == 0
  }

  ghost predicate Tidy(v: Vol) {
    forall n :: Live(v, n) ==> TidyInode(InodeAt(v, n))
  }

  lemma LengthenedTidy(i: Inode, j: Inode, len: nat, s: int)
    requires TidyInode(i) && Lengthened(i, j, len, s)
    ensures TidyInode(j)
  {
  }

  lemma NewInodeTidy(mode: U16)
    ensures TidyInode(NewInode(mode))
  {
  }

  /** Sound commands leave tidy files tidy. */
  lemma CommandKeepsTidy(d: Disk, c: Command)
    requires DiskOk(d) && Tidy(VolumeOf(d)) && CommandSound(d, c)
    ensures CommandDefined(d, c) && DiskOk(RunCommand(d, c).1) && Tidy(VolumeOf(RunCommand(d, c).1))
  {
    hide InodeAt, VolumeOk, RunCommand, CommandDefined, CommandSound, MountCode, TidyInode, NewInode, Lengthened, Allocated, AllScanned;
    CommandKeepsDisk(d, c);
    if MountCode(d) == ERR_NONE && Attempts(VolumeOf(d), c) {
      var v, w := VolumeOf(d), VolumeOf(RunCommand(d, c).1);
      var n, s, mode, len := CommandGrows(d, c);
      var parent := CreateTarget(v, c.entry).0;
      NewInodeTidy(mode);
      forall m | Live(w, m) ensures TidyInode(InodeAt(w, m)) {
        if m == parent && Live(v, m) && Lengthened(InodeAt(v, m), InodeAt(w, m), DIRENT_SIZE, s) {
          LengthenedTidy(InodeAt(v, m), InodeAt(w, m), DIRENT_SIZE, s);
        } else if m == n && Lengthened(NewInode(mode), InodeAt(w, m), len, s) {
          LengthenedTidy(NewInode(mode), InodeAt(w, m), len, s);
        }
      }
    } else if MountCode(d) == ERR_NONE {
      CommandScope(d, c);
      UnreachedIsUnchanged(d, c);
    } else {
      RefusedMount(d, c);
    }
  }

  lemma RefusedMount(d: Disk, c: Command)
    requires MountCode(d) != ERR_NONE && CommandDefined(d, c)
    ensures RunCommand(d, c).1 == d
  {
  }

  lemma {:induction false} RunKeepsTidy(d: Disk, cs: seq<Command>)
    requires DiskOk(d) && Tidy(VolumeOf(d)) && RunSound(d, cs)
    ensures DiskOk(Run(d, cs)) && Tidy(VolumeOf(Run(d, cs)))
    decreases |cs|
  {
    hide DiskOk, RunCommand, CommandSound, Tidy;
    if cs != [] {
      CommandKeepsTidy(d, cs[0]);
      RunKeepsTidy(RunCommand(d, cs[0]).1, cs[1..]);
    }
  }

  /** On a tidy volume an append below 4096 bytes keeps the volume well formed exactly when
      less than a whole sector spills over: the slot after the last block is 0, which is the
      boot sector. */
  lemma TidyAppendIff(v: Vol, n: int, buf: seq<Byte>, free: int, junk: Junk)
    requires FilesOk(v) && Tidy(v) && Live(v, n) && Size(InodeAt(v, n)) + |buf| < 4096
    requires Spill(Size(InodeAt(v, n)), |buf|) > 0 ==> Unused(v, free)
    ensures FilesOk(WriteBytes(v, n, InodeAt(v, n), buf, free, junk).1) <==> Spill(Size(InodeAt(v, n)), |buf|) < SECTOR_SIZE
  {
    hide InodeAt, WriteBytes, Size, Placed, Disjoint;
    AppendKeepsVolumeIff(v, n, buf, free, junk);
    assert TidyInode(InodeAt(v, n));
  }

  // ---------------------------------------------------------------- what a mount marks

  lemma SmallTidyMarks(d: Disk, i: Inode, s: int)
    requires Allocated(i) && Size(i) < 4096 && TidyInode(i) && s in Marked(d, i) && s != 0
    ensures exists k :: UsesSlot(i, k) && Slot(d, i, k) == s
  {
    var stop := Stop(d, i, 0);
    assert forall x :: MarkedSlot(i, x) ==> x == 0;
    var k :| 0 <= k < SectorCount(i) && i.addr[k] == s;
    assert UsesSlot(i, k) && Slot(d, i, k) == s;
  }

  lemma {:induction false} ScannedAreUsed(v: Vol, m: nat, s: int)
    requires SmallFiles(v) && Tidy(v) && s in ScannedSectors(v, m) && s != 0
    ensures exists n, k :: Live(v, n) && UsesSlot(InodeAt(v, n), k) && Slot(v.disk, InodeAt(v, n), k) == s
  {
    hide InodeAt, UsesSlot, Slot, Marked, TidyInode, Size;
    if s in ScannedSectors(v, m - 1) {
      ScannedAreUsed(v, m - 1, s);
    } else {
      assert Live(v, m);
      SmallTidyMarks(v.disk, InodeAt(v, m), s);
    }
  }

  /** What a scan marks for one file: the sectors it uses, the block number just past its full
      blocks, and one address slot that may lie just past those in use. */
  lemma MarkedOnly(d: Disk, i: Inode, s: int)
    requires Allocated(i) && Readable(d, i) && s in Marked(d, i)
    ensures (exists k :: UsesSlot(i, k) && Slot(d, i, k) == s) || s == FindSector(d, i, Size(i) / 512)
      || ((Size(i) / 512 + 1) / 256 < 8 && s == i.addr[(Size(i) / 512 + 1) / 256])
  {
    hide FindSector, Size;
    var stop := Stop(d, i, 0);
    if k :| 0 <= k < stop && FindSector(d, i, k) == s {
      if k < Blocks(i) {
        assert UsesSlot(i, k) && Slot(d, i, k) == s;
      }
    } else {
      var x :| MarkedSlot(i, x) && i.addr[x] == s;
      if x != (Size(i) / 512 + 1) / 256 {
        HeadSlot(d, i, x);
      }
    }
  }

  lemma HeadSlot(d: Disk, i: Inode, x: int)
    requires Allocated(i) && MarkedSlot(i, x) && x != (Size(i) / 512 + 1) / 256
    ensures UsesSlot(i, -1 - x) && Slot(d, i, -1 - x) == i.addr[x]
  {
  }

  /** So a mount marks no other sector than those of live files, the inode table, and these
      two for each file. */
  lemma {:induction false} ScannedOnly(v: Vol, m: nat, s: int) returns (n: int)
    requires FilesOk(v) && s in ScannedSectors(v, m)
    ensures 1 <= n <= m && Live(v, n)
    ensures var i := InodeAt(v, n);
      || (exists k :: UsesSlot(i, k) && Slot(v.disk, i, k) == s)
      || s == FindSector(v.disk, i, Size(i) / 512)
      || ((Size(i) / 512 + 1) / 256 < 8 && s == i.addr[(Size(i) / 512 + 1) / 256])
  {
    hide InodeAt, UsesSlot, Slot, Marked, Size, FindSector, Placed, Disjoint;
    if s in ScannedSectors(v, m - 1) {
      n := ScannedOnly(v, m - 1, s);
    } else {
      n := m;
      LiveFilesReadable(v, n);
      MarkedOnly(v.disk, InodeAt(v, n), s);
    }
  }

  /** On a volume of directly addressed, tidy files the sector bitmap is exact: a mount marks
      a sector of the data area if and only if a live file uses it. */
  lemma MarksAreExact(v: Vol, s: int)
    requires FilesOk(v) && AllScanned(v) && SmallFiles(v) && Tidy(v) && ScanCode(v, ScanLimit(v.sb)) == ERR_NONE
    ensures s in SectorBits(v).marks <==> v.sb.blockStart <= s <= v.sb.fsize && !Unused(v, s)
  {
    hide InodeAt, UsesSlot, Slot, Placed, Disjoint, ScannedSectors, ScanCode, Tidy, SmallFiles, Live;
    MountIsSound(v);
    if s in SectorBits(v).marks {
      assert s !in TableSectors(v, v.sb.isize - 1);
      ScannedAreUsed(v, ScanLimit(v.sb), s);
    }
  }

  /** On a tidy disk of small files an unused sector of the data area is one the mount leaves. */
  lemma SmallTidyRoom(d: Disk)
    requires DiskOk(d) && MountCode(d) == ERR_NONE && SmallFiles(VolumeOf(d)) && Tidy(VolumeOf(d))
    ensures SectorRoom(VolumeOf(d)) <==> exists s :: Unused(VolumeOf(d), s)
  {
    hide InodeAt, ScanCode, SmallFiles, Tidy, Live, UsesSlot, Slot, Placed, Disjoint, DirOk, Acyclic, SectorBits;
    var v := VolumeOf(d);
    forall s ensures s in SectorBits(v).marks <==> v.sb.blockStart <= s <= v.sb.fsize && !Unused(v, s) {
      MarksAreExact(v, s);
    }
    if s :| Unused(v, s) {
      assert s !in SectorBits(v).marks;
    }
  }

  // ---------------------------------------------------------------- which bytes a command writes

  /** `filev6_writebytes` writes the inode's table sector, the sector that was found, and the
      last sector from the end of the file on. */
  lemma WriteBytesFrame(v: Vol, n: int, i: Inode, buf: seq<Byte>, free: int, junk: Junk, t: nat, b: nat)
    requires WriteDefined(Size(i), |buf|, free) && OnDisk(v, n) && t < |v.disk| && b < SECTOR_SIZE
    requires t != SectorOfInode(v.sb, n) && t != free
    requires Size(i) % SECTOR_SIZE != 0 && t == FindSector(v.disk, i, Size(i) / SECTOR_SIZE) ==> b < Size(i) % SECTOR_SIZE
    ensures var w := WriteBytes(v, n, i, buf, free, junk).1;
      w.sb == v.sb && |v.disk| <= |w.disk| && w.disk[t][b] == v.disk[t][b]
  {
    hide FindSector, Size, EncodeInode, WriteSector;
    var m := Fitting(Size(i), |buf|);
    if SectorCount(i) <= MEDIUM_FILE_SECTORS {
      if Size(i) % SECTOR_SIZE != 0 {
        var (_, v1, i1) := WriteResidual(v, n, i, buf[..m]);
        ChunksFrame(v1, n, i1, buf[m..], Size(i) + m, free, junk, t);
      } else {
        ChunksFrame(v, n, i, buf, Size(i), free, junk, t);
      }
    }
  }

  lemma {:induction false} ChunksFrame(v: Vol, n: int, i: Inode, rest: seq<Byte>, fileSize: nat, free: int, junk: Junk, t: nat)
    requires rest == [] || free < 0 || fileSize + |rest| < 4096
    requires OnDisk(v, n) && t < |v.disk| && t != SectorOfInode(v.sb, n) && t != free
    ensures var w := WriteChunks(v, n, i, rest, fileSize, free, junk).1;
      w.sb == v.sb && |v.disk| <= |w.disk| && w.disk[t] == v.disk[t]
    decreases |rest|
  {
    hide Size, EncodeInode, WriteSector;
    if rest != [] {
      var m := if |rest| > SECTOR_SIZE then SECTOR_SIZE else |rest|;
      OneWriteFrame(v, n, i, rest[..m], fileSize, free, junk, t);
      var (c, v1, i1) := WriteSector(v, n, i, rest[..m], fileSize, free, junk);
      if c >= 0 {
        ChunksFrame(v1, n, i1, rest[m..], fileSize + m, free, junk, t);
      }
    }
  }

  lemma OneWriteFrame(v: Vol, n: int, i: Inode, chunk: seq<Byte>, fileSize: nat, free: int, junk: Junk, t: nat)
    requires |chunk| <= SECTOR_SIZE && (free >= 0 ==> fileSize + |chunk| < 4096)
    requires OnDisk(v, n) && t < |v.disk| && t != SectorOfInode(v.sb, n) && t != free
    ensures var w := WriteSector(v, n, i, chunk, fileSize, free, junk).1;
      w.sb == v.sb && |v.disk| <= |w.disk| && OnDisk(w, n) && w.disk[t] == v.disk[t]
  {
    hide EncodeInode;
    if free >= 0 {
      SizeRoundTrip(i, fileSize + |chunk|);
    }
  }

  /** Byte b of sector t is not where the entry in directory parent goes. */
  predicate BesideEntry(v: Vol, parent: int, t: int, b: int) {
    OnDisk(v, parent) ==>
      var i := InodeAt(v, parent);
      Size(i) % SECTOR_SIZE != 0 && t == FindSector(v.disk, i, Size(i) / SECTOR_SIZE) ==> b < Size(i) % SECTOR_SIZE
  }

  lemma CreateFrame(v: Vol, entry: seq<Byte>, mode: U16, n: int, s: int, junk: Junk, t: nat, b: nat)
    requires VolumeOk(v) && 0 !in entry && CreateDefined(v, entry, mode, n, s) && InodeAnswer(v, n)
    requires t < |v.disk| && b < SECTOR_SIZE && !InInodeTable(v.sb, t) && t != s && BesideEntry(v, CreateTarget(v, entry).0, t, b)
    ensures var w := Create(v, entry, mode, n, s, junk).1;
      w.sb == v.sb && |v.disk| <= |w.disk| && w.disk[t][b] == v.disk[t][b]
  {
    hide InodeAt, Lookup, RelativeName, AbsoluteName, Data, DirEntries, FirstMatch, Acyclic, Placed, Disjoint, Size, DistinctNames, WriteBytes, EncodeDirent, NewInode, WriteDefined, LookupDefined, Allocated, FindSector, OnlyFile;
    if Reaches(v, entry) && n >= 0 && InTable(v.sb, n) {
      var parent := CreateTarget(v, entry).0;
      RelativeIsGood(entry);
      MissingChild(v, parent, RelativeName(entry));
      NumberFits(v, n);
      var v1 := FreshInodeWritten(v, n, mode);
      OthersKept(v, v1, n, parent);
      FreshFrame(v, n, mode, t);
      LastBlockFound(v, v1, n, parent);
      WriteBytesFrame(v1, parent, InodeAt(v1, parent), EncodeDirent(Dirent(n, RelativeName(entry))), s, junk, t, b);
    } else if Reaches(v, entry) && n >= 0 {
      TooBigNumber(v, n);
    }
  }

  lemma FreshFrame(v: Vol, n: int, mode: U16, t: nat)
    requires OnDisk(v, n) && t < |v.disk| && !InInodeTable(v.sb, t)
    ensures WriteInode(v, n, NewInode(mode)).1.disk[t] == v.disk[t]
  {
    hide EncodeInode;
  }

  lemma TooBigNumber(v: Vol, n: int)
    requires 0 <= n < 0x1_0000 && !InTable(v.sb, n)
    ensures forall i :: WriteInode(v, AsInr(n), i) == (ERR_INODE_OUT_OF_RANGE, v)
  {
    hide EncodeInode;
  }

  /** The last block of a file is where it was after another inode was written. */
  lemma LastBlockFound(v: Vol, v1: Vol, n: int, m: int)
    requires OnlyFile(v, v1, n) && m != n && Live(v, m)
    ensures Size(InodeAt(v, m)) % SECTOR_SIZE != 0 ==>
      FindSector(v1.disk, InodeAt(v, m), Size(InodeAt(v, m)) / SECTOR_SIZE) == FindSector(v.disk, InodeAt(v, m), Size(InodeAt(v, m)) / SECTOR_SIZE)
  {
    hide InodeAt, Size, FindSector;
    if Size(InodeAt(v, m)) % SECTOR_SIZE != 0 {
      LastBlockUsed(InodeAt(v, m));
      SameBlock(v.disk, v1.disk, InodeAt(v, m), Size(InodeAt(v, m)) / SECTOR_SIZE);
    }
  }

  /** A sound command writes the inode table, the one sector that the search found, and the
      parent's last sector behind its end; every other byte of the disk stays. */
  lemma CommandFrame(d: Disk, c: Command, t: nat, b: nat)
    requires DiskOk(d) && CommandSound(d, c) && MountCode(d) == ERR_NONE && t < |d| && b < SECTOR_SIZE
    requires var v := VolumeOf(d);
      && !InInodeTable(v.sb, t) && SectorBits(v).Ok() && t != NextFree(SectorBits(v))
      && BesideEntry(v, CreateTarget(v, c.entry).0, t, b)
    ensures CommandDefined(d, c)
    ensures var e := RunCommand(d, c).1; |d| <= |e| && e[t][b] == d[t][b]
  {
    hide InodeAt, VolumeOk, Create, CreateDefined, Allocated, Lookup, Size, RelativeName, ScanCode, InodeBits, SectorBits, InodeRoom, SectorRoom, NewlyLive, AllScanned, Extends, OnlyTheseGrew, CommandKeeps, CommandSucceeds, Lengthened, InTable, InInodeTable, BesideEntry, EntryAdded, WriteBytes, NewInode, RoomInParent, FirstMatch, DirEntries;
    var v := VolumeOf(d);
    CommandKeepsDiskIff(d, c);
    VolumeFacts(v);
    MountedSearches(v);
    var n, s := NextFree(InodeBits(v)), NextFree(SectorBits(v));
    match c {
      case Mkdir(entry, junk) =>
        CreateFrame(v, entry, IFDIR, n, s, junk, t, b);
      case Add(entry, buf, junk, junk') =>
        if |buf| <= MAX_ADD_SIZE {
          CreateFrame(v, entry, OWNER_RIGHTS, n, s, junk, t, b);
          ScopeRoom(d, c);
          var ret, w := CreateResult(v, entry, OWNER_RIGHTS, n, s, junk);
          if ret >= 0 {
            NewFileInode(v, w, CreateTarget(v, entry).0, n, RelativeName(entry), OWNER_RIGHTS);
            NewInodeSize(OWNER_RIGHTS);
            TableSector(v.sb, n, t);
            WriteBytesFrame(w, n, NewInode(OWNER_RIGHTS), buf, s, junk', t, b);
          }
        }
    }
  }

  lemma TableSector(sb: Superblock, n: int, t: int)
    requires InTable(sb, n) && !InInodeTable(sb, t)
    ensures t != SectorOfInode(sb, n)
  {
  }

  // ---------------------------------------------------------------- mounting again after a command

  /** The number of the block behind the parent's last one, once the entry is written. */
  function EndBlock(v: Vol, parent: int): nat
    requires OnDisk(v, parent)
  {
    (Size(InodeAt(v, parent)) + DIRENT_SIZE) / SECTOR_SIZE
  }

  /** The entry looked up for that block lies in a sector of the disk that the command does
      not write. */
  ghost predicate EndEntryStays(v: Vol, parent: int) {
    && OnDisk(v, parent) && EndBlock(v, parent) < MEDIUM_FILE_SECTORS && SectorBits(v).Ok()
    && var t := InodeAt(v, parent).addr[EndBlock(v, parent) / ADDRESSES_PER_SECTOR];
      t < |v.disk| && !InInodeTable(v.sb, t) && t != NextFree(SectorBits(v))
  }

  ghost function EndEntry(v: Vol, parent: int): int
    requires EndEntryStays(v, parent)
  {
    var k := EndBlock(v, parent);
    Int16(Word(v.disk[InodeAt(v, parent).addr[k / ADDRESSES_PER_SECTOR]], k % ADDRESSES_PER_SECTOR * 2))
  }

  /** When the disk mounts after a sound command: exactly when the command fills up no
      indirect parent, or the entry behind the parent's new last block is no error code but
      the one for "out of range". */
  lemma CommandMountsIff(d: Disk, c: Command)
    requires DiskOk(d) && Bootable(d) && AllEndInside(VolumeOf(d)) && CommandSound(d, c)
    requires Attempts(VolumeOf(d), c) && !CommandSettles(d, c) ==> EndEntryStays(VolumeOf(d), CreateTarget(VolumeOf(d), c.entry).0)
    ensures CommandDefined(d, c) && DiskOk(RunCommand(d, c).1)
    ensures MountCode(RunCommand(d, c).1) == ERR_NONE <==>
      CommandSettles(d, c) || (var x := EndEntry(VolumeOf(d), CreateTarget(VolumeOf(d), c.entry).0); x >= 0 || x == ERR_OFFSET_OUT_OF_RANGE)
  {
    hide InodeAt, VolumeOk, RunCommand, CommandDefined, Size, Lookup, RelativeName, EntryRoom, Allocated, OnlyTheseGrew, CommandKeeps, Lengthened, InTable, OnDisk, AllScanned, EndFound, EndEntry, EndEntryStays, Extends, MountCode, ParentGrew;
    CommandKeepsEndsIff(d, c);
    var v, e := VolumeOf(d), RunCommand(d, c).1;
    var w, parent := VolumeOf(e), CreateTarget(v, c.entry).0;
    if CommandSettles(d, c) {
      EndInsideMounts(e);
    } else {
      EndInsideMounts(d);
      var n, s, mode, len := CommandGrows(d, c);
      ReachedParent(d, c);
      FilledIsSpilled(v, c.entry, n, s);
      DiskMountsIff(e);
      VolumeFacts(w);
      forall m | Live(w, m) && m != parent ensures EndFound(e, InodeAt(w, m)) {
        SizesAfter(v, w, parent, n, mode, len, s, m);
        LiveFilesReadable(w, m);
        EndsInsideFound(e, InodeAt(w, m));
      }
      FilledParentEnd(d, c, s);
      assert Live(w, parent);
    }
  }

  lemma FilledParentEnd(d: Disk, c: Command, s: int)
    requires DiskOk(d) && CommandSound(d, c) && MountCode(d) == ERR_NONE && !CommandSettles(d, c) && CommandDefined(d, c)
    requires DiskOk(RunCommand(d, c).1) && EndEntryStays(VolumeOf(d), CreateTarget(VolumeOf(d), c.entry).0)
    requires ParentGrew(VolumeOf(d), VolumeOf(RunCommand(d, c).1), CreateTarget(VolumeOf(d), c.entry).0, s)
    ensures var e := RunCommand(d, c).1;
      var parent := CreateTarget(VolumeOf(d), c.entry).0;
      && Live(VolumeOf(e), parent)
      && (EndFound(e, InodeAt(VolumeOf(e), parent)) <==>
           EndEntry(VolumeOf(d), parent) >= 0 || EndEntry(VolumeOf(d), parent) == ERR_OFFSET_OUT_OF_RANGE)
  {
    hide InodeAt, VolumeOk, RunCommand, CommandDefined, CommandSound, Lookup, RelativeName, MountCode, FindSector, AllScanned, OnDisk, InInodeTable, InodeBits, SectorBits;
    var v, e := VolumeOf(d), RunCommand(d, c).1;
    var parent := CreateTarget(v, c.entry).0;
    var i, j, k := InodeAt(v, parent), InodeAt(VolumeOf(e), parent), EndBlock(v, parent);
    var t, b := i.addr[k / ADDRESSES_PER_SECTOR], k % ADDRESSES_PER_SECTOR * 2;
    EndEntryBeside(v, parent);
    CommandFrame(d, c, t, b);
    CommandFrame(d, c, t, b + 1);
    FilledEnd(e, i, j);
    assert Word(e[t], b) == Word(d[t], b);
  }

  /** Where the end of a filled parent is looked up. */
  lemma FilledEnd(e: Disk, i: Inode, j: Inode)
    requires Allocated(i) && Size(i) >= 4096 && (Size(i) + DIRENT_SIZE) % SECTOR_SIZE == 0 && (Size(i) + DIRENT_SIZE) / SECTOR_SIZE < MEDIUM_FILE_SECTORS
    requires j == Resized(i, Size(i) + DIRENT_SIZE)
    requires i.addr[(Size(i) + DIRENT_SIZE) / SECTOR_SIZE / ADDRESSES_PER_SECTOR] < |e|
    ensures var k := (Size(i) + DIRENT_SIZE) / SECTOR_SIZE;
      FindSector(e, j, Size(j) / SECTOR_SIZE) == Int16(Word(e[i.addr[k / ADDRESSES_PER_SECTOR]], k % ADDRESSES_PER_SECTOR * 2))
  {
  }

  /** That entry is never one of the bytes of the new directory entry. */
  lemma EndEntryBeside(v: Vol, parent: int)
    requires VolumeOk(v) && Live(v, parent) && EndEntryStays(v, parent) && Size(InodeAt(v, parent)) >= 4096
    requires (Size(InodeAt(v, parent)) + DIRENT_SIZE) % SECTOR_SIZE == 0
    ensures var k := EndBlock(v, parent);
      var t, b := InodeAt(v, parent).addr[k / ADDRESSES_PER_SECTOR], k % ADDRESSES_PER_SECTOR * 2;
      BesideEntry(v, parent, t, b) && BesideEntry(v, parent, t, b + 1)
  {
    hide InodeAt, FindSector, DirOk, Acyclic, Allocated, SectorBits, InInodeTable;
    var i, k := InodeAt(v, parent), EndBlock(v, parent);
    LastBlockUsed(i);
    if k % ADDRESSES_PER_SECTOR != 0 {
      var x := -1 - k / ADDRESSES_PER_SECTOR;
      assert UsesSlot(i, x) && Slot(v.disk, i, x) == i.addr[k / ADDRESSES_PER_SECTOR];
      assert Slot(v.disk, i, k - 1) == FindSector(v.disk, i, k - 1);
    }
  }

  /** Unless the parent's indirect sector is full too, the entry is in a sector it uses. */
  lemma EndEntryStaysInside(d: Disk, c: Command)
    requires DiskOk(d) && MountCode(d) == ERR_NONE && CommandInScope(d, c) && Attempts(VolumeOf(d), c) && !CommandSettles(d, c)
    requires EndBlock(VolumeOf(d), CreateTarget(VolumeOf(d), c.entry).0) % ADDRESSES_PER_SECTOR != 0
    ensures EndEntryStays(VolumeOf(d), CreateTarget(VolumeOf(d), c.entry).0)
  {
    hide InodeAt, FindSector, DirOk, Acyclic, Allocated, Lookup, RelativeName, InodeBits, SectorBits, ScanCode, MountCode;
    var v := VolumeOf(d);
    var parent := CreateTarget(v, c.entry).0;
    ReachedParent(d, c);
    VolumeFacts(v);
    MountedScan(d);
    MountedSearches(v);
    var i, k := InodeAt(v, parent), EndBlock(v, parent);
    var x := -1 - k / ADDRESSES_PER_SECTOR;
    assert UsesSlot(i, x) && Slot(v.disk, i, x) == i.addr[k / ADDRESSES_PER_SECTOR];
    BlockInArea(v, parent, x);
  }

  lemma MountedScan(d: Disk)
    requires DiskOk(d) && MountCode(d) == ERR_NONE
    ensures ScanCode(VolumeOf(d), ScanLimit(VolumeOf(d).sb)) == ERR_NONE
  {
    hide VolumeOk, ScanCode;
  }

  lemma BlockInArea(v: Vol, n: int, k: int)
    requires FilesOk(v) && Live(v, n) && UsesSlot(InodeAt(v, n), k)
    ensures var t := Slot(v.disk, InodeAt(v, n), k); InDataArea(v, t) && !InInodeTable(v.sb, t) && forall s :: Unused(v, s) ==> t != s
  {
    hide InodeAt, Slot, UsesSlot;
  }
}
