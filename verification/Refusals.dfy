/** Which answer the code gives when it refuses, in the numbers a caller sees. */
module Refusals {
  import opened Unixv6fs
  import opened BmBlock
  import opened Inodes
  import opened Files
  import opened Volumes
  import opened Appends
  import opened Directories
  import opened Creation
  import opened Hierarchy
  import opened Growth
  import opened Mounting
  import opened Commands
  import opened Limits
  import opened Format
  import opened Fuse

  // ---------------------------------------------------------------- inodes and directories

  /** The answers of `inode_read`. */
  lemma InodeAnswers(v: Vol, n: int)
    ensures n < 1 || n >= 16 * v.sb.isize ==> ReadInode(v, n).0 == -123
    ensures 1 <= n < 16 * v.sb.isize && v.sb.inodeStart + n / 16 >= |v.disk| ==> ReadInode(v, n).0 == -125
    ensures OnDisk(v, n) ==> ReadInode(v, n) == (if Live(v, n) then 0 else -120, InodeAt(v, n))
  {
    hide InodeAt;
  }

  /** Entry k is the first one of that name. */
  predicate FirstAt(es: seq<Dirent>, name: seq<Byte>, k: int) {
    0 <= k < |es| && es[k].name == name && forall j :: 0 <= j < k ==> es[j].name != name
  }

  /** The answers of a search in directory n of a well-formed volume: the number of the first
      entry of that name, or which of four things is wrong. */
  lemma SearchAnswers(v: Vol, n: int, name: seq<Byte>)
    requires FilesOk(v)
    ensures n < 1 || n >= 16 * v.sb.isize ==> DirFind(v, n, name) == -123
    ensures 1 <= n < 16 * v.sb.isize ==> OnDisk(v, n)
    ensures OnDisk(v, n) && !Live(v, n) ==> DirFind(v, n, name) == -120
    ensures Live(v, n) && !LiveDir(v, n) ==> DirFind(v, n, name) == -121
    ensures LiveDir(v, n) && (forall e :: e in DirEntries(v, n) ==> e.name != name) ==> DirFind(v, n, name) == -114
    ensures LiveDir(v, n) ==> forall k :: FirstAt(DirEntries(v, n), name, k) ==> DirFind(v, n, name) == DirEntries(v, n)[k].inr
  {
    hide InodeAt, Data, Entries, Size, Placed, Disjoint, FindSector, ReadFrom;
    if LiveDir(v, n) {
      DirFindInEntries(v, n, name);
      var es := DirEntries(v, n);
      var k := FirstIndex(es, name);
      assert k < |es| ==> es[k] in es;
      forall m | FirstAt(es, name, m) ensures DirFind(v, n, name) == es[m].inr {
        assert k == m;
      }
    }
  }

  /** Why a path does not resolve on a well-formed volume: up to some component it leads to a
      directory that lacks the next one (-114), or to a file (-121). */
  lemma {:induction false} PathRefusal(v: Vol, n: int, cs: seq<seq<Byte>>) returns (k: nat, m: int)
    requires VolumeOk(v) && Live(v, n) && Resolve(v, n, cs) < 0
    ensures k < |cs| && m == Resolve(v, n, cs[..k]) && Live(v, m)
    ensures if LiveDir(v, m) then Resolve(v, n, cs) == -114 && forall e :: e in DirEntries(v, m) ==> e.name != cs[k]
      else Resolve(v, n, cs) == -121
    decreases |cs|
  {
    hide InodeAt, Data, DirFind, FilesOk, Acyclic, Allocated, OnDisk, Entries, DistinctNames;
    VolumeIsFiles(v);
    if cs == [] {
      LiveNumber(v, n);
    } else {
      SearchAnswers(v, n, cs[0]);
      var r := DirFind(v, n, cs[0]);
      if r < 0 {
        k, m := 0, n;
        NothingTaken(v, n, cs);
        if LiveDir(v, n) {
          MissingName(v, n, cs[0]);
        }
      } else {
        FoundIsLive(v, n, cs[0]);
        k, m := PathRefusal(v, r, cs[1..]);
        assert cs[..k + 1][0] == cs[0] && cs[..k + 1][1..] == cs[1..][..k];
        k := k + 1;
      }
    }
  }

  lemma VolumeIsFiles(v: Vol)
    requires VolumeOk(v)
    ensures FilesOk(v)
  {
  }

  lemma NothingTaken(v: Vol, n: int, cs: seq<seq<Byte>>)
    ensures cs[..0] == [] && Resolve(v, n, cs[..0]) == n
  {
    ResolveNothing(v, n);
  }

  lemma MissingName(v: Vol, n: int, name: seq<Byte>)
    requires FilesOk(v) && LiveDir(v, n)
    ensures DirFind(v, n, name) < 0 <==> forall e :: e in DirEntries(v, n) ==> e.name != name
    ensures DirFind(v, n, name) < 0 <==> DirFind(v, n, name) == -114
  {
    hide InodeAt, FilesOk, DirFind, DirEntries;
    DirFindInEntries(v, n, name);
    var es := DirEntries(v, n);
    var k := FirstIndex(es, name);
    if k < |es| {
      assert es[k] in es;
    }
  }

  lemma FoundIsLive(v: Vol, n: int, name: seq<Byte>)
    requires VolumeOk(v) && DirFind(v, n, name) >= 0
    ensures LiveDir(v, n) && Live(v, DirFind(v, n, name))
  {
    hide InodeAt, FilesOk, DirFind, Data, Entries, Acyclic, DistinctNames;
    VolumeIsFiles(v);
    DirFindInEntries(v, n, name);
    assert DirOk(v, n);
    MatchIsEntry(DirEntries(v, n), name);
  }

  // ---------------------------------------------------------------- creation

  /** The last component of a path that does not end in a slash. */
  function LastName(entry: seq<Byte>): seq<Byte> {
    var cs := Components(entry);
    if cs == [] || EndsInSlash(entry) then [] else cs[|cs| - 1]
  }

  /** The components before it. */
  function ParentPath(entry: seq<Byte>): seq<seq<Byte>> {
    var cs := Components(entry);
    if LastName(entry) == [] then cs else cs[..|cs| - 1]
  }

  lemma Parts(entry: seq<Byte>)
    ensures RelativeName(entry) == LastName(entry) && Components(AbsoluteName(entry)) == ParentPath(entry)
    ensures TrailingSlashes(AbsoluteName(entry)) == 0
  {
    hide Components, RelativeName, AbsoluteName;
    var slashes := SplitDecomposes(entry);
    var a, rel := AbsoluteName(entry), RelativeName(entry);
    if rel != [] {
      SplitComponents(entry);
      assert Components(entry)[..|Components(entry)| - 1] == Components(a);
    } else {
      assert entry == a + slashes;
      SlashesBehind(a, slashes);
      if slashes == [] {
        NoComponents();
      } else {
        assert entry[|entry| - 1] == slashes[|slashes| - 1];
      }
    }
  }

  lemma SlashesBehind(a: seq<Byte>, slashes: seq<Byte>)
    requires AllSlash(slashes)
    ensures Components(a + slashes) == Components(a)
  {
    hide Tokens;
    if slashes == [] {
      assert a + slashes == a;
    } else {
      assert a + slashes == a + [SLASH] + slashes[1..];
      TokensJoin(a, slashes[1..], []);
      OnlySlashes(slashes[1..]);
      assert Components(a) + [] == Components(a);
    }
  }

  /** What creating `entry` answers, in terms of paths and entry lists: too long a name, the
      answer for the parent's path, a name that is there, a parent that is no directory, no
      inode number, a number past the table, no sector for the entry; or the new number. */
  ghost function CreateCode(v: Vol, entry: seq<Byte>, n: int, sector: bool): int
    requires FilesOk(v)
  {
    var name, parent := LastName(entry), Resolve(v, 1, ParentPath(entry));
    if |name| > 14 then -122
    else if parent < 0 then parent
    else if name == [] then -119
    else if !LiveDir(v, parent) then -121
    else if exists e :: e in DirEntries(v, parent) && e.name == name then -119
    else if n < 0 then -118
    else if n >= 16 * v.sb.isize then -123
    else if !sector && Size(InodeAt(v, parent)) % 512 == 0 then -118
    else n
  }

  lemma {:induction false} ResolvedIsLive(v: Vol, n: int, cs: seq<seq<Byte>>)
    requires VolumeOk(v) && Live(v, n) && Resolve(v, n, cs) >= 0
    ensures Live(v, Resolve(v, n, cs))
    decreases |cs|
  {
    hide VolumeOk, DirFind, InodeAt;
    if cs != [] {
      FoundIsLive(v, n, cs[0]);
      ResolvedIsLive(v, DirFind(v, n, cs[0]), cs[1..]);
    }
  }

  /** The two look-ups of a creation, in terms of components. */
  lemma TargetMeans(v: Vol, entry: seq<Byte>)
    requires VolumeOk(v) && 0 !in entry
    ensures RelativeName(entry) == LastName(entry)
    ensures var name, parent := LastName(entry), Resolve(v, 1, ParentPath(entry));
      && CreateTarget(v, entry) == (parent, if parent < 0 then parent else if name == [] then parent else DirFind(v, parent, name))
      && (parent >= 0 ==> Live(v, parent))
  {
    hide Lookup, Resolve, Components, RelativeName, AbsoluteName, TrailingSlashes, DirFind, LastName, ParentPath, InodeAt, FilesOk, Acyclic, DirOk;
    Parts(entry);
    RelativeIsGood(entry);
    LookupIsFold(v, ROOT_INUMBER, AbsoluteName(entry));
    var parent := Resolve(v, 1, ParentPath(entry));
    if parent >= 0 {
      ResolvedIsLive(v, 1, ParentPath(entry));
      LookupOfName(v, parent, LastName(entry));
    }
  }

  /** A creation gets as far as taking an inode exactly if the parent's path leads to a
      directory without an entry of that short name. */
  lemma ReachesMeans(v: Vol, entry: seq<Byte>)
    requires VolumeOk(v) && 0 !in entry
    ensures FilesOk(v)
    ensures var name, parent := LastName(entry), Resolve(v, 1, ParentPath(entry));
      Reaches(v, entry) <==>
        0 < |name| <= 14 && LiveDir(v, parent) && forall e :: e in DirEntries(v, parent) ==> e.name != name
  {
    hide Resolve, RelativeName, AbsoluteName, DirFind, LastName, ParentPath, InodeAt, FilesOk, Acyclic, DirOk, DirEntries, Lookup;
    VolumeIsFiles(v);
    TargetMeans(v, entry);
    var name, parent := LastName(entry), Resolve(v, 1, ParentPath(entry));
    if LiveDir(v, parent) {
      LiveNumber(v, parent);
      MissingName(v, parent, name);
    } else if parent >= 0 {
      SearchAnswers(v, parent, name);
    }
  }

  /** `direntv6_create` on a well-formed volume gives that answer, whenever it is defined. */
  lemma CreateAnswers(v: Vol, entry: seq<Byte>, mode: U16, n: int, s: int, junk: Junk)
    requires VolumeOk(v) && 0 !in entry && InodeAnswer(v, n) && SectorAnswer(v, s) && CreateDefined(v, entry, mode, n, s)
    ensures FilesOk(v) && Create(v, entry, mode, n, s, junk).0 == CreateCode(v, entry, n, s >= 0)
  {
    hide Resolve, RelativeName, AbsoluteName, DirFind, LastName, ParentPath, InodeAt, FilesOk, Acyclic, DirOk, DirEntries, Lookup, Size, CreateDirent, LookupDefined, EntryReachesLimit, EntryRoom, NewInode, WriteInode, AsInr, ParentWriteDefined, OnlyTheseGrew, Extends, LimitHarmless, FreshInode, EntryAdded;
    VolumeIsFiles(v);
    TargetMeans(v, entry);
    var name, parent := LastName(entry), Resolve(v, 1, ParentPath(entry));
    ReachesMeans(v, entry);
    if Reaches(v, entry) {
      ReachedIsDir(v, entry);
      if n < 0 {
        NoNumber(v, mode, name, parent, n, s, junk);
      } else if !InTable(v.sb, n) {
        NumberPastTable(v, mode, name, parent, n, s, junk);
      } else {
        ParentDefined(v, parent, n, s, mode);
        if EntryReachesLimit(Size(InodeAt(v, parent))) {
          var p, v1, w := CreateAtLimitIff(v, entry, mode, n, s, junk);
          LimitSize(v, parent);
        } else {
          var ret, w := CreateResult(v, entry, mode, n, s, junk);
        }
      }
    } else if parent >= 0 && name != [] && |name| <= 14 {
      SearchAnswers(v, parent, name);
      if LiveDir(v, parent) {
        MissingName(v, parent, name);
      }
    }
  }

  lemma LimitSize(v: Vol, n: int)
    requires FilesOk(v) && Live(v, n) && EntryReachesLimit(Size(InodeAt(v, n)))
    ensures Size(InodeAt(v, n)) % 512 != 0
  {
    hide InodeAt, Size, FilesOk, EntryReachesLimit;
    NotTooLarge(v, n);
    LimitSizes(Size(InodeAt(v, n)));
  }

  lemma NoNumber(v: Vol, mode: U16, rel: seq<Byte>, parent: int, n: int, s: int, junk: Junk)
    requires |rel| <= DIRENT_MAXLEN && n < 0
    ensures CreateDirent(v, mode, rel, parent, n, s, junk) == (n, v)
  {
  }

  lemma NumberPastTable(v: Vol, mode: U16, rel: seq<Byte>, parent: int, n: int, s: int, junk: Junk)
    requires |rel| <= DIRENT_MAXLEN && 0 <= n < 0x1_0000 && !InTable(v.sb, n)
    requires ParentWriteDefined(WriteInode(v, AsInr(n), NewInode(mode)).1, parent, s)
    ensures CreateDirent(v, mode, rel, parent, n, s, junk) == (-123, v)
    ensures n >= 1 ==> n >= 16 * v.sb.isize
  {
    hide InodeAt, NewInode, WriteBytes;
  }

  // ---------------------------------------------------------------- commands

  /** What mkdir and add answer: the mount's code, a file over 4096 bytes, the creation's
      refusal, no sector for the bytes, or 0. */
  ghost function CommandCode(d: Disk, c: Command): int
    requires DiskOk(d)
  {
    var v := VolumeOf(d);
    if MountCode(d) != 0 then MountCode(d)
    else if c.Add? && |c.buf| > 4096 then -115
    else
      var r := CreateCode(v, c.entry, 1, SectorRoom(v));
      if r < 0 then r else if c.Add? && c.buf != [] && !SectorRoom(v) then -118 else 0
  }

  /** Every command that is defined gives that answer. */
  lemma CommandAnswers(d: Disk, c: Command)
    requires DiskOk(d) && 0 !in c.entry && CommandDefined(d, c)
    ensures RunCommand(d, c).0 == CommandCode(d, c)
  {
    hide VolumeOk, InodeAt, Create, AddFile, CreateCode, CreateDefined, AddDefined, ScanCode, InodeBits, SectorBits, SectorRoom, InodeRoom, AllScanned, InTable, CommandInScope, CommandAtLimit;
    var v := VolumeOf(d);
    if MountCode(d) == 0 {
      VolumeFacts(v);
      MountedSearches(v);
      var n, s := NextFree(InodeBits(v)), NextFree(SectorBits(v));
      AnyNumber(v, c.entry, n, s >= 0);
      match c {
        case Mkdir(entry, junk) =>
          CreateAnswers(v, entry, IFDIR, n, s, junk);
        case Add(entry, buf, junk, junk') =>
          if |buf| <= 4096 {
            AddParts(v, entry, buf, n, s, junk);
            CreateAnswers(v, entry, OWNER_RIGHTS, n, s, junk);
            DefinedIsClassified(d, c);
            AddCode(d, entry, buf, n, s, junk, junk');
          }
      }
    }
  }

  lemma AddParts(v: Vol, entry: seq<Byte>, buf: seq<Byte>, n: int, s: int, junk: Junk)
    requires AddDefined(v, entry, OWNER_RIGHTS, buf, n, s, junk)
    ensures CreateDefined(v, entry, OWNER_RIGHTS, n, s)
  {
    hide CreateDefined, Create, ReadInode, WriteDefined;
  }

  /** Any number of the table is as good as another for the sign of the answer. */
  lemma AnyNumber(v: Vol, entry: seq<Byte>, n: int, sector: bool)
    requires FilesOk(v) && InTable(v.sb, n)
    ensures CreateCode(v, entry, n, sector) >= 0 <==> CreateCode(v, entry, 1, sector) >= 0
    ensures CreateCode(v, entry, n, sector) < 0 ==> CreateCode(v, entry, n, sector) == CreateCode(v, entry, 1, sector)
  {
    hide InodeAt, Resolve, LastName, ParentPath, DirEntries, FilesOk, Size;
  }

  lemma AddCode(d: Disk, entry: seq<Byte>, buf: seq<Byte>, n: int, s: int, junk: Junk, junk': Junk)
    requires DiskOk(d) && MountCode(d) == ERR_NONE && |buf| <= 4096
    requires CommandInScope(d, Add(entry, buf, junk, junk')) || CommandAtLimit(d, Add(entry, buf, junk, junk'))
    requires InodeBits(VolumeOf(d)).Ok() && n == NextFree(InodeBits(VolumeOf(d)))
    requires SectorBits(VolumeOf(d)).Ok() && s == NextFree(SectorBits(VolumeOf(d)))
    ensures AddDefined(VolumeOf(d), entry, OWNER_RIGHTS, buf, n, s, junk)
    ensures var c := Create(VolumeOf(d), entry, OWNER_RIGHTS, n, s, junk).0;
      AddFile(VolumeOf(d), entry, OWNER_RIGHTS, buf, n, s, junk, junk').0 == if c < 0 then c else if buf == [] || s >= 0 then 0 else -118
  {
    hide VolumeOk, InodeAt, Create, AddFile, CreateDefined, AddDefined, ScanCode, InodeBits, SectorBits, SectorRoom, InodeRoom, AllScanned, InTable, Lookup, RelativeName, EntryRoom, EntryReachesLimit, Size, LimitHarmless, FreshInode, OnlyTheseGrew, Extends, NewlyLive, AddSucceeds, Allocated, FirstWord, AddedFile, ParentGrew, Lengthened, NewInode, AddHandled, StartsWithBootSector;
    var v := VolumeOf(d);
    VolumeFacts(v);
    MountedSearches(v);
    if CommandInScope(d, Add(entry, buf, junk, junk')) {
      var ret, w := AddThenReadBack(v, entry, OWNER_RIGHTS, buf, n, s, junk, junk');
    } else {
      var p, ret, w := AddAtLimitIff(v, entry, OWNER_RIGHTS, buf, n, s, junk, junk');
      var p', v1, w1 := CreateAtLimitIff(v, entry, OWNER_RIGHTS, n, s, junk);
    }
  }

  // ---------------------------------------------------------------- mounting

  /** What `mountv6` answers, by the bytes of the image: no boot sector, the wrong magic
      number, no superblock, bounds the wrong way round, or what the scan answers. */
  lemma MountAnswers(d: Disk)
    ensures |d| == 0 ==> MountCode(d) == -125
    ensures |d| >= 1 && ImageByte(d, 0) != 7 ==> MountCode(d) == -124
    ensures |d| == 1 && ImageByte(d, 0) == 7 ==> MountCode(d) == -125
    ensures |d| >= 2 && ImageByte(d, 0) == 7 ==>
      var isize := LittleEndian(ImageByte(d, 512), ImageByte(d, 513));
      var fsize, blockStart := LittleEndian(ImageByte(d, 514), ImageByte(d, 515)), LittleEndian(ImageByte(d, 522), ImageByte(d, 523));
      MountCode(d) == if isize == 0 || fsize < blockStart then -126 else ScanCode(VolumeOf(d), 16 * (isize - 1))
  {
    hide ScanCode;
    if |d| >= 2 {
      SuperblockLayout(d);
    }
  }

  /** The code of a scan is that of the first visit that fails. */
  lemma {:induction false} FirstFailure(v: Vol, m: nat) returns (k: nat)
    requires ScanCode(v, m) != 0
    ensures 1 <= k <= m && ScanCode(v, m) == VisitCode(v, k) && forall j :: 1 <= j < k ==> VisitCode(v, j) == 0
  {
    hide VisitCode;
    if ScanCode(v, m - 1) != 0 {
      k := FirstFailure(v, m - 1);
    } else {
      k := m;
      NoFailure(v, m - 1);
    }
  }

  lemma {:induction false} NoFailure(v: Vol, m: nat)
    requires ScanCode(v, m) == 0
    ensures forall j :: 1 <= j <= m ==> VisitCode(v, j) == 0
  {
    hide VisitCode;
    if m > 0 {
      NoFailure(v, m - 1);
    }
  }

  predicate FirstRefused(d: Disk, i: Inode, b: nat) {
    FindSector(d, i, b) < 0 && forall j :: 0 <= j < b ==> FindSector(d, i, j) >= 0
  }

  /** A visit fails with -123 past the table (the 65536th number is 0 in 16 bits), -125 past
      the end of the disk, or with the answer for the first block number that is refused,
      unless that is -116. */
  lemma VisitAnswers(v: Vol, k: nat, b: nat)
    requires 1 <= k <= 65536
    ensures k == 65536 ==> VisitCode(v, k) == -123
    ensures k < 65536 && k < 16 * v.sb.isize && !OnDisk(v, k) ==> VisitCode(v, k) == -125
    ensures k < 65536 && OnDisk(v, k) && !Live(v, k) ==> VisitCode(v, k) == 0
    ensures k < 65536 && Live(v, k) && FirstRefused(v.disk, InodeAt(v, k), b) ==>
      var x := FindSector(v.disk, InodeAt(v, k), b); VisitCode(v, k) == if x == -116 then 0 else x
  {
    hide InodeAt, FindSector, Size;
    if k < 65536 && Live(v, k) {
      var i := InodeAt(v, k);
      var stop := Stop(v.disk, i, 0);
      if FirstRefused(v.disk, i, b) {
        assert stop >= b ==> stop == b || FindSector(v.disk, i, b) >= 0;
        assert stop < b ==> FindSector(v.disk, i, stop) >= 0;
      }
    }
  }

  // ---------------------------------------------------------------- reading

  /** What is wrong with block b: the refusal, or -125 past the end of the disk; 0 if nothing. */
  function BlockCode(d: Disk, i: Inode, b: nat): int {
    var k := FindSector(d, i, b);
    if k < 0 then k else if k >= |d| then -125 else 0
  }

  /** Block b is the first from block c on that cannot be read. */
  predicate FirstBad(d: Disk, i: Inode, c: nat, b: nat) {
    c <= b && 512 * b < Size(i) && BlockCode(d, i, b) < 0 && forall j :: c <= j < b ==> BlockCode(d, i, j) == 0
  }

  /** data is the bytes of the blocks from c on. */
  predicate FromBlocks(d: Disk, i: Inode, c: nat, data: seq<Byte>) {
    forall p :: 0 <= p < |data| ==> BlockOk(d, i, c + p / 512) && data[p] == d[FindSector(d, i, c + p / 512)][p % 512]
  }

  /** One good block that is not the last. */
  lemma GoodBlock(d: Disk, i: Inode, c: nat, b: nat)
    requires FirstBad(d, i, c, b) && c < b
    ensures AtBlock(i, 512 * c) && BlockOk(d, i, c) && FirstBad(d, i, c + 1, b)
    ensures ReadStep(d, i, 512 * c) == (512, d[FindSector(d, i, c)], 512 * (c + 1))
  {
    hide FindSector, Size;
    assert BlockCode(d, i, c) == 0 && 512 * c / 512 == c;
    assert d[FindSector(d, i, c)][..512] == d[FindSector(d, i, c)];
  }

  lemma BadBlock(d: Disk, i: Inode, b: nat)
    requires FirstBad(d, i, b, b)
    ensures AtBlock(i, 512 * b) && ReadStep(d, i, 512 * b) == (BlockCode(d, i, b), [], 512 * b)
  {
    hide FindSector, Size;
    assert 512 * b / 512 == b;
  }

  lemma BlockAndMore(d: Disk, i: Inode, c: nat, m: nat, rest: seq<Byte>)
    requires BlockOk(d, i, c) && m <= 512 && FromBlocks(d, i, c + 1, rest) && (m < 512 ==> rest == [])
    ensures FromBlocks(d, i, c, d[FindSector(d, i, c)][..m] + rest)
  {
    hide FindSector;
    var data := d[FindSector(d, i, c)][..m] + rest;
    forall p | 0 <= p < |data| ensures BlockOk(d, i, c + p / 512) && data[p] == d[FindSector(d, i, c + p / 512)][p % 512] {
      if p >= m {
        assert data[p] == rest[p - 512] && c + p / 512 == c + 1 + (p - 512) / 512 && p % 512 == (p - 512) % 512;
      }
    }
  }

  /** Reading stops at the first bad block, with all bytes before it and its answer. */
  lemma {:induction false} StreamStops(d: Disk, i: Inode, c: nat, b: nat)
    requires FirstBad(d, i, c, b)
    ensures AtBlock(i, 512 * c)
    ensures var s := ReadFrom(d, i, 512 * c);
      s.code == BlockCode(d, i, b) && |s.data| == 512 * (b - c) && FromBlocks(d, i, c, s.data)
    decreases b - c
  {
    hide FindSector, Size, BlockCode, FromBlocks, ReadStep;
    if c < b {
      GoodBlock(d, i, c, b);
      StreamStops(d, i, c + 1, b);
      BlockAndMore(d, i, c, 512, ReadFrom(d, i, 512 * (c + 1)).data);
      assert d[FindSector(d, i, c)][..512] == d[FindSector(d, i, c)];
    } else {
      BadBlock(d, i, b);
      NoBytes(d, i, c);
    }
  }

  lemma NoBytes(d: Disk, i: Inode, c: nat)
    ensures FromBlocks(d, i, c, [])
  {
  }

  /** A directory with a bad block: the entries before it are searched, then its answer. */
  lemma SearchStops(v: Vol, n: int, name: seq<Byte>, b: nat)
    requires Live(v, n) && IsDir(InodeAt(v, n)) && FirstBad(v.disk, InodeAt(v, n), 0, b)
    ensures var s := ReadFrom(v.disk, InodeAt(v, n), 0);
      && |s.data| == 512 * b && FromBlocks(v.disk, InodeAt(v, n), 0, s.data)
      && (forall k :: FirstAt(Entries(s.data), name, k) ==> DirFind(v, n, name) == Entries(s.data)[k].inr)
      && ((forall e :: e in Entries(s.data) ==> e.name != name) ==> DirFind(v, n, name) == BlockCode(v.disk, InodeAt(v, n), b))
  {
    hide InodeAt, FindSector, Size, FirstBad, BlockCode, FromBlocks, Entries, ReadFrom;
    StreamStops(v.disk, InodeAt(v, n), 0, b);
    BadIsNegative(v.disk, InodeAt(v, n), 0, b);
    var es := Entries(ReadFrom(v.disk, InodeAt(v, n), 0).data);
    var k := FirstIndex(es, name);
    assert k < |es| ==> es[k] in es;
    forall m | FirstAt(es, name, m) ensures DirFind(v, n, name) == es[m].inr {
      assert k == m;
    }
  }

  lemma BadIsNegative(d: Disk, i: Inode, c: nat, b: nat)
    requires FirstBad(d, i, c, b)
    ensures BlockCode(d, i, b) < 0
  {
  }

  /** The copy loop reads one block ahead: a bad block spoils the read if it is the first, or
      if the block before it was wanted. */
  lemma {:induction false} CopyStops(d: Disk, i: Inode, c: nat, b: nat, want: nat)
    requires FirstBad(d, i, c, b)
    ensures AtBlock(i, 512 * c)
    ensures var (code, data) := CopyFrom(d, i, 512 * c, want);
      && code == (if b == c || 512 * (b - 1 - c) < want then BlockCode(d, i, b) else 0)
      && |data| == (if want < 512 * (b - c) then want else 512 * (b - c)) && FromBlocks(d, i, c, data)
    decreases b - c
  {
    hide FindSector, Size, BlockCode, FromBlocks, ReadStep;
    NoBytes(d, i, c);
    if c < b {
      GoodBlock(d, i, c, b);
      if want > 0 {
        var m := if want < 512 then want else 512;
        CopyStops(d, i, c + 1, b, want - m);
        BlockAndMore(d, i, c, m, CopyFrom(d, i, 512 * (c + 1), want - m).1);
      }
    } else {
      BadBlock(d, i, b);
    }
  }

  /** `fs_read`, every answer that is not the copy's: the path's, the inode's, and the two of
      the seek; and otherwise the copy's code or the number of bytes copied. */
  lemma FsReadAnswers(v: Vol, path: seq<Byte>, size: nat, offset: int)
    ensures var r := Lookup(v, 1, path);
      if r < 0 then FsRead(v, path, size, offset) == (r, [])
      else if ReadInode(v, r).0 < 0 then FsRead(v, path, size, offset) == (ReadInode(v, r).0, [])
      else
        var i, at := ReadInode(v, r).1, AsInt32(offset);
        if at < 0 || at > Size(i) then FsRead(v, path, size, offset) == (-116, [])
        else if at != Size(i) && at % 512 != 0 then FsRead(v, path, size, offset) == (-115, [])
        else
          var (code, data) := CopyFrom(v.disk, i, at, size);
          FsRead(v, path, size, offset) == (if code < 0 then code else |data|, data)
  {
    hide Lookup, ReadInode, Size, AsInt32, CopyFrom;
    LookupFits(v, 1, path);
  }

  // ---------------------------------------------------------------- appending

  /** Files of 917504 bytes or more are not appended to. */
  lemma AppendTooLarge(v: Vol, n: int, i: Inode, buf: seq<Byte>, free: int, junk: Junk)
    requires Size(i) >= 917504
    ensures WriteDefined(Size(i), |buf|, free) && WriteBytes(v, n, i, buf, free, junk) == (-117, v, i)
  {
  }

  /** Bytes that fit into a last sector that cannot be read are lost without a word. */
  lemma AppendLost(v: Vol, n: int, i: Inode, buf: seq<Byte>, free: int, junk: Junk)
    requires Size(i) < 917504 && Size(i) % 512 != 0 && Size(i) % 512 + |buf| <= 512 && BlockCode(v.disk, i, Size(i) / 512) < 0
    ensures WriteDefined(Size(i), |buf|, free) && WriteBytes(v, n, i, buf, free, junk) == (0, v, i)
  {
    hide FindSector, Size;
    assert buf[|buf|..] == [];
  }
}
