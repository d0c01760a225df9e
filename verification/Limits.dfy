/** Creating an entry in a parent that this takes to a size limit: the call reports success,
    and whether the volume is still well formed depends on the bytes the parent starts with. */
module Limits {
  import opened Unixv6fs
  import opened BmBlock
  import opened Inodes
  import opened Files
  import opened Volumes
  import opened Appends
  import opened Directories
  import opened Creation
  import opened Hierarchy
  import opened Growth
  import opened Mounting
  import opened Commands

  // ---------------------------------------------------------------- the parent as read afterwards

  /** The sectors of the data area once chunk completed the last block of file n. */
  ghost function SectorAfter(v: Vol, n: int, chunk: seq<Byte>, t: int): Sector
    requires Live(v, n) && Size(InodeAt(v, n)) % SECTOR_SIZE + |chunk| <= SECTOR_SIZE && 0 <= t < |v.disk|
  {
    if t == InodeAt(v, n).addr[7] then Splice(v.disk[t], Size(InodeAt(v, n)) % SECTOR_SIZE, chunk) else v.disk[t]
  }

  /** What file n reads as after chunk took it to 4096 bytes, if its first words serve. */
  ghost function MisreadData(v: Vol, n: int, chunk: seq<Byte>): (data: seq<Byte>)
    requires FilesOk(v) && Live(v, n) && Size(InodeAt(v, n)) >= 2 * ADDR_SMALL_LENGTH && FirstWordsServe(v, n)
    requires Size(InodeAt(v, n)) % SECTOR_SIZE + |chunk| <= SECTOR_SIZE
    ensures |data| == 4096
  {
    seq(4096, p requires 0 <= p < 4096 => SectorAfter(v, n, chunk, FirstWord(v, n, p / SECTOR_SIZE))[p % SECTOR_SIZE])
  }

  lemma MisreadContent(v: Vol, w: Vol, n: int, chunk: seq<Byte>)
    requires FilesOk(v) && Live(v, n) && 3584 < Size(InodeAt(v, n)) && Size(InodeAt(v, n)) + |chunk| == 4096 && FirstWordsServe(v, n)
    requires FilesOk(w) && Live(w, n) && Size(InodeAt(w, n)) == 4096 && |w.disk| == |v.disk|
    requires forall k :: 0 <= k < ADDR_SMALL_LENGTH ==> FindSector(w.disk, InodeAt(w, n), k) == FirstWord(v, n, k)
    requires forall t :: v.sb.blockStart <= t < |w.disk| ==> w.disk[t] == SectorAfter(v, n, chunk, t)
    ensures Data(w, n) == MisreadData(v, n, chunk)
  {
    hide InodeAt, FindSector, Size, FirstWord, SectorAfter, Placed, Disjoint;
    LiveFilesReadable(w, n);
    forall p | 0 <= p < 4096 ensures Data(w, n)[p] == MisreadData(v, n, chunk)[p] {
      assert BlockOk(w.disk, InodeAt(w, n), p / SECTOR_SIZE);
      assert InDataArea(v, FirstWord(v, n, p / SECTOR_SIZE));
    }
  }

  // ---------------------------------------------------------------- the hierarchy afterwards

  /** A rank for the hierarchy in which directory parent has the entries es, and n is new. */
  ghost predicate RankedWith(v: Vol, parent: int, n: int, mode: U16, es: seq<Dirent>, rank: seq<nat>)
    requires FilesOk(v) && LiveDir(v, parent) && InTable(v.sb, n)
  {
    && |rank| == INODES_PER_SECTOR * v.sb.isize
    && (forall m, e :: LiveDir(v, m) && m != parent && e in DirEntries(v, m) && LiveDir(v, e.inr) ==> rank[e.inr] < rank[m])
    && (forall e :: e in es && (LiveDir(v, e.inr) || (e.inr == n && IsDirMode(mode))) ==> rank[e.inr] < rank[parent])
  }

  /** Directory parent may have the entries es: distinct usable names that lead to live
      inodes or to n, and no cycle. */
  ghost predicate EntriesServe(v: Vol, parent: int, n: int, mode: U16, es: seq<Dirent>)
    requires FilesOk(v) && LiveDir(v, parent) && InTable(v.sb, n)
  {
    && DistinctNames(es)
    && (forall e :: e in es ==> GoodName(e.name) && (Live(v, e.inr) || e.inr == n))
    && exists rank :: RankedWith(v, parent, n, mode, es, rank)
  }

  /** What a caller can check before adding an entry that takes the parent to a limit. */
  ghost predicate LimitHarmless(v: Vol, parent: int, n: int, mode: U16, rel: seq<Byte>)
    requires FilesOk(v) && LiveDir(v, parent) && InTable(v.sb, n) && |rel| <= DIRENT_MAXLEN && n < 0x1_0000
  {
    && Size(InodeAt(v, parent)) == 4096 - DIRENT_SIZE && FirstWordsServe(v, parent)
    && EntriesServe(v, parent, n, mode, Entries(MisreadData(v, parent, EncodeDirent(Dirent(n, rel)))))
  }

  /** File n is of the kind the mode says, and a directory has no entries. */
  ghost predicate NewOfKind(w: Vol, n: int, mode: U16) {
    FilesOk(w) && Live(w, n) && (IsDir(InodeAt(w, n)) <==> IsDirMode(mode)) && (IsDirMode(mode) ==> Size(InodeAt(w, n)) == 0)
  }

  /** The state after the parent was replaced by a directory with the entries es, and inode
      n became live. */
  ghost predicate ParentReplaced(v: Vol, w: Vol, parent: int, n: int, mode: U16, es: seq<Dirent>) {
    && FilesOk(v) && FilesOk(w) && w.sb == v.sb && LiveDir(v, parent) && LiveDir(w, parent) && !Live(v, n) && InTable(v.sb, n)
    && (forall m :: Live(w, m) <==> Live(v, m) || m == n)
    && (forall m :: Live(v, m) && m != parent ==> InodeAt(w, m) == InodeAt(v, m) && Data(w, m) == Data(v, m))
    && NewOfKind(w, n, mode)
    && Size(InodeAt(w, parent)) % DIRENT_SIZE == 0 && DirEntries(w, parent) == es
  }

  lemma ReplacedIsOkIff(v: Vol, w: Vol, parent: int, n: int, mode: U16, es: seq<Dirent>)
    requires VolumeOk(v) && ParentReplaced(v, w, parent, n, mode, es)
    ensures VolumeOk(w) <==> EntriesServe(v, parent, n, mode, es)
  {
    hide InodeAt, FilesOk, Data, Entries, Size, Allocated, OnDisk;
    if IsDirMode(mode) {
      EmptyIsWhole(w, n, mode);
    }
    forall m ensures LiveDir(w, m) <==> LiveDir(v, m) || (m == n && IsDirMode(mode))
      ensures LiveDir(v, m) && m != parent ==> DirEntries(w, m) == DirEntries(v, m)
    {
    }
    if VolumeOk(w) {
      assert DirOk(w, parent);
      var rank :| Ranked(w, rank);
      assert RankedWith(v, parent, n, mode, es, rank);
    }
    if EntriesServe(v, parent, n, mode, es) {
      forall m | LiveDir(w, m) ensures DirOk(w, m) {
        if m != n && m != parent {
          assert DirOk(v, m);
        }
      }
      var rank :| RankedWith(v, parent, n, mode, es, rank);
      forall m | Live(w, m) ensures 0 <= m < |rank| {
        LiveNumber(w, m);
      }
      forall m, e | LiveDir(w, m) && e in DirEntries(w, m) && LiveDir(w, e.inr) ensures rank[e.inr] < rank[m] {
        if m != parent {
          assert DirOk(v, m) && Live(v, e.inr);
        }
      }
      assert Ranked(w, rank);
    }
  }

  lemma NewInodeKind(mode: U16)
    ensures IsDir(NewInode(mode)) <==> IsDirMode(mode)
    ensures Size(NewInode(mode)) == 0
  {
  }

  lemma EmptyIsWhole(w: Vol, n: int, mode: U16)
    requires NewOfKind(w, n, mode) && IsDirMode(mode)
    ensures DirOk(w, n) && DirEntries(w, n) == []
  {
    hide InodeAt, FilesOk;
    LiveFilesReadable(w, n);
    assert |Data(w, n)| == 0;
  }

  // ---------------------------------------------------------------- creation

  /** An empty inode more does not change what the parent would read as. */
  lemma WordsUnmoved(v: Vol, v1: Vol, parent: int, n: int, chunk: seq<Byte>)
    requires FilesOk(v) && FilesOk(v1) && OnlyFile(v, v1, n) && |v1.disk| == |v.disk| && !Live(v, n)
    requires forall t :: v.sb.blockStart <= t < |v.disk| ==> v1.disk[t] == v.disk[t]
    requires Live(v1, n) && Size(InodeAt(v1, n)) == 0 && Live(v, parent)
    ensures Live(v1, parent) && InodeAt(v1, parent) == InodeAt(v, parent) && Data(v1, parent) == Data(v, parent)
    ensures Size(InodeAt(v, parent)) >= 2 * ADDR_SMALL_LENGTH ==> (FirstWordsServe(v1, parent) <==> FirstWordsServe(v, parent))
    ensures Size(InodeAt(v, parent)) >= 2 * ADDR_SMALL_LENGTH && FirstWordsServe(v, parent) && Size(InodeAt(v, parent)) % SECTOR_SIZE + |chunk| <= SECTOR_SIZE ==>
      MisreadData(v1, parent, chunk) == MisreadData(v, parent, chunk)
  {
    hide InodeAt, FindSector, Slot, Size, Data, OnlyFile, UsesSlot, Allocated, Placed, Disjoint;
    OthersKept(v, v1, n, parent);
    OnlyFileKeepsSuperblock(v, v1, n);
    forall m, j ensures
      Live(v1, m) && UsesSlot(InodeAt(v1, m), j) <==> Live(v, m) && UsesSlot(InodeAt(v, m), j)
      ensures Live(v, m) && UsesSlot(InodeAt(v, m), j) ==> Slot(v1.disk, InodeAt(v1, m), j) == Slot(v.disk, InodeAt(v, m), j)
    {
      if m == n {
        EmptyUsesNothing(InodeAt(v1, n), j);
      } else {
        OthersKept(v, v1, n, m);
        SlotUnmoved(v, v1, n, m, j);
      }
    }
    if Size(InodeAt(v, parent)) >= 2 * ADDR_SMALL_LENGTH {
      assert forall k :: 0 <= k < ADDR_SMALL_LENGTH ==> FirstWord(v1, parent, k) == FirstWord(v, parent, k);
      if FirstWordsServe(v, parent) {
        assert FirstWordsServe(v1, parent);
      }
      if FirstWordsServe(v1, parent) {
        assert FirstWordsServe(v, parent);
      }
    }
  }

  lemma EmptyUsesNothing(i: Inode, k: int)
    requires Size(i) == 0
    ensures !UsesSlot(i, k)
  {
  }

  lemma SlotUnmoved(v: Vol, w: Vol, n: int, m: int, k: int)
    requires OnlyFile(v, w, n) && m != n
    ensures Live(v, m) && UsesSlot(InodeAt(v, m), k) ==> Slot(w.disk, InodeAt(v, m), k) == Slot(v.disk, InodeAt(v, m), k)
  {
    hide InodeAt, Slot, UsesSlot;
    if Live(v, m) && UsesSlot(InodeAt(v, m), k) {
      SameSlot(v.disk, w.disk, InodeAt(v, m), k);
    }
  }

  /** An entry that would take its directory to a limit. */
  predicate EntryReachesLimit(size: nat) {
    size % DIRENT_SIZE == 0 && !FittingStays(size, DIRENT_SIZE)
  }

  lemma LimitSizes(size: nat)
    requires EntryReachesLimit(size) && size / SECTOR_SIZE < MEDIUM_FILE_SECTORS
    ensures size == 4096 - DIRENT_SIZE || size == SECTOR_SIZE * MEDIUM_FILE_SECTORS - DIRENT_SIZE
    ensures Spill(size, DIRENT_SIZE) == 0 && Fitting(size, DIRENT_SIZE) == DIRENT_SIZE && size % SECTOR_SIZE == SECTOR_SIZE - DIRENT_SIZE
    ensures forall free :: WriteDefined(size, DIRENT_SIZE, free)
  {
  }

  /** The write of the entry, in the volume that already has the new file n. */
  lemma EntryWrittenAtLimit(v: Vol, v1: Vol, parent: int, n: int, mode: U16, rel: seq<Byte>, s: int, junk: Junk) returns (w: Vol)
    requires FilesOk(v) && FilesOk(v1) && OnlyFile(v, v1, n) && !Live(v, n) && InTable(v.sb, n) && n < 0x1_0000 && |rel| <= DIRENT_MAXLEN
    requires NewOfKind(v1, n, mode)
    requires LiveDir(v, parent) && LiveDir(v1, parent) && InodeAt(v1, parent) == InodeAt(v, parent)
    requires EntryReachesLimit(Size(InodeAt(v, parent)))
    ensures WriteDefined(Size(InodeAt(v1, parent)), DIRENT_SIZE, s)
    ensures WriteBytes(v1, parent, InodeAt(v1, parent), EncodeDirent(Dirent(n, rel)), s, junk).0 == ERR_NONE
    ensures WriteBytes(v1, parent, InodeAt(v1, parent), EncodeDirent(Dirent(n, rel)), s, junk).1 == w
    ensures KeepsHead(v1, w) && OnlyFile(v1, w, parent) && |w.disk| == |v1.disk| && forall m :: Live(w, m) <==> Live(v1, m)
    ensures FilesOk(w) <==> Size(InodeAt(v, parent)) < 4096 && FirstWordsServe(v1, parent)
    ensures FilesOk(w) ==>
      ParentReplaced(v, w, parent, n, mode, Entries(MisreadData(v1, parent, EncodeDirent(Dirent(n, rel)))))
  {
    hide InodeAt, Data, Size, OnlyFile, FindSector, UsesSlot, Slot, EncodeDirent, WriteResidual, FirstWord, FirstWordsServe, Placed, Disjoint, Allocated, Entries, WriteDefined, Spill, Fitting, EntryReachesLimit, FittingStays, MisreadData, NewOfKind;
    var e, i := EncodeDirent(Dirent(n, rel)), InodeAt(v, parent);
    NotTooLarge(v, parent);
    LimitSizes(Size(i));
    OnlyFileKeepsSuperblock(v, v1, n);
    assert e[..DIRENT_SIZE] == e;
    if Size(i) < 4096 {
      w := ReachesIndirect(v1, parent, e);
      ReachedIndirectIff(v1, w, parent);
      RestOfAppend(v1, w, parent, InodeAt(w, parent), e, s, junk);
      if FilesOk(w) {
        MisreadParent(v, v1, w, parent, n, mode, e);
      }
    } else {
      w := ReachesLargest(v1, parent, e);
      RestOfAppend(v1, w, parent, InodeAt(w, parent), e, s, junk);
    }
    OnlyFileKeepsHead(v1, w, parent);
    forall m ensures Live(w, m) <==> Live(v1, m) {
      SameLive(v1, w, parent, m);
    }
  }

  lemma SameLive(v: Vol, w: Vol, n: int, m: int)
    requires Geometry(v) && OnlyFile(v, w, n) && Live(v, n) && Live(w, n)
    ensures Live(w, m) <==> Live(v, m)
  {
    hide InodeAt, SameSectors;
  }

  lemma MisreadParent(v: Vol, v1: Vol, w: Vol, parent: int, n: int, mode: U16, chunk: seq<Byte>)
    requires FilesOk(v) && FilesOk(v1) && FilesOk(w) && OnlyFile(v, v1, n) && OnlyFile(v1, w, parent)
    requires !Live(v, n) && InTable(v.sb, n) && NewOfKind(v1, n, mode) && |v1.disk| == |w.disk|
    requires LiveDir(v, parent) && LiveDir(v1, parent) && InodeAt(v1, parent) == InodeAt(v, parent) && Live(w, parent)
    requires 3584 < Size(InodeAt(v, parent)) && Size(InodeAt(v, parent)) % SECTOR_SIZE + |chunk| <= SECTOR_SIZE
    requires Size(InodeAt(v, parent)) + |chunk| == 4096 && FirstWordsServe(v1, parent)
    requires InodeAt(w, parent) == Resized(InodeAt(v, parent), 4096)
    requires forall k :: 0 <= k < ADDR_SMALL_LENGTH ==> FindSector(w.disk, InodeAt(w, parent), k) == FirstWord(v1, parent, k)
    requires forall t :: v.sb.blockStart <= t < |w.disk| ==> w.disk[t] == SectorAfter(v1, parent, chunk, t)
    ensures ParentReplaced(v, w, parent, n, mode, Entries(MisreadData(v1, parent, chunk)))
  {
    hide InodeAt, Data, Size, OnlyFile, FindSector, FirstWord, FirstWordsServe, Placed, Disjoint, Allocated, Entries, MisreadData, SectorAfter, OnDisk;
    OnlyFileKeepsSuperblock(v, v1, n);
    OnlyFileKeepsSuperblock(v1, w, parent);
    MisreadContent(v1, w, parent, chunk);
    forall m ensures Live(w, m) <==> Live(v, m) || m == n
      ensures Live(v, m) && m != parent ==> InodeAt(w, m) == InodeAt(v, m) && Data(w, m) == Data(v, m)
    {
      if m != n {
        OthersKept(v, v1, n, m);
      }
      if m != parent {
        OthersKept(v1, w, parent, m);
      }
    }
    OthersKept(v1, w, parent, n);
  }

  /** The volume with nothing new but an empty inode. */
  ghost predicate FreshInode(v: Vol, v1: Vol, n: int, mode: U16) {
    && FilesOk(v) && FilesOk(v1) && OnlyFile(v, v1, n) && !Live(v, n) && Live(v1, n) && InodeAt(v1, n) == NewInode(mode) && Data(v1, n) == []
    && |v1.disk| == |v.disk| && (forall t :: v.sb.blockStart <= t < |v.disk| ==> v1.disk[t] == v.disk[t])
    && (forall s :: Unused(v, s) ==> Unused(v1, s))
  }

  lemma FreshInEntryVolume(v1: Vol, w: Vol, parent: int, n: int)
    requires FilesOk(v1) && OnlyFile(v1, w, parent) && n != parent && Live(v1, n)
    ensures Geometry(w) && Live(w, n) && InodeAt(w, n) == InodeAt(v1, n)
  {
    hide InodeAt, SameSectors, Placed, Disjoint;
  }

  /** `direntv6_create` in a parent that the entry takes to a limit reports success, and
      leaves a well-formed volume exactly when that happens to be harmless. */
  lemma CreateAtLimitIff(v: Vol, entry: seq<Byte>, mode: U16, n: int, s: int, junk: Junk) returns (parent: int, v1: Vol, w: Vol)
    requires VolumeOk(v) && 0 !in entry && 1 <= n < 0x1_0000 && InTable(v.sb, n) && !Live(v, n) && Reaches(v, entry)
    requires var parent := CreateTarget(v, entry).0; OnDisk(v, parent) && EntryReachesLimit(Size(InodeAt(v, parent)))
    ensures parent == CreateTarget(v, entry).0 && LiveDir(v, parent) && |RelativeName(entry)| <= DIRENT_MAXLEN
    ensures CreateDefined(v, entry, mode, n, s) && Create(v, entry, mode, n, s, junk) == (n, w)
    ensures KeepsHead(v, w) && NewlyLive(v, w, n)
    ensures FilesOk(w) <==> Size(InodeAt(v, parent)) < 4096 && FirstWordsServe(v, parent)
    ensures VolumeOk(w) <==> LimitHarmless(v, parent, n, mode, RelativeName(entry))
    ensures FreshInode(v, v1, n, mode) && LiveDir(v1, parent) && InodeAt(v1, parent) == InodeAt(v, parent)
    ensures Geometry(w) && Live(w, n) && InodeAt(w, n) == NewInode(mode)
    ensures WriteDefined(Size(InodeAt(v1, parent)), DIRENT_SIZE, s)
    ensures WriteBytes(v1, parent, InodeAt(v1, parent), EncodeDirent(Dirent(n, RelativeName(entry))), s, junk).1 == w
  {
    hide InodeAt, Data, Size, Unused, WriteBytes, Lookup, RelativeName, AbsoluteName, DirDefined, LookupDefined, NewInode, EncodeDirent, OnlyFile, FirstWordsServe, Acyclic, Placed, Disjoint, FirstMatch, EntriesServe, MisreadData, Entries, EntryReachesLimit, WriteDefined, Allocated, WriteInode, AsInr, DistinctNames;
    var rel := RelativeName(entry);
    parent := CreateTarget(v, entry).0;
    DirsDefined(v);
    RelativeIsGood(entry);
    MissingChild(v, parent, rel);
    NumberFits(v, n);
    v1 := FreshInodeWritten(v, n, mode);
    NewInodeKind(mode);
    WordsUnmoved(v, v1, parent, n, EncodeDirent(Dirent(n, rel)));
    w := EntryWrittenAtLimit(v, v1, parent, n, mode, rel, s, junk);
    OnlyFileKeepsHead(v, v1, n);
    FreshInEntryVolume(v1, w, parent, n);
    forall m ensures Live(v1, m) <==> Live(v, m) || m == n {
      if m != n {
        OthersKept(v, v1, n, m);
      }
    }
    NotTooLarge(v, parent);
    LimitSizes(Size(InodeAt(v, parent)));
    if FilesOk(w) {
      ReplacedIsOkIff(v, w, parent, n, mode, Entries(MisreadData(v, parent, EncodeDirent(Dirent(n, rel)))));
    }
  }

  // ---------------------------------------------------------------- adding a file

  function ShortSector(buf: seq<Byte>, junk: Junk): Sector
    requires |buf| < SECTOR_SIZE
  {
    buf + junk(0)[|buf|..]
  }

  /** The inode of a new file shorter than a sector. */
  function ShortInode(mode: U16, len: nat, s: int): (i: Inode)
    requires len < SECTOR_SIZE
    ensures Allocated(i) && Size(i) == len && (IsDir(i) <==> IsDirMode(mode))
    ensures len > 0 ==> i.addr[0] == s % 0x1_0000
  {
    NewInodeKind(mode);
    Grown(NewInode(mode), len, s)
  }

  lemma ShortWrite(v: Vol, n: int, mode: U16, buf: seq<Byte>, s: int, junk: Junk)
    requires Geometry(v) && OnDisk(v, n) && s >= v.sb.blockStart && 0 < |buf| < SECTOR_SIZE
    ensures OnDisk(PutSector(v, s, ShortSector(buf, junk)), n)
    ensures WriteBytes(v, n, NewInode(mode), buf, s, junk) ==
      (ERR_NONE, PutInode(PutSector(v, s, ShortSector(buf, junk)), n, ShortInode(mode, |buf|, s)), ShortInode(mode, |buf|, s))
  {
    hide InodeAt, PutInode, DecodeInode;
    DataWriteKeepsInodes(v, s, ShortSector(buf, junk), n);
    NewInodeKind(mode);
    SizeRoundTrip(NewInode(mode), |buf|);
    OneChunk(v, n, NewInode(mode), buf, 0, s, junk);
  }

  /** Where the entry goes. */
  lemma EntryWrite(v: Vol, parent: int, e: seq<Byte>, s: int, junk: Junk) returns (last: int, data: Sector, i: Inode)
    requires FilesOk(v) && Live(v, parent) && EntryReachesLimit(Size(InodeAt(v, parent))) && |e| == DIRENT_SIZE
    ensures WriteDefined(Size(InodeAt(v, parent)), DIRENT_SIZE, s)
    ensures UsesSlot(InodeAt(v, parent), Size(InodeAt(v, parent)) / SECTOR_SIZE)
    ensures last == Slot(v.disk, InodeAt(v, parent), Size(InodeAt(v, parent)) / SECTOR_SIZE) && InDataArea(v, last)
    ensures data == Splice(v.disk[last], SECTOR_SIZE - DIRENT_SIZE, e)
    ensures Size(InodeAt(v, parent)) + DIRENT_SIZE < 0x1_000000 && i == Resized(InodeAt(v, parent), Size(InodeAt(v, parent)) + DIRENT_SIZE)
    ensures OnDisk(PutSector(v, last, data), parent)
    ensures WriteBytes(v, parent, InodeAt(v, parent), e, s, junk) == (ERR_NONE, PutInode(PutSector(v, last, data), parent, i), i)
  {
    hide InodeAt, PutInode, Size, FindSector, EntryReachesLimit, DecodeInode, Resized, Placed, Disjoint, UsesSlot;
    NotTooLarge(v, parent);
    var p := InodeAt(v, parent);
    LimitSizes(Size(p));
    LastBlockUsed(p);
    last := Slot(v.disk, p, Size(p) / SECTOR_SIZE);
    BlockPlaced(v, parent, Size(p) / SECTOR_SIZE);
    data := Splice(v.disk[last], SECTOR_SIZE - DIRENT_SIZE, e);
    i := Resized(p, Size(p) + DIRENT_SIZE);
    DataWriteKeepsInodes(v, last, data, parent);
    assert e[..DIRENT_SIZE] == e && e[DIRENT_SIZE..] == [];
  }

  lemma BlockPlaced(v: Vol, n: int, k: int)
    requires FilesOk(v) && Live(v, n) && UsesSlot(InodeAt(v, n), k)
    ensures InDataArea(v, Slot(v.disk, InodeAt(v, n), k))
  {
    hide InodeAt, Slot, UsesSlot;
  }

  lemma SplicesCommute(b: seq<Byte>, p: nat, x: seq<Byte>, q: nat, y: seq<Byte>)
    requires p + |x| <= |b| && q + |y| <= |b| && (p + |x| <= q || q + |y| <= p)
    ensures Splice(Splice(b, p, x), q, y) == Splice(Splice(b, q, y), p, x)
  {
  }

  /** The disk after a data sector and an inode were written, sector by sector. */
  function SectorAfterBoth(v: Vol, f: nat, data: Sector, n: int, i: Inode, t: nat): Sector
    requires OnDisk(v, n)
  {
    var k := SectorOfInode(v.sb, n);
    if t == f then data
    else if t >= |v.disk| then ZeroSector()
    else if t == k then Splice(v.disk[k], OffsetOfInode(n), EncodeInode(i))
    else v.disk[t]
  }

  lemma BothWritten(v: Vol, f: nat, data: Sector, n: int, i: Inode)
    requires Geometry(v) && OnDisk(v, n) && f >= v.sb.blockStart
    ensures OnDisk(PutSector(v, f, data), n)
    ensures var w := PutInode(PutSector(v, f, data), n, i);
      && Geometry(w) && w.sb == v.sb && |w.disk| == (if f < |v.disk| then |v.disk| else f + 1)
      && forall t {:trigger w.disk[t]} :: 0 <= t < |w.disk| ==> w.disk[t] == SectorAfterBoth(v, f, data, n, i, t)
  {
    hide EncodeInode, DecodeInode;
    DataWriteKeepsInodes(v, f, data, n);
    assert PutSector(v, f, data).disk[SectorOfInode(v.sb, n)] == v.disk[SectorOfInode(v.sb, n)];
  }

  /** Writes of two data sectors and two inodes commute. */
  lemma WritesCommute(v: Vol, p: int, last: int, x: Sector, i: Inode, n: int, s: int, y: Sector, j: Inode)
    requires Geometry(v) && OnDisk(v, p) && OnDisk(v, n) && p != n && last != s
    requires v.sb.blockStart <= last < |v.disk| && s >= v.sb.blockStart
    ensures OnDisk(PutSector(v, last, x), p) && OnDisk(PutSector(v, s, y), n)
    ensures var a, b := PutInode(PutSector(v, last, x), p, i), PutInode(PutSector(v, s, y), n, j);
      && OnDisk(PutSector(a, s, y), n) && OnDisk(PutSector(b, last, x), p)
      && PutInode(PutSector(a, s, y), n, j) == PutInode(PutSector(b, last, x), p, i)
  {
    hide EncodeInode, DecodeInode, PutInode, PutSector, Splice;
    BothWritten(v, last, x, p, i);
    BothWritten(v, s, y, n, j);
    var a, b := PutInode(PutSector(v, last, x), p, i), PutInode(PutSector(v, s, y), n, j);
    BothWritten(a, s, y, n, j);
    BothWritten(b, last, x, p, i);
    var kp, kn := SectorOfInode(v.sb, p), SectorOfInode(v.sb, n);
    if kp == kn {
      SplicesCommute(v.disk[kp], OffsetOfInode(p), EncodeInode(i), OffsetOfInode(n), EncodeInode(j));
    }
    var c, d := PutInode(PutSector(a, s, y), n, j).disk, PutInode(PutSector(b, last, x), p, i).disk;
    forall t | 0 <= t < |c| ensures c[t] == d[t] {
      assert c[t] == SectorAfterBoth(a, s, y, n, j, t) && d[t] == SectorAfterBoth(b, last, x, p, i, t);
    }
    assert c == d;
  }

  /** Adding a short file in a parent that its entry takes to a limit: the two writes change
      places, so the volume is the one where the file is complete before its entry is
      written. */
  lemma ShortAddAtLimit(v: Vol, v1: Vol, u: Vol, parent: int, n: int, mode: U16, rel: seq<Byte>, buf: seq<Byte>, s: int, junk: Junk, junk': Junk)
    returns (w: Vol)
    requires FilesOk(v) && FilesOk(v1) && OnlyFile(v, v1, n) && !Live(v, n) && InTable(v.sb, n) && n < 0x1_0000 && |rel| <= DIRENT_MAXLEN
    requires LiveDir(v, parent) && LiveDir(v1, parent) && InodeAt(v1, parent) == InodeAt(v, parent) && Live(v1, n)
    requires EntryReachesLimit(Size(InodeAt(v, parent))) && Unused(v1, s) && 0 < |buf| < SECTOR_SIZE && !IsDirMode(mode)
    requires WriteBytes(v1, n, NewInode(mode), buf, s, junk').1 == u && FilesOk(u) && OnlyFile(v1, u, n) && NewOfKind(u, n, mode)
    ensures WriteDefined(Size(InodeAt(v1, parent)), DIRENT_SIZE, s)
    ensures var w1 := WriteBytes(v1, parent, InodeAt(v1, parent), EncodeDirent(Dirent(n, rel)), s, junk).1;
      WriteBytes(w1, n, NewInode(mode), buf, s, junk').0 == ERR_NONE && WriteBytes(w1, n, NewInode(mode), buf, s, junk').1 == w
    ensures KeepsHead(u, w) && forall m :: Live(w, m) <==> Live(u, m)
    ensures FilesOk(w) <==> Size(InodeAt(v, parent)) < 4096 && FirstWordsServe(u, parent)
    ensures FilesOk(w) ==>
      ParentReplaced(v, w, parent, n, mode, Entries(MisreadData(u, parent, EncodeDirent(Dirent(n, rel)))))
  {
    hide InodeAt, Data, Size, OnlyFile, FindSector, UsesSlot, Slot, EncodeDirent, WriteResidual, FirstWord, FirstWordsServe, Placed, Disjoint, Allocated, Entries, WriteDefined, EntryReachesLimit, MisreadData, NewOfKind, WriteBytes, PutInode, PutSector, NewInode, Splice, OnDisk;
    var e := EncodeDirent(Dirent(n, rel));
    assert e == EncodeDirent(Dirent(n, rel));
    OthersKept(v1, u, n, parent);
    OnlyFileTwice(v, v1, u, n);
    var last, data, i := EntryWrite(v1, parent, e, s, junk);
    var last', data', i' := EntryWrite(u, parent, e, s, junk);
    OnlyFileKeepsSuperblock(v, v1, n);
    SlotAndSectorKept(v1, u, n, parent, Size(InodeAt(v, parent)) / SECTOR_SIZE);
    LiveOnDisk(v1, parent);
    LiveOnDisk(v1, n);
    var y, j := ShortSector(buf, junk'), ShortInode(mode, |buf|, s);
    assert last != s;
    WritesCommute(v1, parent, last, data, i, n, s, y, j);
    ShortWrite(v1, n, mode, buf, s, junk');
    BothWritten(v1, last, data, parent, i);
    var w1 := PutInode(PutSector(v1, last, data), parent, i);
    StillOnDisk(v1, w1, n);
    ShortWrite(w1, n, mode, buf, s, junk');
    w := EntryWrittenAtLimit(v, u, parent, n, mode, rel, s, junk);
  }

  lemma LiveOnDisk(v: Vol, n: int)
    requires Live(v, n)
    ensures OnDisk(v, n)
  {
  }

  lemma StillOnDisk(v: Vol, w: Vol, n: int)
    requires OnDisk(v, n) && w.sb == v.sb && |v.disk| <= |w.disk|
    ensures OnDisk(w, n)
  {
  }

  lemma SlotAndSectorKept(v: Vol, w: Vol, n: int, m: int, k: int)
    requires OnlyFile(v, w, n) && m != n && Live(v, m) && UsesSlot(InodeAt(v, m), k)
    ensures Slot(w.disk, InodeAt(v, m), k) == Slot(v.disk, InodeAt(v, m), k)
    ensures var t := Slot(v.disk, InodeAt(v, m), k); 0 <= t < |v.disk| && t < |w.disk| && w.disk[t] == v.disk[t]
  {
    hide InodeAt, Slot, UsesSlot;
    SameSlot(v.disk, w.disk, InodeAt(v, m), k);
  }

  /** From v to u one file n was made, with the one sector s. */
  ghost predicate OneSectorFile(v: Vol, u: Vol, n: int, s: int) {
    && FilesOk(v) && FilesOk(u) && OnlyFile(v, u, n) && !Live(v, n) && Live(u, n) && Unused(v, s)
    && (forall k :: UsesSlot(InodeAt(u, n), k) <==> k == 0) && Slot(u.disk, InodeAt(u, n), 0) == s
    && |u.disk| == (if s < |v.disk| then |v.disk| else s + 1)
    && forall t :: v.sb.blockStart <= t < |u.disk| && t != s ==> u.disk[t] == if t < |v.disk| then v.disk[t] else ZeroSector()
  }

  /** The parent's first words in u are those in v, and they serve in u exactly if they serve
      in v and are not s, or lead to sectors that the disk did not have. */
  lemma WordsBesideFile(v: Vol, u: Vol, parent: int, n: int, s: int)
    requires OneSectorFile(v, u, n, s) && Live(v, parent) && Size(InodeAt(v, parent)) >= 2 * ADDR_SMALL_LENGTH
    ensures Live(u, parent) && InodeAt(u, parent) == InodeAt(v, parent) && u.sb == v.sb
    ensures forall k :: 0 <= k < ADDR_SMALL_LENGTH ==> FirstWord(u, parent, k) == FirstWord(v, parent, k)
    ensures FirstWordsServe(v, parent) && (forall k :: 0 <= k < ADDR_SMALL_LENGTH ==> FirstWord(v, parent, k) != s) ==> FirstWordsServe(u, parent)
    ensures FirstWordsServe(u, parent) ==> forall k :: 0 <= k < ADDR_SMALL_LENGTH ==> FirstWord(v, parent, k) != s
    ensures FirstWordsServe(u, parent) && (forall k :: 0 <= k < ADDR_SMALL_LENGTH ==> FirstWord(v, parent, k) < |v.disk|) ==> FirstWordsServe(v, parent)
  {
    hide InodeAt, FindSector, Slot, Size, Data, OnlyFile, UsesSlot, Allocated, Placed, Disjoint;
    OthersKept(v, u, n, parent);
    OnlyFileKeepsSuperblock(v, u, n);
    assert forall k :: 0 <= k < ADDR_SMALL_LENGTH ==> FirstWord(u, parent, k) == FirstWord(v, parent, k);
    forall m, j ensures m != n ==> (Live(u, m) && UsesSlot(InodeAt(u, m), j) <==> Live(v, m) && UsesSlot(InodeAt(v, m), j))
      ensures Live(v, m) && UsesSlot(InodeAt(v, m), j) ==> Slot(u.disk, InodeAt(u, m), j) == Slot(v.disk, InodeAt(v, m), j)
    {
      if m != n {
        OthersKept(v, u, n, m);
        SlotUnmoved(v, u, n, m, j);
      }
    }
    if FirstWordsServe(u, parent) {
      assert UsesSlot(InodeAt(u, n), 0);
    }
  }

  lemma ZeroEntry(data: seq<Byte>, j: nat)
    requires DIRENT_SIZE * j + DIRENT_SIZE <= |data| && forall p :: DIRENT_SIZE * j <= p < DIRENT_SIZE * j + DIRENT_SIZE ==> data[p] == 0
    ensures exists e :: e in Entries(data) && e.name == []
  {
    var b := data[DIRENT_SIZE * j..DIRENT_SIZE * j + DIRENT_SIZE];
    assert b[2..][0] == data[DIRENT_SIZE * j + 2];
    assert Entries(data)[j] in Entries(data);
  }

  /** A block of zeros is no directory block. */
  lemma NoZeroBlocks(u: Vol, parent: int, chunk: seq<Byte>, v: Vol, n: int, mode: U16, k: nat)
    requires FilesOk(u) && Live(u, parent) && Size(InodeAt(u, parent)) >= 2 * ADDR_SMALL_LENGTH && FirstWordsServe(u, parent)
    requires Size(InodeAt(u, parent)) % SECTOR_SIZE + |chunk| <= SECTOR_SIZE && k < ADDR_SMALL_LENGTH
    requires FilesOk(v) && LiveDir(v, parent) && InTable(v.sb, n)
    requires EntriesServe(v, parent, n, mode, Entries(MisreadData(u, parent, chunk)))
    ensures InDataArea(u, FirstWord(u, parent, k)) && SectorAfter(u, parent, chunk, FirstWord(u, parent, k)) != ZeroSector()
  {
    hide InodeAt, Size, FirstWord, SectorAfter, DecodeDirent, Placed, Disjoint, DirEntries, Data;
    var data := MisreadData(u, parent, chunk);
    if SectorAfter(u, parent, chunk, FirstWord(u, parent, k)) == ZeroSector() {
      forall p | SECTOR_SIZE * k <= p < SECTOR_SIZE * k + DIRENT_SIZE ensures data[p] == 0 {
        assert p / SECTOR_SIZE == k;
      }
      ZeroEntry(data, 32 * k);
    }
  }

  lemma SameMisread(v: Vol, u: Vol, parent: int, n: int, s: int, chunk: seq<Byte>)
    requires OneSectorFile(v, u, n, s) && Live(v, parent) && Size(InodeAt(v, parent)) >= 2 * ADDR_SMALL_LENGTH
    requires Live(u, parent) && InodeAt(u, parent) == InodeAt(v, parent) && Size(InodeAt(v, parent)) % SECTOR_SIZE + |chunk| <= SECTOR_SIZE
    requires FirstWordsServe(v, parent) && FirstWordsServe(u, parent)
    requires forall k :: 0 <= k < ADDR_SMALL_LENGTH ==> FirstWord(u, parent, k) == FirstWord(v, parent, k) != s
    ensures MisreadData(u, parent, chunk) == MisreadData(v, parent, chunk)
  {
    hide InodeAt, Size, FirstWord, OnlyFile, Placed, Disjoint, UsesSlot, Slot;
  }

  /** Whether the misread parent serves can be asked before the file is made. */
  lemma ServesBesideFileIff(v: Vol, u: Vol, parent: int, n: int, mode: U16, s: int, chunk: seq<Byte>)
    requires OneSectorFile(v, u, n, s) && LiveDir(v, parent) && InTable(v.sb, n)
    requires 3584 < Size(InodeAt(v, parent)) < 4096 && Size(InodeAt(v, parent)) % SECTOR_SIZE + |chunk| <= SECTOR_SIZE
    ensures Live(u, parent) && InodeAt(u, parent) == InodeAt(v, parent)
    ensures FirstWordsServe(u, parent) && EntriesServe(v, parent, n, mode, Entries(MisreadData(u, parent, chunk))) <==>
      && FirstWordsServe(v, parent) && EntriesServe(v, parent, n, mode, Entries(MisreadData(v, parent, chunk)))
      && forall k :: 0 <= k < ADDR_SMALL_LENGTH ==> FirstWord(v, parent, k) != s
  {
    hide InodeAt, Size, FirstWord, OnlyFile, Placed, Disjoint, UsesSlot, Slot, FirstWordsServe, EntriesServe, Entries, MisreadData, Data, DirEntries;
    WordsBesideFile(v, u, parent, n, s);
    LastSectorOnDisk(v, parent);
    if FirstWordsServe(u, parent) && EntriesServe(v, parent, n, mode, Entries(MisreadData(u, parent, chunk))) {
      forall k | 0 <= k < ADDR_SMALL_LENGTH ensures FirstWord(v, parent, k) < |v.disk| {
        NoZeroBlocks(u, parent, chunk, v, n, mode, k);
      }
      SameMisread(v, u, parent, n, s, chunk);
    } else if FirstWordsServe(v, parent) && forall k :: 0 <= k < ADDR_SMALL_LENGTH ==> FirstWord(v, parent, k) != s {
      SameMisread(v, u, parent, n, s, chunk);
    }
  }

  lemma LastSectorOnDisk(v: Vol, n: int)
    requires FilesOk(v) && Live(v, n) && 3584 < Size(InodeAt(v, n)) < 4096
    ensures v.sb.blockStart <= InodeAt(v, n).addr[7] < |v.disk|
  {
    hide InodeAt, FindSector;
    DirectSlot(v.disk, InodeAt(v, n), 7);
    BlockPlaced(v, n, 7);
  }

  /** `direntv6_addfile` in such a parent: the entry is written whatever the parent holds, the
      bytes are if a sector was found for them; and the volume stays well formed exactly when
      the entry is harmless and the bytes, if written, fit in one sector that the parent does
      not take for its own. */
  lemma AddAtLimitIff(v: Vol, entry: seq<Byte>, mode: U16, buf: seq<Byte>, n: int, s: int, junk: Junk, junk': Junk)
    returns (parent: int, ret: int, w: Vol)
    requires VolumeOk(v) && 0 !in entry && 1 <= n < 0x1_0000 && InTable(v.sb, n) && !Live(v, n) && Reaches(v, entry)
    requires SectorAnswer(v, s) && (|buf| < 4096 || s < 0) && !IsDirMode(mode)
    requires var parent := CreateTarget(v, entry).0; OnDisk(v, parent) && EntryReachesLimit(Size(InodeAt(v, parent)))
    ensures parent == CreateTarget(v, entry).0 && LiveDir(v, parent) && |RelativeName(entry)| <= DIRENT_MAXLEN
    ensures AddDefined(v, entry, mode, buf, n, s, junk) && AddFile(v, entry, mode, buf, n, s, junk, junk') == (ret, w)
    ensures ret == if buf == [] || s >= 0 then ERR_NONE else s
    ensures KeepsHead(v, w) && (VolumeOk(w) ==> NewlyLive(v, w, n))
    ensures VolumeOk(w) <==>
      && LimitHarmless(v, parent, n, mode, RelativeName(entry))
      && (buf != [] && s >= 0 ==> |buf| < SECTOR_SIZE && forall k :: 0 <= k < ADDR_SMALL_LENGTH ==> FirstWord(v, parent, k) != s)
  {
    hide InodeAt, Data, Size, WriteBytes, Lookup, RelativeName, AbsoluteName, Create, CreateDefined, NewInode, OnlyFile, LimitHarmless, Acyclic, Placed, Disjoint, EntryReachesLimit, Allocated, FirstWord, FreshInode, VolumeOk, FirstWordsServe, EncodeDirent;
    var v1, w1;
    parent, v1, w1 := CreateAtLimitIff(v, entry, mode, n, s, junk);
    NewInodeKind(mode);
    LiveOnDisk(w1, n);
    if buf == [] {
      NothingToFill(w1, n, mode, s, junk');
      ret, w := ERR_NONE, w1;
    } else if s < 0 {
      FillFails(w1, n, mode, buf, junk');
      ret, w := s, w1;
    } else if |buf| >= SECTOR_SIZE {
      w := FillTooMuchAnyway(w1, n, mode, buf, s, junk');
      NotOkFiles(w);
      ret := ERR_NONE;
    } else {
      w := ShortAddAtLimitIff(v, v1, parent, n, mode, RelativeName(entry), buf, s, junk, junk');
      ret := ERR_NONE;
    }
  }

  lemma NotOkFiles(w: Vol)
    requires !FilesOk(w)
    ensures !VolumeOk(w)
  {
  }

  lemma NothingToFill(v: Vol, n: int, mode: U16, s: int, junk: Junk)
    ensures Size(NewInode(mode)) == 0 && WriteBytes(v, n, NewInode(mode), [], s, junk) == (ERR_NONE, v, NewInode(mode))
  {
    NewInodeKind(mode);
  }

  /** A whole sector or more: the new file claims the boot sector, whatever else is wrong. */
  lemma FillTooMuchAnyway(v: Vol, n: int, mode: U16, buf: seq<Byte>, s: int, junk: Junk) returns (w: Vol)
    requires Geometry(v) && Live(v, n) && InodeAt(v, n) == NewInode(mode) && s >= v.sb.blockStart && SECTOR_SIZE <= |buf| < 4096
    ensures Size(NewInode(mode)) == 0 && WriteBytes(v, n, NewInode(mode), buf, s, junk).0 == ERR_NONE
    ensures WriteBytes(v, n, NewInode(mode), buf, s, junk).1 == w
    ensures !FilesOk(w) && KeepsHead(v, w)
  {
    hide InodeAt, PutInode, PutSector, FindSector, UsesSlot;
    NewInodeKind(mode);
    var data, j := ChunksFillSlots(v, n, NewInode(mode), buf, 0, s, junk);
    w := PutBoth(v, s, data, n, j);
    DirectSlot(w.disk, j, 0);
    assert UsesSlot(InodeAt(w, n), 0) && Slot(w.disk, InodeAt(w, n), 0) == 0;
  }

  lemma ShortAddAtLimitIff(v: Vol, v1: Vol, parent: int, n: int, mode: U16, rel: seq<Byte>, buf: seq<Byte>, s: int, junk: Junk, junk': Junk)
    returns (w: Vol)
    requires VolumeOk(v) && FreshInode(v, v1, n, mode) && InTable(v.sb, n) && n < 0x1_0000 && |rel| <= DIRENT_MAXLEN
    requires LiveDir(v, parent) && LiveDir(v1, parent) && InodeAt(v1, parent) == InodeAt(v, parent)
    requires EntryReachesLimit(Size(InodeAt(v, parent))) && Unused(v, s) && 0 < |buf| < SECTOR_SIZE && !IsDirMode(mode)
    ensures WriteDefined(Size(InodeAt(v1, parent)), DIRENT_SIZE, s) && Size(NewInode(mode)) == 0
    ensures var w1 := WriteBytes(v1, parent, InodeAt(v1, parent), EncodeDirent(Dirent(n, rel)), s, junk).1;
      WriteBytes(w1, n, NewInode(mode), buf, s, junk').0 == ERR_NONE && WriteBytes(w1, n, NewInode(mode), buf, s, junk').1 == w
    ensures KeepsHead(v, w) && NewlyLive(v, w, n)
    ensures VolumeOk(w) <==>
      LimitHarmless(v, parent, n, mode, rel) && forall k :: 0 <= k < ADDR_SMALL_LENGTH ==> FirstWord(v, parent, k) != s
  {
    hide InodeAt, Data, Size, WriteBytes, NewInode, OnlyFile, Acyclic, Placed, Disjoint, EntryReachesLimit, Allocated, FirstWord, FirstWordsServe, EntriesServe, Entries, MisreadData, EncodeDirent, WriteDefined, PutInode, PutSector, Unused, UsesSlot, Slot, DistinctNames, OnDisk;
    NewInodeKind(mode);
    var e := EncodeDirent(Dirent(n, rel));
    ShortIsOk(|buf|);
    var u := AppendBytes(v1, n, buf, s, junk');
    OnlyFileTwice(v, v1, u, n);
    LiveOnDisk(v1, n);
    OnlyFileKeepsSuperblock(v, v1, n);
    UnusedInData(v, s);
    ShortWrite(v1, n, mode, buf, s, junk');
    OneSectorMade(v, v1, u, n, mode, buf, s, junk');
    w := ShortAddAtLimit(v, v1, u, parent, n, mode, rel, buf, s, junk, junk');
    OnlyFileKeepsHead(v, u, n);
    forall m ensures Live(u, m) <==> Live(v, m) || m == n {
      if m != n {
        OthersKept(v, u, n, m);
      }
    }
    NotTooLarge(v, parent);
    LimitSizes(Size(InodeAt(v, parent)));
    if Size(InodeAt(v, parent)) < 4096 {
      ServesBesideFileIff(v, u, parent, n, mode, s, e);
    }
    if FilesOk(w) {
      ReplacedIsOkIff(v, w, parent, n, mode, Entries(MisreadData(u, parent, e)));
    }
  }

  lemma ShortIsOk(len: nat)
    requires len < SECTOR_SIZE
    ensures AppendOk(0, len)
  {
  }

  lemma UnusedInData(v: Vol, s: int)
    requires Unused(v, s)
    ensures v.sb.blockStart <= s <= v.sb.fsize
  {
  }

  lemma OneSectorMade(v: Vol, v1: Vol, u: Vol, n: int, mode: U16, buf: seq<Byte>, s: int, junk: Junk)
    requires FreshInode(v, v1, n, mode) && Unused(v, s) && s < 0x1_0000 && 0 < |buf| < SECTOR_SIZE && v1.sb == v.sb
    requires FilesOk(u) && OnlyFile(v, u, n) && Live(u, n) && s >= v.sb.blockStart
    requires WriteBytes(v1, n, NewInode(mode), buf, s, junk) == (ERR_NONE, u, InodeAt(u, n))
    ensures OneSectorFile(v, u, n, s) && (!IsDirMode(mode) ==> NewOfKind(u, n, mode))
  {
    hide InodeAt, Data, WriteBytes, NewInode, OnlyFile, Placed, Disjoint, PutInode, PutSector, FindSector, EncodeInode;
    LiveOnDisk(v1, n);
    ShortWrite(v1, n, mode, buf, s, junk);
    BothWritten(v1, s, ShortSector(buf, junk), n, ShortInode(mode, |buf|, s));
    forall k ensures UsesSlot(InodeAt(u, n), k) <==> k == 0 {
      DirectSlot(u.disk, InodeAt(u, n), k);
    }
    DirectSlot(u.disk, InodeAt(u, n), 0);
  }

  // ---------------------------------------------------------------- commands

  /** A command whose entry takes the parent to a limit, and whose bytes are not written past
      the address slots. */
  ghost predicate CommandAtLimit(d: Disk, c: Command)
    requires DiskOk(d)
  {
    var v := VolumeOf(d);
    var parent := CreateTarget(v, c.entry).0;
    && 0 !in c.entry && Attempts(v, c) && (c.Add? && SectorRoom(v) ==> |c.buf| < MAX_ADD_SIZE)
    && OnDisk(v, parent) && EntryReachesLimit(Size(InodeAt(v, parent)))
  }

  function ModeOf(c: Command): U16 {
    if c.Mkdir? then IFDIR else OWNER_RIGHTS
  }

  /** Such a command succeeds whatever the parent holds, if the bytes to add, should there be
      any, find a sector. It leaves the disk well formed exactly when, besides, a scanned
      inode number is free, the misread parent is harmless, and the bytes fit in one sector
      that the parent does not take for its own. */
  lemma CommandAtLimitIff(d: Disk, c: Command) returns (parent: int, n: int, s: int)
    requires DiskOk(d) && MountCode(d) == ERR_NONE && CommandAtLimit(d, c)
    ensures var v := VolumeOf(d);
      && parent == CreateTarget(v, c.entry).0 && LiveDir(v, parent) && |RelativeName(c.entry)| <= DIRENT_MAXLEN
      && InodeBits(v).Ok() && n == NextFree(InodeBits(v)) && InTable(v.sb, n) && n < 0x1_0000
      && SectorBits(v).Ok() && s == NextFree(SectorBits(v))
    ensures CommandDefined(d, c)
    ensures RunCommand(d, c).0 == ERR_NONE <==> (c.Add? && c.buf != [] ==> SectorRoom(VolumeOf(d)))
    ensures DiskOk(RunCommand(d, c).1) <==>
      && InodeRoom(VolumeOf(d)) && LimitHarmless(VolumeOf(d), parent, n, ModeOf(c), RelativeName(c.entry))
      && (c.Add? && c.buf != [] && SectorRoom(VolumeOf(d)) ==>
           |c.buf| < SECTOR_SIZE && forall k :: 0 <= k < ADDR_SMALL_LENGTH ==> FirstWord(VolumeOf(d), parent, k) != s)
  {
    hide InodeAt, VolumeOk, Create, CreateDefined, AddFile, AddDefined, Allocated, Lookup, Size, RelativeName, ScanCode, InodeBits, SectorBits, InodeRoom, SectorRoom, NewlyLive, AllScanned, Reaches, InTable, LimitHarmless, EntryReachesLimit, FreshInode, FirstWord;
    var v := VolumeOf(d);
    VolumeFacts(v);
    MountedSearches(v);
    n, s := NextFree(InodeBits(v)), NextFree(SectorBits(v));
    match c {
      case Mkdir(entry, junk) =>
        var v1, w;
        parent, v1, w := CreateAtLimitIff(v, entry, IFDIR, n, s, junk);
        HeadKeepsSuperblock(v, w);
        ScannedIff(v, w, n);
      case Add(entry, buf, junk, junk') =>
        var ret, w;
        parent, ret, w := AddAtLimitIff(v, entry, OWNER_RIGHTS, buf, n, s, junk, junk');
        HeadKeepsSuperblock(v, w);
        if VolumeOk(w) {
          ScannedIff(v, w, n);
        }
    }
  }

  lemma ParentDefined(v: Vol, parent: int, n: int, s: int, mode: U16)
    requires FilesOk(v) && LiveDir(v, parent) && Size(InodeAt(v, parent)) % DIRENT_SIZE == 0
    requires 0 <= n < 0x1_0000 && InTable(v.sb, n) && !Live(v, n)
    requires ParentWriteDefined(WriteInode(v, AsInr(n), NewInode(mode)).1, parent, s)
    ensures EntryRoom(Size(InodeAt(v, parent)), s >= 0) || EntryReachesLimit(Size(InodeAt(v, parent)))
  {
    hide InodeAt, Size, NewInode, Placed, Disjoint;
    NumberFits(v, n);
    NotTooLarge(v, parent);
    var v1 := FreshInodeWritten(v, n, mode);
    OthersKept(v, v1, n, parent);
  }

  /** With a sector found and an inode made, the C code defines the add only below 4096
      bytes. */
  lemma AddLength(v: Vol, entry: seq<Byte>, mode: U16, buf: seq<Byte>, n: int, s: int, junk: Junk)
    requires VolumeOk(v) && 0 !in entry && 1 <= n < 0x1_0000 && InTable(v.sb, n) && !Live(v, n) && Reaches(v, entry) && Unused(v, s)
    requires var parent := CreateTarget(v, entry).0;
      OnDisk(v, parent) && (EntryRoom(Size(InodeAt(v, parent)), true) || EntryReachesLimit(Size(InodeAt(v, parent))))
    requires AddDefined(v, entry, mode, buf, n, s, junk)
    ensures |buf| < 4096
  {
    hide InodeAt, Size, NewInode, Create, CreateDefined, FilesOk, Lookup, RelativeName, EntryRoom, EntryReachesLimit, LimitHarmless, FreshInode, Extends, OnlyTheseGrew, NewlyLive, Acyclic, EntryAdded;
    NewInodeKind(mode);
    NotNegative(v, s);
    if EntryReachesLimit(Size(InodeAt(v, CreateTarget(v, entry).0))) {
      var parent, v1, w := CreateAtLimitIff(v, entry, mode, n, s, junk);
    } else {
      var ret, w := CreateResult(v, entry, mode, n, s, junk);
      NewFileInode(v, w, CreateTarget(v, entry).0, n, RelativeName(entry), mode);
    }
  }

  lemma NotNegative(v: Vol, s: int)
    requires Unused(v, s)
    ensures s >= 0
  {
  }

  /** The two results together classify every command that the C code defines. */
  lemma DefinedIsClassified(d: Disk, c: Command)
    requires DiskOk(d) && MountCode(d) == ERR_NONE && 0 !in c.entry && CommandDefined(d, c)
    ensures CommandInScope(d, c) || CommandAtLimit(d, c)
  {
    hide InodeAt, VolumeOk, AddDefined, Create, AddFile, Allocated, Lookup, Size, RelativeName, AbsoluteName, ScanCode, InodeBits, SectorBits, InodeRoom, SectorRoom, AllScanned, InTable, LookupDefined, EncodeDirent, WriteBytes, NewInode, WriteInode, AsInr, EntryRoom, EntryReachesLimit, ParentWriteDefined;
    var v := VolumeOf(d);
    VolumeFacts(v);
    MountedSearches(v);
    var n, s := NextFree(InodeBits(v)), NextFree(SectorBits(v));
    if Attempts(v, c) {
      var parent := CreateTarget(v, c.entry).0;
      ReachedIsDir(v, c.entry);
      DefinedParts(d, c, n, s);
      ParentDefined(v, parent, n, s, ModeOf(c));
      if c.Add? && SectorRoom(v) {
        AddLength(v, c.entry, OWNER_RIGHTS, c.buf, n, s, c.junk);
      }
    }
  }

  lemma ReachedIsDir(v: Vol, entry: seq<Byte>)
    requires VolumeOk(v) && 0 !in entry && Reaches(v, entry)
    ensures var parent := CreateTarget(v, entry).0; LiveDir(v, parent) && Size(InodeAt(v, parent)) % DIRENT_SIZE == 0
  {
    hide InodeAt, Lookup, RelativeName, AbsoluteName, Data, DirEntries, FirstMatch, Acyclic, FilesOk, Size, DistinctNames;
    RelativeIsGood(entry);
    MissingChild(v, CreateTarget(v, entry).0, RelativeName(entry));
  }

  lemma DefinedParts(d: Disk, c: Command, n: int, s: int)
    requires DiskOk(d) && MountCode(d) == ERR_NONE && CommandDefined(d, c) && Attempts(VolumeOf(d), c)
    requires InodeBits(VolumeOf(d)).Ok() && n == NextFree(InodeBits(VolumeOf(d))) && n >= 0
    requires SectorBits(VolumeOf(d)).Ok() && s == NextFree(SectorBits(VolumeOf(d)))
    ensures ParentWriteDefined(WriteInode(VolumeOf(d), AsInr(n), NewInode(ModeOf(c))).1, CreateTarget(VolumeOf(d), c.entry).0, s)
    ensures c.Add? ==> AddDefined(VolumeOf(d), c.entry, OWNER_RIGHTS, c.buf, n, s, c.junk)
  {
    hide InodeAt, VolumeOk, Create, Lookup, RelativeName, AbsoluteName, ScanCode, InodeBits, SectorBits, AllScanned, LookupDefined, NewInode, WriteInode, AsInr, ParentWriteDefined;
  }
}
