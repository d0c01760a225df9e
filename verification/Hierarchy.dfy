/** When the directories of a well-formed volume form a hierarchy, and what creating an
    entry does to it. */
module Hierarchy {
  import opened Unixv6fs
  import opened Inodes
  import opened Files
  import opened Volumes
  import opened Appends
  import opened Directories
  import opened Creation

  ghost predicate LiveDir(v: Vol, n: int) {
    Live(v, n) && IsDir(InodeAt(v, n))
  }

  /** The entries of directory n. */
  ghost function DirEntries(v: Vol, n: int): seq<Dirent>
    requires FilesOk(v) && Live(v, n)
  {
    Entries(Data(v, n))
  }

  predicate GoodName(name: seq<Byte>) {
    name != [] && SLASH !in name && 0 !in name
  }

  predicate DistinctNames(es: seq<Dirent>) {
    forall j, k :: 0 <= j < k < |es| ==> es[j].name != es[k].name
  }

  /** Directory n holds whole entries, with distinct usable names, that lead to live inodes. */
  ghost predicate DirOk(v: Vol, n: int)
    requires FilesOk(v) && Live(v, n)
  {
    && Size(InodeAt(v, n)) % DIRENT_SIZE == 0
    && DistinctNames(DirEntries(v, n))
    && forall e :: e in DirEntries(v, n) ==> GoodName(e.name) && Live(v, e.inr)
  }

  /** A rank that falls from every directory to its subdirectories. */
  ghost predicate Ranked(v: Vol, rank: seq<nat>)
    requires FilesOk(v)
  {
    && |rank| == INODES_PER_SECTOR * v.sb.isize
    && forall n, e :: LiveDir(v, n) && e in DirEntries(v, n) && LiveDir(v, e.inr) ==> rank[e.inr] < rank[n]
  }

  ghost predicate Acyclic(v: Vol)
    requires FilesOk(v)
  {
    exists rank :: Ranked(v, rank)
  }

  /** A well-formed volume. */
  ghost predicate VolumeOk(v: Vol) {
    && FilesOk(v)
    && LiveDir(v, ROOT_INUMBER)
    && (forall n :: LiveDir(v, n) ==> DirOk(v, n))
    && Acyclic(v)
  }

  // ---------------------------------------------------------------- searching well-formed directories

  /** In a well-formed volume a directory search is a search of its entry list. */
  lemma DirFindInEntries(v: Vol, n: int, name: seq<Byte>)
    requires FilesOk(v)
    ensures !LiveDir(v, n) ==> DirFind(v, n, name) < 0 && DirFind(v, n, name) != ERR_NO_SUCH_FILE
    ensures LiveDir(v, n) ==>
      DirFind(v, n, name) == var r := FirstMatch(DirEntries(v, n), name); if r == -1 then ERR_NO_SUCH_FILE else r
  {
    hide InodeAt, FindSector, FirstIndex, Entries, Size, UsesSlot;
    if LiveDir(v, n) {
      LiveFilesReadable(v, n);
      StreamIsContent(v.disk, InodeAt(v, n), 0);
      assert Data(v, n)[0..] == Data(v, n);
    }
  }

  /** In a well-formed volume directories can be read entry by entry, so every path can be
      looked up. */
  lemma DirsDefined(v: Vol)
    requires VolumeOk(v)
    ensures forall n :: DirDefined(v, n)
    ensures forall n, path :: LookupDefined(v, n, path)
  {
    hide VolumeOk, LookupDefined, DirDefined;
    forall n ensures DirDefined(v, n) {
      OneDirDefined(v, n);
    }
    forall n, path ensures LookupDefined(v, n, path) {
      AllDefined(v, n, path);
    }
  }

  lemma OneDirDefined(v: Vol, n: int)
    requires VolumeOk(v)
    ensures DirDefined(v, n)
  {
    hide InodeAt, Data, Allocated, DistinctNames, Size, FilesOk, Acyclic, DirEntries, ReaderDefined, OnDisk;
    if OpenDir(v, n).0 == 0 {
      assert DirOk(v, n);
      WholeEntriesDefined(InodeAt(v, n));
    }
  }

  lemma WholeEntriesDefined(i: Inode)
    requires Size(i) % DIRENT_SIZE == 0
    ensures ReaderDefined(i)
  {
    hide Size;
  }

  // ---------------------------------------------------------------- one change

  /** From v to w only file n changed: every other file is live as before, with the same inode and bytes. */
  lemma OthersKept(v: Vol, w: Vol, n: int, m: int)
    requires FilesOk(v) && FilesOk(w) && OnlyFile(v, w, n) && m != n
    ensures Live(w, m) <==> Live(v, m)
    ensures Live(v, m) ==> InodeAt(w, m) == InodeAt(v, m) && Data(w, m) == Data(v, m)
  {
    hide InodeAt, FindSector, UsesSlot, Slot;
    if Live(v, m) {
      SameContent(v.disk, w.disk, InodeAt(v, m));
    }
  }

  /** The state after an entry (rel, child) was added at the end of directory parent, where
      child was free before and is now an empty file with the given mode. */
  ghost predicate EntryAdded(v: Vol, w: Vol, parent: int, child: int, rel: seq<Byte>, mode: U16) {
    && FilesOk(v) && FilesOk(w) && w.sb == v.sb && |v.disk| <= |w.disk|
    && LiveDir(v, parent) && !Live(v, child) && 0 <= child < 0x1_0000 && |rel| <= DIRENT_MAXLEN && GoodName(rel)
    && (forall m :: m != child ==> (Live(w, m) <==> Live(v, m)))
    && (forall m :: Live(v, m) && m != parent ==> InodeAt(w, m) == InodeAt(v, m) && Data(w, m) == Data(v, m))
    && LiveDir(w, parent) && Data(w, parent) == Data(v, parent) + EncodeDirent(Dirent(child, rel))
    && Live(w, child) && InodeAt(w, child) == NewInode(mode)
    && (forall k :: 0 <= k < v.sb.inodeStart ==> w.disk[k] == v.disk[k])
  }

  /** What the inode search may answer: nothing left, or a number whose inode is not live. */
  ghost predicate InodeAnswer(v: Vol, n: int) {
    n == ERR_BITMAP_FULL || (1 <= n < 0x1_0000 && !Live(v, n))
  }

  /** What the sector search may answer: nothing left, or a sector no live file uses. */
  ghost predicate SectorAnswer(v: Vol, s: int) {
    s == ERR_BITMAP_FULL || Unused(v, s)
  }

  /** Writing a fresh empty inode disturbs nothing. */
  lemma FreshInodeWritten(v: Vol, n: int, mode: U16) returns (w: Vol)
    requires FilesOk(v) && InTable(v.sb, n) && !Live(v, n)
    ensures WriteInode(v, n, NewInode(mode)) == (ERR_NONE, w)
    ensures FilesOk(w) && OnlyFile(v, w, n) && Live(w, n) && InodeAt(w, n) == NewInode(mode) && Data(w, n) == []
    ensures |w.disk| == |v.disk| && forall t :: v.sb.blockStart <= t < |v.disk| ==> w.disk[t] == v.disk[t]
    ensures forall s :: Unused(v, s) ==> Unused(w, s)
  {
    hide InodeAt, FindSector, Slot, NewInode;
    var i := NewInode(mode);
    w := PutInode(v, n, i);
    PutInodeIsUpdate(v, n, i, n);
    forall m | OnDisk(v, m) && m != n ensures InodeAt(w, m) == InodeAt(v, m) {
      PutInodeIsUpdate(v, n, i, m);
    }
    forall m | Live(v, m) && m != n ensures SameSectors(v.disk, w.disk, InodeAt(v, m)) {
      InodeWriteKeepsFile(v, n, i, m);
    }
    assert forall k :: !UsesSlot(i, k);
    OnlyFileKeepsOk(v, w, n);
    forall s | Unused(v, s) ensures Unused(w, s) {
      NewFileUsesNothing(v, w, n, s);
    }
  }

  lemma InodeWriteKeepsFile(v: Vol, n: int, i: Inode, m: int)
    requires FilesOk(v) && OnDisk(v, n) && Live(v, m)
    ensures SameSectors(v.disk, PutInode(v, n, i).disk, InodeAt(v, m))
  {
    hide InodeAt, FindSector, UsesSlot, Slot, EncodeInode;
    var j, e := InodeAt(v, m), PutInode(v, n, i).disk;
    forall k | UsesSlot(j, k)
      ensures 0 <= Slot(v.disk, j, k) < |v.disk| && Slot(v.disk, j, k) < |e| && e[Slot(v.disk, j, k)] == v.disk[Slot(v.disk, j, k)]
    {
      assert InDataArea(v, Slot(v.disk, j, k));
    }
  }

  lemma NewFileUsesNothing(v: Vol, w: Vol, n: int, s: int)
    requires FilesOk(v) && OnlyFile(v, w, n) && Unused(v, s) && OnDisk(w, n)
    requires forall k :: !UsesSlot(InodeAt(w, n), k)
    ensures Unused(w, s)
  {
    hide InodeAt, FindSector, UsesSlot, Slot;
    forall m, k | Live(w, m) && UsesSlot(InodeAt(w, m), k) ensures Slot(w.disk, InodeAt(w, m), k) != s {
      assert m != n && Live(v, m);
      SameSlot(v.disk, w.disk, InodeAt(v, m), k);
    }
  }

  /** An entry of 16 bytes after whole entries never straddles two sectors. */
  lemma EntryFits(size: nat, free: int)
    requires size % DIRENT_SIZE == 0
    ensures Fitting(size, DIRENT_SIZE) == if size % SECTOR_SIZE == 0 then 0 else DIRENT_SIZE
    ensures EntryRoom(size, free >= 0) ==> WriteDefined(size, DIRENT_SIZE, free)
    ensures EntryRoom(size, free >= 0) && (free >= 0 || size % SECTOR_SIZE != 0) ==> AppendOk(size, DIRENT_SIZE)
    ensures EntryRoom(size, free >= 0) ==> FittingStays(size, DIRENT_SIZE)
  {
  }

  lemma NumberFits(v: Vol, n: int)
    requires Geometry(v) && InTable(v.sb, n)
    ensures AsInr(n) == n
  {
  }

  /** A fresh inode, then its entry in the parent. When a new sector was needed but none was
      free, the inode stays behind without an entry and the failure is reported. */
  lemma CreateDirentAddsEntry(v: Vol, mode: U16, rel: seq<Byte>, parent: int, n: int, s: int, junk: Junk) returns (w: Vol)
    requires FilesOk(v) && LiveDir(v, parent) && Size(InodeAt(v, parent)) % DIRENT_SIZE == 0
    requires InTable(v.sb, n) && !Live(v, n) && SectorAnswer(v, s)
    requires EntryRoom(Size(InodeAt(v, parent)), s >= 0) && |rel| <= DIRENT_MAXLEN && GoodName(rel)
    ensures ParentWriteDefined(WriteInode(v, AsInr(n), NewInode(mode)).1, parent, s)
    ensures s < 0 && Size(InodeAt(v, parent)) % SECTOR_SIZE == 0 ==>
      CreateDirent(v, mode, rel, parent, n, s, junk) == (ERR_BITMAP_FULL, w) && FilesOk(w) && OnlyFile(v, w, n)
      && Live(w, n) && InodeAt(w, n) == NewInode(mode) && Data(w, n) == []
    ensures s >= 0 || Size(InodeAt(v, parent)) % SECTOR_SIZE != 0 ==>
      CreateDirent(v, mode, rel, parent, n, s, junk) == (n, w) && EntryAdded(v, w, parent, n, rel, mode)
    ensures s >= 0 || Size(InodeAt(v, parent)) % SECTOR_SIZE != 0 ==>
      Lengthened(InodeAt(v, parent), InodeAt(w, parent), DIRENT_SIZE, s)
    ensures Size(InodeAt(v, parent)) % SECTOR_SIZE != 0 ==> forall t :: Unused(v, t) ==> Unused(w, t)
  {
    hide InodeAt, Data, OnlyFile, Size, WriteBytes, NewInode, EncodeDirent, Placed, Disjoint, AppendOk, EntryRoom, FittingStays, WriteDefined, Fitting, Grown, WriteInode, AsInr, Lengthened;
    NumberFits(v, n);
    var v1 := FreshInodeWritten(v, n, mode);
    OthersKept(v, v1, n, parent);
    var e := EncodeDirent(Dirent(n, rel));
    EntryFits(Size(InodeAt(v, parent)), s);
    if s < 0 && Size(InodeAt(v, parent)) % SECTOR_SIZE == 0 {
      w := AppendOnFullVolume(v1, parent, e, s, junk);
    } else {
      w := AppendBytes(v1, parent, e, s, junk);
      TwoFilesChanged(v, v1, w, parent, n, rel, mode);
    }
  }

  lemma TwoFilesChanged(v: Vol, v1: Vol, w: Vol, parent: int, n: int, rel: seq<Byte>, mode: U16)
    requires FilesOk(v) && FilesOk(v1) && FilesOk(w) && OnlyFile(v, v1, n) && OnlyFile(v1, w, parent)
    requires LiveDir(v, parent) && InTable(v.sb, n) && !Live(v, n) && |rel| <= DIRENT_MAXLEN && GoodName(rel)
    requires Live(v1, n) && InodeAt(v1, n) == NewInode(mode)
    requires LiveDir(w, parent) && Data(w, parent) == Data(v1, parent) + EncodeDirent(Dirent(n, rel))
    ensures EntryAdded(v, w, parent, n, rel, mode)
  {
    hide InodeAt, Data, Unused, NewInode, EncodeDirent, Placed, Disjoint, Allocated, SameSectors;
    forall m ensures m != n ==> (Live(w, m) <==> Live(v, m))
      ensures Live(v, m) && m != parent ==> InodeAt(w, m) == InodeAt(v, m) && Data(w, m) == Data(v, m)
    {
      if m != n {
        OthersKept(v, v1, n, m);
      }
      if m != parent {
        OthersKept(v1, w, parent, m);
      }
    }
    OthersKept(v, v1, n, parent);
    OthersKept(v1, w, parent, n);
  }

  // ---------------------------------------------------------------- the hierarchy grows by a leaf

  ghost function RaisedRanks(rank: seq<nat>, child: int): seq<nat> {
    seq(|rank|, k requires 0 <= k < |rank| => if k == child then 0 else rank[k] + 1)
  }

  /** A new empty file, with at most one new entry leading to it (none when parent == child),
      keeps a well-formed volume well formed. */
  lemma LeafKeepsVolume(v: Vol, w: Vol, parent: int, child: int, rel: seq<Byte>)
    requires VolumeOk(v) && FilesOk(w) && w.sb == v.sb
    requires 0 <= child < 0x1_0000 && !Live(v, child) && Live(w, child) && Size(InodeAt(w, child)) == 0
    requires forall m :: m != child ==> (Live(w, m) <==> Live(v, m))
    requires forall m :: Live(v, m) && m != parent ==> InodeAt(w, m) == InodeAt(v, m) && Data(w, m) == Data(v, m)
    requires parent != child ==>
      && LiveDir(v, parent) && LiveDir(w, parent) && Size(InodeAt(w, parent)) % DIRENT_SIZE == 0
      && GoodName(rel) && FirstMatch(DirEntries(v, parent), rel) == -1
      && DirEntries(w, parent) == DirEntries(v, parent) + [Dirent(child, rel)]
    ensures VolumeOk(w)
  {
    hide InodeAt, FilesOk, Data, Entries, Size, FirstIndex, Allocated;
    forall n | LiveDir(w, n)
      ensures DirOk(w, n)
      ensures n == child ==> DirEntries(w, n) == []
      ensures n != child ==> LiveDir(v, n)
      ensures n != child && n != parent ==> DirEntries(w, n) == DirEntries(v, n)
    {
      LeafDirOk(v, w, parent, child, rel, n);
    }
    var rank :| Ranked(v, rank);
    var raised := RaisedRanks(rank, child);
    forall n, e | LiveDir(w, n) && e in DirEntries(w, n) && LiveDir(w, e.inr) ensures raised[e.inr] < raised[n] {
      assert n != child;
      assert DirOk(v, n);
      if e in DirEntries(v, n) {
        assert LiveDir(v, e.inr);
      } else {
        assert e == Dirent(child, rel);
      }
    }
    assert Ranked(w, raised);
  }

  lemma LeafDirOk(v: Vol, w: Vol, parent: int, child: int, rel: seq<Byte>, n: int)
    requires VolumeOk(v) && FilesOk(w) && w.sb == v.sb
    requires 0 <= child < 0x1_0000 && !Live(v, child) && Live(w, child) && Size(InodeAt(w, child)) == 0
    requires forall m :: m != child ==> (Live(w, m) <==> Live(v, m))
    requires forall m :: Live(v, m) && m != parent ==> InodeAt(w, m) == InodeAt(v, m) && Data(w, m) == Data(v, m)
    requires parent != child ==>
      && LiveDir(v, parent) && LiveDir(w, parent) && Size(InodeAt(w, parent)) % DIRENT_SIZE == 0
      && GoodName(rel) && FirstMatch(DirEntries(v, parent), rel) == -1
      && DirEntries(w, parent) == DirEntries(v, parent) + [Dirent(child, rel)]
    requires LiveDir(w, n)
    ensures DirOk(w, n)
    ensures n == child ==> DirEntries(w, n) == []
    ensures n != child ==> LiveDir(v, n)
    ensures n != child && n != parent ==> DirEntries(w, n) == DirEntries(v, n)
  {
    hide InodeAt, FilesOk, FirstIndex, Allocated, OnDisk, DecodeDirent;
    if n == child {
      LiveFilesReadable(w, n);
      assert |Data(w, n)| == 0;
    } else if n == parent {
      assert DirOk(v, n);
      var es := DirEntries(v, n);
      assert forall k :: 0 <= k < |es| ==> es[k].name != rel;
    } else {
      assert DirOk(v, n);
    }
  }
}
