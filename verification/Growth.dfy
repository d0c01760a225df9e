/** What `direntv6_create` and `direntv6_addfile` promise on a well-formed volume. */
module Growth {
  import opened Unixv6fs
  import opened Inodes
  import opened Files
  import opened Volumes
  import opened Appends
  import opened Directories
  import opened Creation
  import opened Hierarchy

  /** The creation gets as far as taking an inode: the name is short enough, the parent
      resolves, and the name is missing there. */
  predicate Reaches(v: Vol, entry: seq<Byte>) {
    var (parent, child) := CreateTarget(v, entry);
    |RelativeName(entry)| <= DIRENT_MAXLEN && parent >= 0 && child == ERR_NO_SUCH_FILE
  }

  /** The parent can take one more entry without reaching a limit, if it comes to that, or
      the entry finds no sector. */
  predicate RoomInParent(v: Vol, entry: seq<Byte>, sector: bool) {
    var parent := CreateTarget(v, entry).0;
    Reaches(v, entry) && OnDisk(v, parent) ==> EntryRoom(Size(InodeAt(v, parent)), sector)
  }

  /** The entry finds a place: in the parent's last sector, or in a free one. */
  predicate EntryPlaced(v: Vol, entry: seq<Byte>, sector: bool) {
    var parent := CreateTarget(v, entry).0;
    OnDisk(v, parent) && (sector || Size(InodeAt(v, parent)) % SECTOR_SIZE != 0)
  }

  predicate CreateSucceeds(v: Vol, entry: seq<Byte>, n: int, s: int) {
    Reaches(v, entry) && InTable(v.sb, n) && EntryPlaced(v, entry, s >= 0)
  }

  predicate AddSucceeds(v: Vol, entry: seq<Byte>, buf: seq<Byte>, n: int, s: int) {
    CreateSucceeds(v, entry, n, s) && (buf == [] || s >= 0)
  }

  /** From v to w no inode changed but the parent's, longer by one entry, and n's, which is
      a new inode with at most len bytes. */
  ghost predicate OnlyTheseGrew(v: Vol, w: Vol, parent: int, n: int, mode: U16, len: nat, s: int) {
    forall m :: Live(w, m) ==>
      || (Live(v, m) && InodeAt(w, m) == InodeAt(v, m))
      || (m == parent && Live(v, m) && Lengthened(InodeAt(v, m), InodeAt(w, m), DIRENT_SIZE, s))
      || (m == n && (InodeAt(w, m) == NewInode(mode) || Lengthened(NewInode(mode), InodeAt(w, m), len, s)))
  }

  lemma LookupOfName(v: Vol, n: int, name: seq<Byte>)
    requires n >= 0 && SLASH !in name
    ensures Lookup(v, n, name) == if name == [] then n else DirFind(v, n, name)
  {
    hide DirFind, Lookup;
    LookupIsFold(v, n, name);
    if name == [] {
      ResolveNothing(v, n);
    } else {
      NameHasNoSlash(name);
      ResolveOne(v, n, name);
    }
  }

  /** When the child is reported missing, the parent is a directory without that name. */
  lemma MissingChild(v: Vol, parent: int, rel: seq<Byte>)
    requires VolumeOk(v) && parent >= 0 && SLASH !in rel && Lookup(v, parent, rel) == ERR_NO_SUCH_FILE
    ensures rel != [] && LiveDir(v, parent) && DirOk(v, parent)
    ensures FirstMatch(DirEntries(v, parent), rel) == -1
  {
    hide DirFind, Lookup, FirstIndex, Entries, Data, InodeAt;
    LookupOfName(v, parent, rel);
    DirFindInEntries(v, parent, rel);
  }

  /** `direntv6_create` succeeds exactly when the last name is short enough, the parent
      resolves, the name is missing there, and the two searches answer; it then adds one
      entry for one new empty file. In every other case, and in every way it can fail, the
      volume stays well formed: it is unchanged, except that when only the sector search
      failed a new empty inode stays behind without an entry. */
  lemma CreateResult(v: Vol, entry: seq<Byte>, mode: U16, n: int, s: int, junk: Junk) returns (ret: int, w: Vol)
    requires VolumeOk(v) && 0 !in entry && InodeAnswer(v, n) && SectorAnswer(v, s) && RoomInParent(v, entry, s >= 0)
    ensures CreateDefined(v, entry, mode, n, s) && Create(v, entry, mode, n, s, junk) == (ret, w)
    ensures Extends(v, w)
    ensures ret >= 0 <==> CreateSucceeds(v, entry, n, s)
    ensures ret >= 0 ==>
      var parent := CreateTarget(v, entry).0;
      && ret == n
      && EntryAdded(v, w, parent, n, RelativeName(entry), mode)
      && FirstMatch(DirEntries(v, parent), RelativeName(entry)) == -1
      && (Size(InodeAt(v, parent)) % SECTOR_SIZE != 0 ==> forall t :: Unused(v, t) ==> Unused(w, t))
      && Lengthened(InodeAt(v, parent), InodeAt(w, parent), DIRENT_SIZE, s)
    ensures ret < 0 ==> w == v || (ret == ERR_BITMAP_FULL && OnlyFile(v, w, n) && Live(w, n) && InodeAt(w, n) == NewInode(mode))
    ensures if Reaches(v, entry) && InTable(v.sb, n) then NewlyLive(v, w, n) else w == v
    ensures OnlyTheseGrew(v, w, CreateTarget(v, entry).0, n, mode, 0, s)
  {
    hide InodeAt, Data, Size, Unused, WriteBytes, WriteInode, Lookup, WriteDefined, EntryRoom, FittingStays, AppendOk, FirstIndex, Entries, NewInode, Acyclic, Placed, Disjoint, RelativeName, AbsoluteName, OnlyFile, DistinctNames, Lengthened, Extends, DirDefined, LookupDefined;
    DirsDefined(v);
    var rel := RelativeName(entry);
    var (parent, child) := CreateTarget(v, entry);
    if |rel| <= DIRENT_MAXLEN && parent >= 0 && child == ERR_NO_SUCH_FILE {
      RelativeIsGood(entry);
      MissingChild(v, parent, rel);
      if n < 0 {
        ret, w := n, v;
      } else if !InTable(v.sb, n) {
        ret, w := ERR_INODE_OUT_OF_RANGE, v;
        EntryFits(Size(InodeAt(v, parent)), s);
        OutsideTable(v, mode, rel, parent, n, s, junk);
      } else {
        w := CreateDirentAddsEntry(v, mode, rel, parent, n, s, junk);
        ret := CreateDirent(v, mode, rel, parent, n, s, junk).0;
        LeafAdded(v, w, if ret >= 0 then parent else n, n, rel, mode);
        if ret >= 0 {
          EntryAddedExtends(v, w, parent, n, rel, mode);
          EntryAddedGrew(v, w, parent, n, rel, mode, s);
        } else {
          ExtendsItself(v);
          NewFileExtends(v, v, w, n);
          OneFileIsNew(v, w, n);
          OneFileGrew(v, w, parent, n, mode, 0, s);
        }
      }
    } else {
      w := v;
      ret := if |rel| > DIRENT_MAXLEN then ERR_FILENAME_TOO_LONG
             else if parent < 0 then parent
             else if child >= 0 then ERR_FILENAME_ALREADY_EXISTS else child;
    }
    if w == v {
      ExtendsItself(v);
    }
  }

  /** The parent is longer by exactly one entry. */
  ghost predicate ParentGrew(v: Vol, w: Vol, parent: int, s: int) {
    Live(v, parent) && Live(w, parent) && Lengthened(InodeAt(v, parent), InodeAt(w, parent), DIRENT_SIZE, s)
  }

  lemma EntryAddedGrew(v: Vol, w: Vol, parent: int, n: int, rel: seq<Byte>, mode: U16, s: int)
    requires EntryAdded(v, w, parent, n, rel, mode) && Lengthened(InodeAt(v, parent), InodeAt(w, parent), DIRENT_SIZE, s)
    ensures OnlyTheseGrew(v, w, parent, n, mode, 0, s) && NewlyLive(v, w, n)
  {
    hide InodeAt, FilesOk, Data, NewInode, Lengthened, OnDisk, Allocated;
  }

  lemma OneFileGrew(v: Vol, w: Vol, parent: int, n: int, mode: U16, len: nat, s: int)
    requires FilesOk(v) && FilesOk(w) && OnlyFile(v, w, n) && Live(w, n)
    requires InodeAt(w, n) == NewInode(mode) || Lengthened(NewInode(mode), InodeAt(w, n), len, s)
    ensures OnlyTheseGrew(v, w, parent, n, mode, len, s)
  {
    hide InodeAt, OnlyFile, NewInode, Lengthened, Data, Allocated;
    forall m | Live(w, m) && m != n ensures Live(v, m) && InodeAt(w, m) == InodeAt(v, m) {
      OthersKept(v, w, n, m);
    }
  }

  /** n is live now, and nothing else became live. */
  ghost predicate NewlyLive(v: Vol, w: Vol, n: int) {
    Live(w, n) && forall m :: Live(w, m) && m != n ==> Live(v, m)
  }

  lemma OneFileIsNew(v: Vol, w: Vol, n: int)
    requires FilesOk(v) && FilesOk(w) && OnlyFile(v, w, n) && Live(w, n)
    ensures NewlyLive(v, w, n)
  {
    hide InodeAt, OnlyFile, Allocated, Data;
    forall m | Live(w, m) && m != n ensures Live(v, m) {
      OthersKept(v, w, n, m);
    }
  }

  /** A number past the end of the inode table is refused before anything is written. */
  lemma OutsideTable(v: Vol, mode: U16, rel: seq<Byte>, parent: int, n: int, s: int, junk: Junk)
    requires 0 <= n < 0x1_0000 && |rel| <= DIRENT_MAXLEN && !InTable(v.sb, n)
    requires LiveDir(v, parent) && Size(InodeAt(v, parent)) % DIRENT_SIZE == 0 && WriteDefined(Size(InodeAt(v, parent)), DIRENT_SIZE, s)
    ensures ParentWriteDefined(WriteInode(v, AsInr(n), NewInode(mode)).1, parent, s)
    ensures CreateDirent(v, mode, rel, parent, n, s, junk) == (ERR_INODE_OUT_OF_RANGE, v)
  {
    hide InodeAt, Size, WriteDefined;
  }

  lemma RelativeIsGood(entry: seq<Byte>)
    requires 0 !in entry
    ensures SLASH !in RelativeName(entry)
    ensures RelativeName(entry) != [] ==> GoodName(RelativeName(entry))
  {
    hide RelativeName;
    var rel := RelativeName(entry);
    RelativeNameIsSuffix(entry);
    forall c | c in rel ensures c != 0 && c != SLASH {
      var j :| 0 <= j < |rel| && rel[j] == c;
      assert rel[j] == entry[|entry| - |rel| + j];
    }
  }

  /** The two outcomes of `create_dirent` add a leaf. */
  lemma LeafAdded(v: Vol, w: Vol, parent: int, n: int, rel: seq<Byte>, mode: U16)
    requires VolumeOk(v) && FilesOk(w) && 0 <= n < 0x1_0000 && !Live(v, n)
    requires parent == n ==> OnlyFile(v, w, n) && Live(w, n) && InodeAt(w, n) == NewInode(mode)
    requires parent != n ==>
      EntryAdded(v, w, parent, n, rel, mode) && DirOk(v, parent) && FirstMatch(DirEntries(v, parent), rel) == -1
    ensures VolumeOk(w)
    ensures parent != n ==> DirEntries(w, parent) == DirEntries(v, parent) + [Dirent(n, rel)] && DirEntries(w, n) == []
  {
    hide InodeAt, Size, FirstIndex, Acyclic, Placed, Disjoint, EncodeDirent, DecodeDirent, Content, SameSectors;
    if parent == n {
      forall m ensures m != n ==> (Live(w, m) <==> Live(v, m))
        ensures Live(v, m) && m != n ==> InodeAt(w, m) == InodeAt(v, m) && Data(w, m) == Data(v, m)
      {
        if m != n {
          OthersKept(v, w, n, m);
        }
      }
    } else {
      EntriesAppend(Data(v, parent), Dirent(n, rel));
    }
    LeafKeepsVolume(v, w, parent, n, rel);
  }

  // ---------------------------------------------------------------- paths after a creation

  /** Directory searches after an entry was added: only the new name has a new answer. */
  lemma DirFindAfterAdd(v: Vol, w: Vol, parent: int, child: int, rel: seq<Byte>, mode: U16, n: int, name: seq<Byte>)
    requires VolumeOk(v) && VolumeOk(w) && EntryAdded(v, w, parent, child, rel, mode)
    requires FirstMatch(DirEntries(v, parent), rel) == -1
    ensures n == parent && name == rel ==> DirFind(w, n, name) == child && DirFind(v, n, name) < 0
    ensures !(n == parent && name == rel) ==>
      if DirFind(v, n, name) >= 0 then DirFind(w, n, name) == DirFind(v, n, name) else DirFind(w, n, name) < 0
    ensures DirFind(v, n, name) >= 0 ==> DirFind(v, n, name) != child
    ensures n == child ==> DirFind(w, n, name) < 0
  {
    hide InodeAt, Size, FirstIndex, Acyclic, FilesOk, Data, DirFind, NewInode, Entries, DistinctNames, Allocated, OnDisk;
    DirFindInEntries(v, n, name);
    DirFindInEntries(w, n, name);
    LeafAdded(v, w, parent, child, rel, mode);
    assert DirOk(v, parent);
    if n == parent {
      FirstMatchAppend(DirEntries(v, n), Dirent(child, rel), name);
    }
    if DirFind(v, n, name) >= 0 {
      assert DirOk(v, n);
      MatchIsEntry(DirEntries(v, n), name);
    }
    MatchIsEntry([], name);
    if LiveDir(w, n) && n != child {
      assert LiveDir(v, n);
    }
  }

  lemma MatchIsEntry(es: seq<Dirent>, name: seq<Byte>)
    ensures FirstMatch(es, name) != -1 ==> exists e :: e in es && e.inr == FirstMatch(es, name)
    ensures es == [] ==> FirstMatch(es, name) == -1
  {
    var k := FirstIndex(es, name);
    if k < |es| {
      assert es[k] in es;
    }
  }

  /** All paths after the creation: those that resolved resolve to the same inode, and the
      only new ones are those that reach the parent and then take the new name. */
  lemma {:induction false} ResolveAfterAdd(v: Vol, w: Vol, parent: int, child: int, rel: seq<Byte>, mode: U16, n: int, cs: seq<seq<Byte>>)
    requires VolumeOk(v) && VolumeOk(w) && EntryAdded(v, w, parent, child, rel, mode)
    requires FirstMatch(DirEntries(v, parent), rel) == -1
    requires n >= 0 && n != child
    ensures if Resolve(v, n, cs) >= 0 then Resolve(w, n, cs) == Resolve(v, n, cs)
      else if cs != [] && cs[|cs| - 1] == rel && Resolve(v, n, cs[..|cs| - 1]) == parent then Resolve(w, n, cs) == child
      else Resolve(w, n, cs) < 0
    decreases |cs|
  {
    hide DirFind, VolumeOk, DirEntries, FirstMatch, InodeAt, FilesOk;
    if cs != [] {
      assert parent >= 0 && child >= 0;
      assert |cs| > 1 ==> cs[..|cs| - 1][0] == cs[0];
      var r, rest := DirFind(v, n, cs[0]), cs[1..];
      DirFindAfterAdd(v, w, parent, child, rel, mode, n, cs[0]);
      if r >= 0 {
        ResolveAfterAdd(v, w, parent, child, rel, mode, r, rest);
        if rest != [] {
          assert cs[..|cs| - 1][1..] == rest[..|rest| - 1];
        }
      } else if n == parent && cs[0] == rel && rest != [] {
        DirFindAfterAdd(v, w, parent, child, rel, mode, child, rest[0]);
      }
    }
  }

  lemma AddedPath(v: Vol, w: Vol, parent: int, child: int, rel: seq<Byte>, mode: U16, path: seq<Byte>)
    requires VolumeOk(v) && VolumeOk(w) && EntryAdded(v, w, parent, child, rel, mode)
    requires FirstMatch(DirEntries(v, parent), rel) == -1
    ensures Lookup(v, ROOT_INUMBER, path) >= 0 ==> Lookup(w, ROOT_INUMBER, path) == Lookup(v, ROOT_INUMBER, path)
    ensures Lookup(v, ROOT_INUMBER, path) < 0 && Lookup(w, ROOT_INUMBER, path) >= 0 ==>
      var cs := Components(path);
      && Lookup(w, ROOT_INUMBER, path) == child && TrailingSlashes(path) == 0
      && cs != [] && cs[|cs| - 1] == rel && Resolve(v, ROOT_INUMBER, cs[..|cs| - 1]) == parent
  {
    hide Lookup, Resolve, Components, TrailingSlashes, InodeAt, Data, DirEntries, FirstMatch, FilesOk, Acyclic, DirOk;
    LookupIsFold(v, ROOT_INUMBER, path);
    LookupIsFold(w, ROOT_INUMBER, path);
    ResolveAfterAdd(v, w, parent, child, rel, mode, ROOT_INUMBER, Components(path));
  }

  /** Create, then look up: the new path leads to the new inode, every path that resolved
      leads where it led, no path but the new one (however its slashes are written) starts
      to resolve, and no other file changed. */
  lemma CreateThenLookup(v: Vol, entry: seq<Byte>, mode: U16, n: int, s: int, junk: Junk, path: seq<Byte>)
    requires VolumeOk(v) && 0 !in entry && InodeAnswer(v, n) && SectorAnswer(v, s) && RoomInParent(v, entry, s >= 0)
    requires CreateDefined(v, entry, mode, n, s) && Create(v, entry, mode, n, s, junk).0 >= 0
    ensures var (ret, w) := Create(v, entry, mode, n, s, junk);
      && Lookup(w, ROOT_INUMBER, entry) == ret
      && Live(w, ret) && InodeAt(w, ret) == NewInode(mode)
      && Lookup(v, ROOT_INUMBER, entry) == ERR_NO_SUCH_FILE
      && (Lookup(v, ROOT_INUMBER, path) >= 0 ==> Lookup(w, ROOT_INUMBER, path) == Lookup(v, ROOT_INUMBER, path))
      && (Lookup(v, ROOT_INUMBER, path) < 0 && Lookup(w, ROOT_INUMBER, path) >= 0 ==>
           && Lookup(w, ROOT_INUMBER, path) == ret
           && TrailingSlashes(path) == 0
           && Components(path) != []
           && Components(path)[|Components(path)| - 1] == RelativeName(entry)
           && Resolve(v, ROOT_INUMBER, Components(path)[..|Components(path)| - 1]) == CreateTarget(v, entry).0)
    ensures var (ret, w) := Create(v, entry, mode, n, s, junk);
      FilesOk(w) && forall m :: Live(v, m) && m != CreateTarget(v, entry).0 ==>
        Live(w, m) && InodeAt(w, m) == InodeAt(v, m) && Data(w, m) == Data(v, m)
  {
    hide Lookup, Resolve, Components, TrailingSlashes, RelativeName, AbsoluteName, InodeAt, Data, Create, DirOk, Acyclic, FirstMatch, CreateDefined, InodeAnswer, SectorAnswer, NewInode;
    var ret, w := CreateResult(v, entry, mode, n, s, junk);
    var parent, rel := CreateTarget(v, entry).0, RelativeName(entry);
    MissingChild(v, parent, rel);
    LookupOfSplit(v, ROOT_INUMBER, entry);
    LookupOfSplit(w, ROOT_INUMBER, entry);
    AddedPath(v, w, parent, n, rel, mode, AbsoluteName(entry));
    AddedPath(v, w, parent, n, rel, mode, path);
    DirFindAfterAdd(v, w, parent, n, rel, mode, parent, rel);
  }

  // ---------------------------------------------------------------- adding a file with content

  /** Where `direntv6_addfile` works: a file shorter than a sector, and, unless it is empty,
      a parent whose last sector still has room for the entry. */
  predicate AddIsSound(parentSize: nat, len: nat) {
    len == 0 || (parentSize % SECTOR_SIZE != 0 && len < SECTOR_SIZE)
  }

  /** The same, for the parent that path `entry` names. */
  ghost predicate AddHandled(v: Vol, entry: seq<Byte>, buf: seq<Byte>) {
    var parent := CreateTarget(v, entry).0;
    OnDisk(v, parent) ==> AddIsSound(Size(InodeAt(v, parent)), |buf|)
  }

  /** The first block read from file n is the boot sector. */
  ghost predicate StartsWithBootSector(v: Vol, w: Vol, n: int) {
    OnDisk(w, n) && |v.disk| > 0 && ReadStep(w.disk, InodeAt(w, n), 0).1 == v.disk[BOOTBLOCK_SECTOR]
  }

  /** Giving content to a file that is not a directory keeps the hierarchy. */
  lemma ContentKeepsVolume(v: Vol, w: Vol, n: int)
    requires VolumeOk(v) && FilesOk(w) && OnlyFile(v, w, n)
    requires Live(v, n) && Live(w, n) && InodeAt(w, n).mode == InodeAt(v, n).mode && !IsDir(InodeAt(v, n))
    ensures VolumeOk(w)
    ensures forall m :: (Live(w, m) <==> Live(v, m)) && (Live(v, m) && m != n ==> InodeAt(w, m) == InodeAt(v, m) && Data(w, m) == Data(v, m))
  {
    hide InodeAt, FilesOk, Data, Size, OnDisk, Entries, Allocated, OnlyFile;
    forall m ensures Live(w, m) <==> Live(v, m)
      ensures Live(v, m) && m != n ==> InodeAt(w, m) == InodeAt(v, m) && Data(w, m) == Data(v, m)
    {
      if m != n {
        OthersKept(v, w, n, m);
      }
    }
    forall m | LiveDir(w, m) ensures DirOk(w, m) {
      assert DirOk(v, m);
    }
    var rank :| Ranked(v, rank);
    OnlyFileKeepsSuperblock(v, w, n);
    assert Ranked(w, rank);
  }

  lemma OnlyFileKeepsHead(v: Vol, w: Vol, n: int)
    requires FilesOk(v) && OnlyFile(v, w, n)
    ensures KeepsHead(v, w)
  {
    hide InodeAt, SameSectors, Placed, Disjoint;
  }

  lemma ExtendsKeepsHead(v: Vol, w: Vol)
    requires Extends(v, w)
    ensures KeepsHead(v, w) && VolumeOk(v) && VolumeOk(w)
  {
    hide InodeAt, Data, DirOk, Acyclic, Placed, Disjoint;
  }

  lemma OnlyFileKeepsSuperblock(v: Vol, w: Vol, n: int)
    requires OnlyFile(v, w, n)
    ensures w.sb == v.sb
  {
  }

  lemma {:induction false} ResolveKept(v: Vol, w: Vol, n: int, start: int, cs: seq<seq<Byte>>)
    requires VolumeOk(v) && VolumeOk(w) && start >= 0
    requires !LiveDir(v, n)
    requires forall m :: (Live(w, m) <==> Live(v, m)) && (Live(v, m) && m != n ==> InodeAt(w, m) == InodeAt(v, m) && Data(w, m) == Data(v, m))
    requires !LiveDir(w, n)
    ensures if Resolve(v, start, cs) >= 0 then Resolve(w, start, cs) == Resolve(v, start, cs) else Resolve(w, start, cs) < 0
    decreases |cs|
  {
    hide InodeAt, FilesOk, Data, DirFind, Entries, FirstMatch, Allocated, OnDisk, Acyclic, DirOk;
    if cs != [] {
      DirFindInEntries(v, start, cs[0]);
      DirFindInEntries(w, start, cs[0]);
      var r := DirFind(v, start, cs[0]);
      if r >= 0 {
        ResolveKept(v, w, n, r, cs[1..]);
      }
    }
  }

  /** The bytes go into the empty file that creation left: sound case. */
  lemma FillNewFile(v: Vol, n: int, mode: U16, buf: seq<Byte>, s: int, junk: Junk) returns (w: Vol)
    requires VolumeOk(v) && Live(v, n) && InodeAt(v, n) == NewInode(mode) && Data(v, n) == [] && !IsDirMode(mode)
    requires |buf| < SECTOR_SIZE && (buf != [] ==> Unused(v, s))
    ensures VolumeOk(w) && OnlyFile(v, w, n) && Live(w, n) && !IsDir(InodeAt(w, n)) && Data(w, n) == buf && KeepsHead(v, w)
    ensures WriteBytes(v, n, NewInode(mode), buf, s, junk) == (ERR_NONE, w, InodeAt(w, n))
    ensures Lengthened(NewInode(mode), InodeAt(w, n), |buf|, s)
  {
    hide InodeAt, FilesOk, Data, OnDisk, OnlyFile, WriteBytes, Unused, NewInode;
    w := AppendBytes(v, n, buf, s, junk);
    assert Data(v, n) + buf == buf;
    ContentKeepsVolume(v, w, n);
    OnlyFileKeepsHead(v, w, n);
  }

  /** A whole sector or more: block 0 of the new file stays sector 0, the boot sector. */
  lemma FillTooMuch(v: Vol, n: int, mode: U16, buf: seq<Byte>, s: int, junk: Junk) returns (w: Vol)
    requires FilesOk(v) && Live(v, n) && InodeAt(v, n) == NewInode(mode)
    requires SECTOR_SIZE <= |buf| < 4096 && s >= v.sb.blockStart
    ensures !FilesOk(w) && Live(w, n) && Size(InodeAt(w, n)) == |buf| && KeepsHead(v, w)
    ensures FindSector(w.disk, InodeAt(w, n), 0) == 0 && w.disk[0] == v.disk[0]
    ensures WriteBytes(v, n, NewInode(mode), buf, s, junk) == (ERR_NONE, w, InodeAt(w, n))
  {
    hide InodeAt, FindSector, Size, WriteBytes, Disjoint, UsesSlot;
    w := SpillKeepsStaleSlot(v, n, buf, s, junk);
  }

  /** The entry took the free sector and the file is given the same one again. */
  lemma FillSharesSector(v: Vol, n: int, mode: U16, buf: seq<Byte>, s: int, junk: Junk, parent: int, b: nat) returns (w: Vol)
    requires FilesOk(v) && Live(v, n) && InodeAt(v, n) == NewInode(mode) && v.sb.blockStart <= s < 0x1_0000
    requires 0 < |buf| < SECTOR_SIZE && parent != n
    requires Live(v, parent) && Size(InodeAt(v, parent)) < 4096 && b < Blocks(InodeAt(v, parent)) && b < ADDR_SMALL_LENGTH
    requires InodeAt(v, parent).addr[b] == s
    ensures !FilesOk(w) && Live(w, n) && KeepsHead(v, w)
    ensures WriteBytes(v, n, NewInode(mode), buf, s, junk) == (ERR_NONE, w, InodeAt(w, n))
  {
    hide InodeAt, FindSector, Size, WriteSector, Placed;
    var data, i' := OneSectorWrite(v, n, NewInode(mode), buf, 0, s, junk);
    OneChunk(v, n, NewInode(mode), buf, 0, s, junk);
    w := PutBoth(v, s, data, n, i');
    var i, j := InodeAt(w, n), InodeAt(w, parent);
    DirectSlots(w.disk, i, 0);
    DirectSlots(w.disk, j, b);
    assert UsesSlot(i, 0) && UsesSlot(j, b) && Slot(w.disk, i, 0) == s == Slot(w.disk, j, b);
    assert Live(w, n) && Live(w, parent);
  }

  /** No sector at all: nothing is written. */
  lemma FillFails(v: Vol, n: int, mode: U16, buf: seq<Byte>, junk: Junk)
    requires buf != []
    ensures WriteBytes(v, n, NewInode(mode), buf, ERR_BITMAP_FULL, junk) == (ERR_BITMAP_FULL, v, NewInode(mode))
  {
  }

  /** The second half of `direntv6_addfile`, after its creation half went through. */
  lemma FillOutcome(v: Vol, v1: Vol, parent: int, rel: seq<Byte>, mode: U16, buf: seq<Byte>, n: int, s: int, junk: Junk)
    returns (c: int, w: Vol)
    requires VolumeOk(v) && VolumeOk(v1) && EntryAdded(v, v1, parent, n, rel, mode)
    requires SectorAnswer(v, s) && (|buf| < 4096 || s < 0) && !IsDirMode(mode)
    requires Size(InodeAt(v, parent)) % SECTOR_SIZE != 0 ==> forall t :: Unused(v, t) ==> Unused(v1, t)
    requires Lengthened(InodeAt(v, parent), InodeAt(v1, parent), DIRENT_SIZE, s)
    ensures WriteBytes(v1, n, NewInode(mode), buf, s, junk).0 == c && WriteBytes(v1, n, NewInode(mode), buf, s, junk).1 == w
    ensures c == (if buf == [] || s >= 0 then ERR_NONE else ERR_BITMAP_FULL) && (c < 0 ==> w == v1) && (c == 0 ==> Live(w, n)) && KeepsHead(v1, w)
    ensures c == 0 ==> (VolumeOk(w) <==> AddIsSound(Size(InodeAt(v, parent)), |buf|))
    ensures c == 0 && VolumeOk(w) ==>
      OnlyFile(v1, w, n) && Live(w, n) && !IsDir(InodeAt(w, n)) && Data(w, n) == buf && Lengthened(NewInode(mode), InodeAt(w, n), |buf|, s)
    ensures c == 0 && |buf| >= SECTOR_SIZE ==>
      Live(w, n) && Size(InodeAt(w, n)) == |buf| && FindSector(w.disk, InodeAt(w, n), 0) == 0 && w.disk[0] == v1.disk[0]
  {
    hide InodeAt, FindSector, WriteBytes, NewInode, Placed, Disjoint, DirOk, Acyclic, Grown, OnlyFile;
    assert Data(v1, n) == [];
    var size := Size(InodeAt(v, parent));
    if s < 0 && buf != [] {
      FillFails(v1, n, mode, buf, junk);
      c, w := ERR_BITMAP_FULL, v1;
    } else {
      c := 0;
      if AddIsSound(size, |buf|) {
        w := FillNewFile(v1, n, mode, buf, s, junk);
      } else if |buf| >= SECTOR_SIZE {
        w := FillTooMuch(v1, n, mode, buf, s, junk);
      } else {
        w := FillSharesSector(v1, n, mode, buf, s, junk, parent, size / SECTOR_SIZE);
      }
    }
  }

  /** Add a file, then read it back. A successful `direntv6_addfile` of fewer than 4096
      bytes leaves a well-formed volume exactly when the new file is empty, or is shorter
      than a sector and its parent's last sector had room for the entry. Then the path leads
      to the file, reading it to the end yields exactly the bytes added, and every other
      file but the parent is unchanged. With a sector or more, reading the file starts with
      the boot sector instead. */
  lemma AddThenReadBack(v: Vol, entry: seq<Byte>, mode: U16, buf: seq<Byte>, n: int, s: int, junk: Junk, junk': Junk)
    returns (ret: int, w: Vol)
    requires VolumeOk(v) && 0 !in entry && InodeAnswer(v, n) && SectorAnswer(v, s) && RoomInParent(v, entry, s >= 0)
    requires (|buf| < 4096 || s < 0 || !Reaches(v, entry)) && !IsDirMode(mode)
    ensures AddDefined(v, entry, mode, buf, n, s, junk) && AddFile(v, entry, mode, buf, n, s, junk, junk') == (ret, w)
    ensures ret == ERR_NONE <==> AddSucceeds(v, entry, buf, n, s)
    ensures var c := Create(v, entry, mode, n, s, junk).0;
      ret == if c < 0 then c else if buf == [] || s >= 0 then ERR_NONE else ERR_BITMAP_FULL
    ensures ret == ERR_NONE && VolumeOk(w) ==> Live(w, n) && Lengthened(NewInode(mode), InodeAt(w, n), |buf|, s)
    ensures KeepsHead(v, w) && (ret != ERR_NONE ==> ret < 0 && VolumeOk(w))
    ensures if Reaches(v, entry) && InTable(v.sb, n) then VolumeOk(w) ==> NewlyLive(v, w, n) else w == v
    ensures VolumeOk(w) ==> Extends(v, w) && OnlyTheseGrew(v, w, CreateTarget(v, entry).0, n, mode, |buf|, s)
    ensures VolumeOk(w) && CreateSucceeds(v, entry, n, s) ==> ParentGrew(v, w, CreateTarget(v, entry).0, s)
    ensures ret == ERR_NONE ==> (VolumeOk(w) <==> AddHandled(v, entry, buf))
    ensures ret == ERR_NONE && VolumeOk(w) ==> AddedFile(v, w, entry, n, buf)
    ensures ret == ERR_NONE && |buf| >= SECTOR_SIZE ==> StartsWithBootSector(v, w, n)
  {
    hide InodeAt, FilesOk, Data, FindSector, Lookup, Create, WriteBytes, Unused, NewInode, FirstMatch, CreateDefined, Acyclic, DirEntries, DirOk, Resolve, RelativeName, AbsoluteName, ReadFrom, EntryRoom, OnlyFile, Size, AddIsSound, AddedFile, EntryAdded, NewlyLive, Extends, OnlyTheseGrew, Lengthened, EntryPlaced;
    var c, v1 := CreateResult(v, entry, mode, n, s, junk);
    ret, w := c, v1;
    ExtendsKeepsHead(v, v1);
    NothingMoreGrew(v, v1, CreateTarget(v, entry).0, n, mode, |buf|, s);
    if c >= 0 {
      var parent := CreateTarget(v, entry).0;
      NewFileInode(v, v1, parent, n, RelativeName(entry), mode);
      ret, w := FillOutcome(v, v1, parent, RelativeName(entry), mode, buf, n, s, junk');
      if ret == 0 && VolumeOk(w) {
        RelativeIsGood(entry);
        MissingChild(v, parent, RelativeName(entry));
        AddedFileReads(v, v1, w, parent, n, entry, mode, buf);
        NewFileExtends(v, v1, w, n);
        StillNewlyLive(v, v1, w, n);
      }
      if ret == 0 && VolumeOk(w) {
        StillGrew(v, v1, w, parent, n, mode, |buf|, s);
        OthersKept(v1, w, n, parent);
      }
      if ret == 0 && |buf| >= SECTOR_SIZE {
        FirstBlockRead(w.disk, InodeAt(w, n));
      }
    }
  }

  lemma NothingMoreGrew(v: Vol, w: Vol, parent: int, n: int, mode: U16, len: nat, s: int)
    requires OnlyTheseGrew(v, w, parent, n, mode, 0, s)
    ensures OnlyTheseGrew(v, w, parent, n, mode, len, s)
  {
    hide InodeAt, Resized, Grown;
  }

  lemma StillGrew(v: Vol, v1: Vol, w: Vol, parent: int, n: int, mode: U16, len: nat, s: int)
    requires FilesOk(v1) && FilesOk(w) && OnlyTheseGrew(v, v1, parent, n, mode, 0, s) && Live(v1, n) && InodeAt(v1, n) == NewInode(mode)
    requires w == v1 || (OnlyFile(v1, w, n) && Lengthened(NewInode(mode), InodeAt(w, n), len, s) && Live(w, n))
    ensures OnlyTheseGrew(v, w, parent, n, mode, len, s)
  {
    hide InodeAt, OnlyFile, NewInode, Lengthened, Data, Allocated;
    forall m | Live(w, m) && m != n ensures Live(v1, m) && InodeAt(w, m) == InodeAt(v1, m) {
      if w != v1 {
        OthersKept(v1, w, n, m);
      }
    }
  }

  lemma StillNewlyLive(v: Vol, v1: Vol, w: Vol, n: int)
    requires FilesOk(v1) && FilesOk(w) && OnlyFile(v1, w, n) && Live(w, n)
    requires v1 == v || NewlyLive(v, v1, n)
    ensures NewlyLive(v, w, n)
  {
    OneFileIsNew(v1, w, n);
  }

  lemma NewFileInode(v: Vol, w: Vol, parent: int, n: int, rel: seq<Byte>, mode: U16)
    requires EntryAdded(v, w, parent, n, rel, mode)
    ensures OnDisk(w, n) && ReadInode(w, n) == (ERR_NONE, NewInode(mode)) && LiveDir(v, parent) && LiveDir(w, parent) && n != parent
    ensures |w.disk| > 0 && |v.disk| > 0 && w.disk[0] == v.disk[0] && Size(NewInode(mode)) == 0
  {
    hide InodeAt, NewInode;
  }

  lemma FirstBlockRead(d: Disk, i: Inode)
    requires FindSector(d, i, 0) == 0 && |d| > 0 && Size(i) >= SECTOR_SIZE
    ensures ReadStep(d, i, 0).1 == d[0]
  {
    hide FindSector, Size;
    assert d[0][..SECTOR_SIZE] == d[0];
  }

  /** The path leads to inode n, a file with exactly these bytes. */
  ghost predicate HoldsFile(v: Vol, entry: seq<Byte>, n: int, buf: seq<Byte>) {
    FilesOk(v) && Lookup(v, ROOT_INUMBER, entry) == n && Live(v, n) && !IsDir(InodeAt(v, n)) && Data(v, n) == buf
  }

  /** The path leads to inode n, reading it gives buf, and no file but the parent changed. */
  ghost predicate AddedFile(v: Vol, w: Vol, entry: seq<Byte>, n: int, buf: seq<Byte>) {
    && FilesOk(v) && HoldsFile(w, entry, n, buf)
    && ReadInode(w, n).0 == ERR_NONE
    && ReadFrom(w.disk, ReadInode(w, n).1, 0) == Stream(buf, 0)
    && forall m :: Live(v, m) && m != CreateTarget(v, entry).0 ==>
      Live(w, m) && InodeAt(w, m) == InodeAt(v, m) && Data(w, m) == Data(v, m)
  }

  lemma AddedFileReads(v: Vol, v1: Vol, w: Vol, parent: int, n: int, entry: seq<Byte>, mode: U16, buf: seq<Byte>)
    requires VolumeOk(v) && VolumeOk(v1) && VolumeOk(w) && OnlyFile(v1, w, n)
    requires EntryAdded(v, v1, parent, n, RelativeName(entry), mode) && FirstMatch(DirEntries(v, parent), RelativeName(entry)) == -1
    requires parent == Lookup(v, ROOT_INUMBER, AbsoluteName(entry)) && RelativeName(entry) != [] && !IsDirMode(mode)
    requires Live(w, n) && !IsDir(InodeAt(w, n)) && Data(w, n) == buf
    ensures AddedFile(v, w, entry, n, buf)
  {
    hide InodeAt, FilesOk, FindSector, Lookup, NewInode, FirstMatch, Acyclic, DirEntries, DirOk, Resolve, RelativeName, AbsoluteName, OnlyFile, Size, Components, Content, TrailingSlashes;
    forall m ensures Live(w, m) <==> Live(v1, m)
      ensures Live(v1, m) && m != n ==> InodeAt(w, m) == InodeAt(v1, m) && Data(w, m) == Data(v1, m)
    {
      if m != n {
        OthersKept(v1, w, n, m);
      }
    }
    LiveFilesReadable(w, n);
    StreamIsContent(w.disk, InodeAt(w, n), 0);
    assert Data(w, n)[0..] == Data(w, n);
    SplitComponents(entry);
    LookupIsFold(v, ROOT_INUMBER, AbsoluteName(entry));
    LookupIsFold(w, ROOT_INUMBER, entry);
    var cs := Components(entry);
    ResolveAfterAdd(v, v1, parent, n, RelativeName(entry), mode, ROOT_INUMBER, cs);
    assert cs[..|cs| - 1] == Components(AbsoluteName(entry));
    ResolveConcat(v, ROOT_INUMBER, Components(AbsoluteName(entry)), [RelativeName(entry)]);
    ResolveOne(v, parent, RelativeName(entry));
    DirFindInEntries(v, parent, RelativeName(entry));
    ResolveKept(v1, w, n, ROOT_INUMBER, cs);
  }

  // ---------------------------------------------------------------- what only ever grows

  /** From v to w nothing was lost: every live file is still there, regular files with the
      same bytes, directories with the same entries and perhaps more behind them. */
  ghost predicate Extends(v: Vol, w: Vol) {
    && VolumeOk(v) && VolumeOk(w) && w.sb == v.sb
    && |v.disk| <= |w.disk| && (forall k :: 0 <= k < v.sb.inodeStart ==> w.disk[k] == v.disk[k])
    && forall n :: Live(v, n) ==>
      && Live(w, n) && (IsDir(InodeAt(w, n)) <==> IsDir(InodeAt(v, n)))
      && Data(v, n) <= Data(w, n)
      && (!IsDir(InodeAt(v, n)) ==> Data(w, n) == Data(v, n))
  }

  lemma ExtendsItself(v: Vol)
    requires VolumeOk(v)
    ensures Extends(v, v)
  {
    hide InodeAt, FilesOk, Data, OnDisk, DirOk, Acyclic;
  }

  lemma ExtendsTwice(u: Vol, v: Vol, w: Vol)
    requires Extends(u, v) && Extends(v, w)
    ensures Extends(u, w)
  {
    hide InodeAt, FilesOk, Data, OnDisk, DirOk, Acyclic, Allocated;
    forall n | Live(u, n)
      ensures Live(w, n) && (IsDir(InodeAt(w, n)) <==> IsDir(InodeAt(u, n))) && Data(u, n) <= Data(w, n)
      ensures !IsDir(InodeAt(u, n)) ==> Data(w, n) == Data(u, n)
    {
      assert Live(v, n);
      assert Data(u, n) <= Data(v, n) <= Data(w, n);
    }
  }

  lemma EntryAddedExtends(v: Vol, w: Vol, parent: int, child: int, rel: seq<Byte>, mode: U16)
    requires VolumeOk(v) && VolumeOk(w) && EntryAdded(v, w, parent, child, rel, mode)
    ensures Extends(v, w)
  {
    hide InodeAt, FilesOk, Data, OnDisk, DirOk, Acyclic, Allocated, EncodeDirent, NewInode;
  }

  /** A new file on its own, with whatever content. */
  lemma NewFileExtends(v: Vol, v1: Vol, w: Vol, n: int)
    requires Extends(v, v1) && VolumeOk(w) && OnlyFile(v1, w, n) && !Live(v, n)
    ensures Extends(v, w)
  {
    hide InodeAt, Data, OnDisk, DirOk, Acyclic, Allocated, Placed, Disjoint;
    forall m | Live(v, m)
      ensures Live(w, m) && (IsDir(InodeAt(w, m)) <==> IsDir(InodeAt(v, m))) && Data(v, m) <= Data(w, m)
      ensures !IsDir(InodeAt(v, m)) ==> Data(w, m) == Data(v, m)
    {
      assert Live(v1, m);
      OthersKept(v1, w, n, m);
    }
  }

  lemma PrefixMatch(es: seq<Dirent>, fs: seq<Dirent>, name: seq<Byte>)
    requires es <= fs && FirstMatch(es, name) != -1
    ensures FirstMatch(fs, name) == FirstMatch(es, name)
  {
    var k, m := FirstIndex(es, name), FirstIndex(fs, name);
    assert forall j :: 0 <= j < |es| ==> fs[j] == es[j];
    assert fs[k].name == name;
  }

  lemma DirectoriesOnlyGrow(v: Vol, w: Vol, n: int)
    requires Extends(v, w) && LiveDir(v, n)
    ensures LiveDir(w, n) && DirEntries(v, n) <= DirEntries(w, n)
  {
    hide InodeAt, FilesOk, OnDisk, Acyclic, Allocated, DecodeDirent, DistinctNames, Content;
    assert DirOk(v, n);
    var a, b := Data(v, n), Data(w, n);
    assert b == a + b[|a|..];
    EntriesConcat(a, b[|a|..]);
  }

  /** Paths keep leading where they led. */
  lemma {:induction false} ResolveGrows(v: Vol, w: Vol, n: int, cs: seq<seq<Byte>>)
    requires Extends(v, w) && n >= 0 && Resolve(v, n, cs) >= 0
    ensures Resolve(w, n, cs) == Resolve(v, n, cs)
    decreases |cs|
  {
    hide DirFind, DirEntries, FirstMatch, VolumeOk, Extends, InodeAt;
    if cs != [] {
      ExtendedAreOk(v, w);
      DirFindInEntries(v, n, cs[0]);
      DirFindInEntries(w, n, cs[0]);
      DirectoriesOnlyGrow(v, w, n);
      PrefixMatch(DirEntries(v, n), DirEntries(w, n), cs[0]);
      ResolveGrows(v, w, DirFind(v, n, cs[0]), cs[1..]);
    }
  }

  lemma ExtendedAreOk(v: Vol, w: Vol)
    requires Extends(v, w)
    ensures FilesOk(v) && FilesOk(w)
  {
  }

  lemma LookupGrows(v: Vol, w: Vol, path: seq<Byte>)
    requires Extends(v, w) && Lookup(v, ROOT_INUMBER, path) >= 0
    ensures Lookup(w, ROOT_INUMBER, path) == Lookup(v, ROOT_INUMBER, path)
  {
    hide Lookup, Resolve, Components, TrailingSlashes, Extends;
    LookupIsFold(v, ROOT_INUMBER, path);
    LookupIsFold(w, ROOT_INUMBER, path);
    ResolveGrows(v, w, ROOT_INUMBER, Components(path));
  }
}
