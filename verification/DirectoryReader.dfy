/** direntv6.c in place: the sector-cached reader, path lookup and the tree listing. */
module DirectoryReaders {
  import opened Unixv6fs
  import opened Inodes
  import opened Filesystem
  import opened OpenFiles
  import Files
  import Directories
  import Trees

  type Dirent = Directories.Dirent

  class DirectoryReader {
    const fv6: FileV6
    const dirs: array<Byte>
    var cur: int
    var last: int

    constructor (u: UnixFs)
      ensures fresh(fv6) && fresh(dirs) && fv6.u == u && dirs.Length == SECTOR_SIZE
    {
      fv6 := new FileV6(u);
      dirs := new Byte[SECTOR_SIZE](_ => 0);
      cur, last := 0, 0;
    }

    ghost predicate Ready()
      reads this, fv6
    {
      && dirs.Length == SECTOR_SIZE
      && 0 <= cur <= last <= SECTOR_SIZE / DIRENT_SIZE
      && Files.AtBlock(fv6.iNode, fv6.offset)
      && Directories.ReaderDefined(fv6.iNode)
    }

    /** The entries still to come: those cached, then those of the blocks not yet read. */
    ghost function Remaining(): seq<Dirent>
      requires Ready()
      reads this, fv6, fv6.u, dirs
    {
      Directories.Entries(dirs[DIRENT_SIZE * cur..DIRENT_SIZE * last]) +
      Directories.Entries(Files.ReadFrom(fv6.u.f, fv6.iNode, fv6.offset).data)
    }

    /** What the reader answers when they are used up. */
    ghost function End(): (c: int)
      requires Ready()
      reads this, fv6, fv6.u
      ensures c <= 0
    {
      Files.ReadFrom(fv6.u.f, fv6.iNode, fv6.offset).code
    }

    /** `direntv6_opendir` */
    method OpenDir(inr: U16) returns (ret: int)
      requires dirs.Length == SECTOR_SIZE
      modifies this, fv6
      ensures ret == Directories.OpenDir(fv6.u.Volume(), inr).0
      ensures ret == ERR_NONE && Directories.DirDefined(fv6.u.Volume(), inr) ==> Ready() && (Remaining(), End()) == Trees.RawEntries(fv6.u.Volume(), inr)
    {
      hide Size, FindSector, InodeAt, Files.ReadFrom, Directories.DecodeDirent;
      ret := fv6.Open(inr);
      if ret < 0 {
        return;
      }
      if !IsDir(fv6.iNode) {
        return ERR_INVALID_DIRECTORY_INODE;
      }
      cur, last := 0, 0;
      assert fv6.iNode == Directories.OpenDir(fv6.u.Volume(), inr).1;
      NoEntries(dirs[0..0]);
      assert Ready() ==> Remaining() == Trees.RawEntries(fv6.u.Volume(), inr).0;
      return ERR_NONE;
    }

    /** The cache is used up: fetch the next block. */
    method Fetch() returns (ret: int)
      requires Ready() && cur == last
      modifies this, fv6`offset, dirs
      ensures Ready() && fv6.iNode == old(fv6.iNode) && End() == old(End()) && Remaining() == old(Remaining())
      ensures ret == Files.ReadStep(fv6.u.f, fv6.iNode, old(fv6.offset)).0
      ensures fv6.offset == Files.ReadStep(fv6.u.f, fv6.iNode, old(fv6.offset)).2
      ensures ret > 0 ==> cur < last
      ensures ret <= 0 ==> cur == last && ret == End() && Remaining() == []
    {
      hide Directories.Entries, Directories.DecodeDirent, FindSector, Size;
      ghost var d, i, off := fv6.u.f, fv6.iNode, fv6.offset;
      NoEntries(dirs[DIRENT_SIZE * cur..DIRENT_SIZE * last]);
      ret := fv6.ReadBlock(dirs);
      if ret <= 0 {
        NoEntries([]);
        NoEntries(dirs[DIRENT_SIZE * cur..DIRENT_SIZE * last]);
        return;
      }
      last := ret / DIRENT_SIZE;
      cur := 0;
      BlockOfEntries(d, i, off, dirs[..]);
      assert dirs[..][..DIRENT_SIZE * last] == dirs[0..DIRENT_SIZE * last];
    }

    /** `direntv6_readdir`: each call takes the next entry off `Remaining()`, a block is
        fetched only when the cache is used up, and at the end the same code comes back for
        ever. */
    method ReadDir() returns (ret: int, name: seq<Byte>, childInr: U16)
      requires Ready()
      modifies this, fv6`offset, dirs
      ensures Ready() && fv6.iNode == old(fv6.iNode) && End() == old(End())
      ensures old(Remaining()) == [] ==> ret == old(End()) && Remaining() == []
      ensures old(Remaining()) != [] ==>
        ret == 1 && Directories.Dirent(childInr, name) == old(Remaining())[0] && Remaining() == old(Remaining())[1..]
      ensures old(cur) != old(last) ==> fv6.offset == old(fv6.offset)
    {
      hide Directories.Entries, Directories.DecodeDirent, FindSector, Size, Files.ReadFrom, Files.ReadStep;
      name, childInr := [], 0;
      if cur == last {
        var bytesRead := Fetch();
        if bytesRead <= 0 {
          return bytesRead, name, childInr;
        }
      }
      var at := DIRENT_SIZE * cur;
      ghost var cached := dirs[at..DIRENT_SIZE * last];
      ghost var rest := Directories.Entries(Files.ReadFrom(fv6.u.f, fv6.iNode, fv6.offset).data);
      FirstOfCached(cached);
      assert cached[..DIRENT_SIZE] == dirs[at..at + DIRENT_SIZE];
      assert cached[DIRENT_SIZE..] == dirs[at + DIRENT_SIZE..DIRENT_SIZE * last];
      var entry := Directories.DecodeDirent(dirs[at..at + DIRENT_SIZE]);
      PopFirst(entry, Directories.Entries(cached[DIRENT_SIZE..]), rest);
      childInr := entry.inr;
      name := entry.name;
      cur := cur + 1;
      ret := 1;
    }
  }

  lemma PopFirst(e: Dirent, a: seq<Dirent>, b: seq<Dirent>)
    ensures ([e] + a + b)[0] == e && ([e] + a + b)[1..] == a + b
  {
  }

  lemma NoEntries(b: seq<Byte>)
    ensures |b| == 0 ==> Directories.Entries(b) == []
  {
  }

  /** A fetched block holds the entries that its bytes contribute to the stream. */
  lemma BlockOfEntries(d: Disk, i: Inode, off: int, cache: seq<Byte>)
    requires Files.AtBlock(i, off) && Directories.ReaderDefined(i) && |cache| == SECTOR_SIZE
    requires var r := Files.ReadStep(d, i, off); r.0 > 0 && r.1 <= cache
    ensures var r := Files.ReadStep(d, i, off);
      && 1 <= r.0 / DIRENT_SIZE <= SECTOR_SIZE / DIRENT_SIZE
      && Directories.Entries(cache[..DIRENT_SIZE * (r.0 / DIRENT_SIZE)]) + Directories.Entries(Files.ReadFrom(d, i, r.2).data)
         == Directories.Entries(Files.ReadFrom(d, i, off).data)
      && Files.ReadFrom(d, i, r.2).code == Files.ReadFrom(d, i, off).code
  {
    hide Directories.DecodeDirent, FindSector, Size;
    var (n, block, next) := Files.ReadStep(d, i, off);
    var rest := Files.ReadFrom(d, i, next).data;
    assert cache[..DIRENT_SIZE * (n / DIRENT_SIZE)] == block[..DIRENT_SIZE * (n / DIRENT_SIZE)];
    assert n % DIRENT_SIZE != 0 ==> next == Size(i) && rest == [];
    WholeEntries(block, rest);
  }

  /** Whole entries, or a fragment at the very end. */
  lemma WholeEntries(block: seq<Byte>, rest: seq<Byte>)
    requires |block| % DIRENT_SIZE == 0 || rest == []
    ensures Directories.Entries(block[..DIRENT_SIZE * (|block| / DIRENT_SIZE)]) + Directories.Entries(rest)
      == Directories.Entries(block + rest)
  {
    hide Directories.DecodeDirent;
    var whole := DIRENT_SIZE * (|block| / DIRENT_SIZE);
    if |block| % DIRENT_SIZE == 0 {
      assert block[..whole] == block;
      Directories.EntriesConcat(block, rest);
    } else {
      CutAt(block, whole);
      Directories.EntriesConcat(block[..whole], block[whole..]);
      NoEntriesInFragment(block[whole..]);
      NoEntries(rest);
      assert block + rest == block;
    }
  }

  lemma NoEntriesInFragment(b: seq<Byte>)
    requires |b| < DIRENT_SIZE
    ensures Directories.Entries(b) == []
  {
  }

  lemma FirstOfCached(b: seq<Byte>)
    requires |b| >= DIRENT_SIZE && |b| % DIRENT_SIZE == 0
    ensures Directories.Entries(b) == [Directories.DecodeDirent(b[..DIRENT_SIZE])] + Directories.Entries(b[DIRENT_SIZE..])
  {
    hide Directories.DecodeDirent;
    var first := b[..DIRENT_SIZE];
    assert b == first + b[DIRENT_SIZE..];
    Directories.EntriesConcat(first, b[DIRENT_SIZE..]);
    assert first[0..DIRENT_SIZE] == first;
  }

  // ---------------------------------------------------------------- path lookup

  /** `direntv6_dirlookup_core`: the path is `entry[at..at + length]`. */
  method DirLookupCore(u: UnixFs, inr: U16, entry: seq<Byte>, at: nat, length: nat) returns (ret: int)
    requires at + length <= |entry| && Directories.LookupDefined(u.Volume(), inr, entry[at..at + length])
    ensures ret == Directories.Lookup(u.Volume(), inr, entry[at..at + length]) && ret < 0x1_0000
    decreases length
  {
    hide Directories.Lookup, Directories.LookupDefined, Directories.DirFind, Directories.DirDefined;
    ghost var v := u.Volume();
    if length == 0 {
      Directories.LookupBase(v, inr, entry[at..at + length]);
      return inr;
    }
    if inr == 1 && length == 1 && entry[at] == SLASH {
      Directories.LookupBase(v, inr, entry[at..at + length]);
      return inr;
    }
    var p := at;
    var slashes := 0;
    while slashes < length && entry[p] == SLASH
      invariant slashes <= length && p == at + slashes
      invariant forall j :: at <= j < p ==> entry[j] == SLASH
    {
      p := p + 1;
      slashes := slashes + 1;
    }
    if slashes == length {
      Directories.LookupBase(v, inr, entry[at..at + length]);
      return ERR_NO_SUCH_FILE;
    }
    var dirLength := 0;
    while dirLength + slashes < length && entry[p + dirLength] != SLASH
      invariant dirLength + slashes <= length
      invariant forall j :: p <= j < p + dirLength ==> entry[j] != SLASH
    {
      dirLength := dirLength + 1;
    }
    LookupRoundAt(v, inr, entry, at, length, p, dirLength);
    var sought := entry[p..p + dirLength];
    p := p + dirLength;
    var r := FindInDir(u, inr, sought);
    if r < 0 {
      return r;
    }
    ret := DirLookupCore(u, r, entry, p, length - dirLength - slashes);
  }

  /** One round of the lookup, in terms of addresses in the whole path. */
  lemma LookupRoundAt(v: Vol, n: int, entry: seq<Byte>, at: nat, length: nat, p: nat, l: nat)
    requires at <= p && p + l <= at + length <= |entry| && l > 0
    requires forall j :: at <= j < p ==> entry[j] == SLASH
    requires forall j :: p <= j < p + l ==> entry[j] != SLASH
    requires p + l < at + length ==> entry[p + l] == SLASH
    ensures var r := Directories.DirFind(v, n, entry[p..p + l]);
      var path, rest := entry[at..at + length], entry[p + l..at + length];
      && Directories.Lookup(v, n, path) == (if r < 0 then r else Directories.Lookup(v, r, rest))
      && (Directories.LookupDefined(v, n, path) <==>
           Directories.DirDefined(v, n) && (r >= 0 ==> Directories.LookupDefined(v, r, rest)))
  {
    hide Directories.Lookup, Directories.LookupDefined, Directories.DirFind, Directories.DirDefined;
    var path := entry[at..at + length];
    assert forall j :: 0 <= j < length ==> path[j] == entry[at + j];
    Directories.LookupRound(v, n, path, p - at, l);
    SliceOfSlice(entry, at, at + length, p - at, p - at + l);
    SliceOfSlice(entry, at, at + length, p - at + l, length);
  }

  /** The search loop of `direntv6_dirlookup_core`. */
  method FindInDir(u: UnixFs, inr: U16, sought: seq<Byte>) returns (ret: int)
    requires Directories.DirDefined(u.Volume(), inr)
    ensures ret == Directories.DirFind(u.Volume(), inr, sought)
    ensures ret < 0x1_0000
  {
    hide Directories.OpenDir, Trees.RawEntries, Directories.DirDefined, DirectoryReader.Remaining, DirectoryReader.End, DirectoryReader.Ready;
    var d := new DirectoryReader(u);
    var open := d.OpenDir(inr);
    if open != 0 {
      DirFindFails(u.Volume(), inr, sought);
      return open;
    }
    ghost var es := d.Remaining();
    ghost var end := d.End();
    var read, name, child := d.ReadDir();
    ghost var k := 0;
    while read > 0
      invariant d.Ready() && d.fv6.u == u && d.End() == end
      invariant 0 <= k <= |es| && forall j :: 0 <= j < k ==> es[j].name != sought
      invariant read > 0 ==> k < |es| && es[k] == Directories.Dirent(child, name) && d.Remaining() == es[k + 1..]
      invariant read <= 0 ==> k == |es| && read == end
      decreases |es| - k
    {
      if sought == name {
        DirFindIs(u.Volume(), inr, sought, k);
        return child;
      }
      k := k + 1;
      read, name, child := d.ReadDir();
    }
    DirFindIs(u.Volume(), inr, sought, k);
    if read == 0 {
      return ERR_NO_SUCH_FILE;
    } else {
      return read;
    }
  }

  lemma DirFindFails(v: Vol, n: int, name: seq<Byte>)
    ensures var c := Directories.OpenDir(v, n).0; c <= 0 && (c != 0 ==> Directories.DirFind(v, n, name) == c)
  {
    hide Directories.Entries, Files.ReadFrom;
  }

  lemma OpenCodes(v: Vol, n: int)
    ensures Directories.OpenDir(v, n).0 <= 0
  {
  }

  /** The directory search, given the position where the name is first met. */
  lemma DirFindIs(v: Vol, n: int, name: seq<Byte>, k: nat)
    requires Directories.OpenDir(v, n).0 == 0
    requires var es := Trees.RawEntries(v, n).0;
      k <= |es| && (forall j :: 0 <= j < k ==> es[j].name != name) && (k < |es| ==> es[k].name == name)
    ensures var (es, end) := Trees.RawEntries(v, n);
      Directories.DirFind(v, n, name) == if k < |es| then es[k].inr else if end == 0 then ERR_NO_SUCH_FILE else end
  {
    hide Directories.OpenDir, Directories.Entries, Files.ReadFrom, Directories.FirstIndex;
    FirstIndexIs(Trees.RawEntries(v, n).0, name, k);
  }

  lemma FirstIndexIs(es: seq<Dirent>, name: seq<Byte>, k: nat)
    requires k <= |es| && (forall j :: 0 <= j < k ==> es[j].name != name) && (k < |es| ==> es[k].name == name)
    ensures Directories.FirstIndex(es, name) == k
  {
  }

  /** `direntv6_dirlookup` */
  method DirLookup(u: UnixFs, inr: U16, entry: seq<Byte>) returns (ret: int)
    requires Directories.LookupDefined(u.Volume(), inr, entry)
    ensures ret == Directories.Lookup(u.Volume(), inr, entry) && ret < 0x1_0000
  {
    hide Directories.Lookup, Directories.LookupDefined;
    assert entry[0..0 + |entry|] == entry;
    ret := DirLookupCore(u, inr, entry, 0, |entry|);
  }

  // ---------------------------------------------------------------- tree listing

  /** One round of the listing loop. */
  lemma TreeRound(v: Vol, n: int, es: seq<Dirent>, k: nat, end: int, prefix: seq<Byte>, depth: nat)
    requires Trees.Walkable(v, n, depth) && Directories.OpenDir(v, n).0 == 0 && k <= |es|
    requires forall e :: e in es ==> e in Trees.RawEntries(v, n).0
    ensures k == |es| ==> Trees.TreeOfEntries(v, n, es[k..], end, prefix, depth) == (end, [])
    ensures k < |es| ==> Trees.EntryWalkable(v, es[k].inr, depth)
    ensures k < |es| ==>
      var (c1, ls1) := Trees.EntryTree(v, es[k].inr, prefix + [SLASH] + es[k].name, depth);
      var (c2, ls2) := Trees.TreeOfEntries(v, n, es[k + 1..], end, prefix, depth);
      Trees.TreeOfEntries(v, n, es[k..], end, prefix, depth) == if c1 != 0 then (c1, ls1) else (c2, ls1 + ls2)
  {
    hide Trees.RawEntries, Trees.TreeOf, InodeAt;
    if k < |es| {
      assert es[k..][0] == es[k] && es[k..][1..] == es[k + 1..];
      assert es[k] in es;
    }
  }

  /** `direntv6_print_tree`: the code and the lines printed. */
  method PrintTree(u: UnixFs, inr: U16, prefix: seq<Byte>, ghost depth: nat) returns (ret: int, out: seq<Trees.Line>)
    requires Trees.Walkable(u.Volume(), inr, depth)
    ensures (ret, out) == Trees.TreeOf(u.Volume(), inr, prefix, depth)
    decreases depth, 2
  {
    hide InodeAt, Trees.RawEntries, Trees.TreeOfEntries, Trees.Walkable, Directories.OpenDir, DirectoryReader.Remaining, DirectoryReader.End, DirectoryReader.Ready;
    out := [];
    Trees.WalkIsDefined(u.Volume(), inr, depth);
    var d := new DirectoryReader(u);
    ret := d.OpenDir(inr);
    OpenCodes(u.Volume(), inr);
    if ret < 0 {
      return;
    }
    ghost var es, end := d.Remaining(), d.End();
    var read, name, child := d.ReadDir();
    if read < 0 {
      return read, out;
    }
    if inr == ROOT_INUMBER {
      out := [Trees.Line(Trees.DIR, [SLASH] + prefix)];
    } else {
      out := [Trees.Line(Trees.DIR, prefix + [SLASH])];
    }
    var lines;
    ret, lines := PrintEntries(u, d, inr, prefix, depth, es, end, read, name, child);
    out := out + lines;
  }

  /** The body of the loop of `direntv6_print_tree`, for one entry. */
  method PrintEntry(u: UnixFs, inr: U16, path: seq<Byte>, ghost depth: nat) returns (ret: int, out: seq<Trees.Line>)
    requires Trees.EntryWalkable(u.Volume(), inr, depth)
    ensures (ret, out) == Trees.EntryTree(u.Volume(), inr, path, depth)
    decreases depth, 0
  {
    hide InodeAt, Trees.Walkable, Trees.TreeOf, ReadInode;
    var code, inode := u.InodeRead(inr);
    if code != 0 {
      return code, [];
    }
    if IsDir(inode) {
      ret, out := PrintTree(u, inr, path, depth - 1);
    } else {
      return ERR_NONE, [Trees.Line(Trees.FIL, path)];
    }
  }

  /** The loop of `direntv6_print_tree`, the first entry already read. */
  method PrintEntries(u: UnixFs, d: DirectoryReader, ghost inr: int, prefix: seq<Byte>, ghost depth: nat,
                      ghost es: seq<Dirent>, ghost end: int, read0: int, name0: seq<Byte>, child0: U16)
    returns (ret: int, out: seq<Trees.Line>)
    requires Trees.Walkable(u.Volume(), inr, depth)
    requires Directories.OpenDir(u.Volume(), inr).0 == 0 && Trees.RawEntries(u.Volume(), inr) == (es, end)
    requires d.Ready() && d.fv6.u == u && d.End() == end
    requires es != [] ==> read0 == 1 && es[0] == Directories.Dirent(child0, name0) && d.Remaining() == es[1..]
    requires es == [] ==> read0 == end && d.Remaining() == []
    requires end <= 0
    modifies d, d.fv6, d.dirs
    ensures (ret, out) == Trees.TreeOfEntries(u.Volume(), inr, es, end, prefix, depth)
    decreases depth, 1
  {
    hide InodeAt, Trees.RawEntries, Trees.TreeOfEntries, Trees.Walkable, Trees.TreeOf, Trees.EntryTree, Trees.EntryWalkable, Directories.OpenDir, ReadInode, Allocated, DirectoryReader.Remaining, DirectoryReader.End, DirectoryReader.Ready;
    ghost var v := u.Volume();
    ghost var whole := Trees.TreeOfEntries(v, inr, es, end, prefix, depth);
    var read, name, child := read0, name0, child0;
    ghost var k := 0;
    out := [];
    assert es[0..] == es;
    while read > 0
      invariant d.Ready() && d.fv6.u == u && u.Volume() == v && d.End() == end
      invariant 0 <= k <= |es|
      invariant read > 0 ==> k < |es| && es[k] == Directories.Dirent(child, name) && d.Remaining() == es[k + 1..]
      invariant read <= 0 ==> k == |es| && read == end
      invariant whole.0 == Trees.TreeOfEntries(v, inr, es[k..], end, prefix, depth).0
      invariant whole.1 == out + Trees.TreeOfEntries(v, inr, es[k..], end, prefix, depth).1
      decreases |es| - k
    {
      TreeRound(v, inr, es, k, end, prefix, depth);
      assert out + [] == out;
      var code, lines := PrintEntry(u, child, prefix + [SLASH] + name, depth);
      out := out + lines;
      if code != ERR_NONE {
        return code, out;
      }
      read, name, child := d.ReadDir();
      k := k + 1;
    }
    TreeRound(v, inr, es, k, end, prefix, depth);
    assert out + [] == out;
    ret := read;
  }
}
