/** direntv6.c, creation, in place. */
module EntryCreation {
  import opened Unixv6fs
  import opened BmBlock
  import opened Inodes
  import opened Filesystem
  import opened OpenFiles
  import opened DirectoryReaders
  import Files
  import Directories
  import Creation

  /** `split_name_direntv6_create`: one address walks left over the last name, another over
      the slashes before it. */
  method SplitName(entry: seq<Byte>) returns (code: int, rel: seq<Byte>, absolute: seq<Byte>)
    ensures (code, rel, absolute) == Directories.SplitName(entry)
  {
    hide Directories.RelativeName, Directories.AbsoluteName;
    var length := |entry|;
    var relLength := 0;
    var p := length - 1;
    while relLength < length && entry[p] != SLASH
      invariant 0 <= relLength <= length && p == length - 1 - relLength
      invariant forall j :: p < j < length ==> entry[j] != SLASH
    {
      p := p - 1;
      relLength := relLength + 1;
    }
    RelativeNameAt(entry, p + 1);
    if relLength > DIRENT_MAXLEN {
      return ERR_FILENAME_TOO_LONG, [], [];
    }
    var end := p;
    var absLength := length - relLength;
    while absLength > 0 && entry[end] == SLASH
      invariant 0 <= absLength <= length - relLength && end == absLength - 1
      invariant forall j :: absLength <= j < length - relLength ==> entry[j] == SLASH
    {
      end := end - 1;
      absLength := absLength - 1;
    }
    AbsoluteNameAt(entry, p + 1, absLength);
    return ERR_NONE, entry[p + 1..], entry[..absLength];
  }

  lemma RelativeNameAt(entry: seq<Byte>, k: nat)
    requires k <= |entry| && (k > 0 ==> entry[k - 1] == SLASH) && forall j :: k <= j < |entry| ==> entry[j] != SLASH
    ensures Directories.RelativeName(entry) == entry[k..]
  {
    hide Directories.RelativeName;
    assert entry == entry[..k] + entry[k..];
    Directories.RelativeNameOf(entry[..k], entry[k..]);
  }

  lemma AbsoluteNameAt(entry: seq<Byte>, k: nat, m: nat)
    requires m <= k <= |entry| && |Directories.RelativeName(entry)| == |entry| - k
    requires (m > 0 ==> entry[m - 1] != SLASH) && forall j :: m <= j < k ==> entry[j] == SLASH
    ensures Directories.AbsoluteName(entry) == entry[..m]
  {
    hide Directories.RelativeName, Directories.WithoutTrailing;
    WithoutTrailingAt(entry[..k], m);
    assert entry[..k][..m] == entry[..m];
  }

  lemma WithoutTrailingAt(p: seq<Byte>, m: nat)
    requires m <= |p| && (m > 0 ==> p[m - 1] != SLASH) && forall j :: m <= j < |p| ==> p[j] == SLASH
    ensures Directories.WithoutTrailing(p) == p[..m]
  {
    hide Directories.WithoutTrailing;
    assert p == p[..m] + p[m..];
    Directories.WithoutTrailingOf(p[..m], p[m..]);
  }

  /** A zeroed record with its mode set is the new inode. */
  lemma ZeroedIsNew(mode: U16)
    ensures ZeroInode().(mode := WithAlloc(mode)) == Creation.NewInode(mode)
  {
  }

  /** `create_dirent` */
  method CreateDirent(u: UnixFs, mode: U16, rel: seq<Byte>, parent: U16, junk: Files.Junk) returns (ret: int)
    requires u.Valid() && |rel| <= DIRENT_MAXLEN
    requires var n := NextFree(u.ibm.View());
      n >= 0 ==> Creation.ParentWriteDefined(WriteInode(u.Volume(), Creation.AsInr(n), Creation.NewInode(mode)).1, parent, NextFree(u.fbm.View()))
    modifies u`f, u.ibm`cursor, u.ibm.bm, u.fbm`cursor
    ensures u.Valid() && u.ibm.View() == Alloc(old(u.ibm.View()))
    ensures u.fbm.View() == old(u.fbm.View()) || u.fbm.View() == AfterSearch(old(u.fbm.View()))
    ensures (ret, u.Volume()) ==
      Creation.CreateDirent(old(u.Volume()), mode, rel, parent, NextFree(old(u.ibm.View())), NextFree(old(u.fbm.View())), junk)
  {
    hide Files.WriteBytes, Directories.EncodeDirent, AfterSearch, Alloc, Creation.NewInode, PutInode, InodeAt;
    var child := new FileV6(u);
    ZeroedIsNew(mode);
    var created := child.Create(mode);
    if created < 0 {
      return created;
    }
    var inr := child.iNumber;
    var fv6 := new FileV6(u);
    var open := fv6.Open(parent);
    if open < 0 {
      return open;
    }
    var written := fv6.WriteBytes(Directories.EncodeDirent(Directories.Dirent(inr, rel)), junk);
    if written < 0 {
      return written;
    }
    return inr;
  }

  /** `direntv6_create` */
  method Create(u: UnixFs, entry: seq<Byte>, mode: U16, junk: Files.Junk) returns (ret: int)
    requires u.Valid()
    requires Creation.CreateDefined(u.Volume(), entry, mode, NextFree(u.ibm.View()), NextFree(u.fbm.View()))
    modifies u`f, u.ibm`cursor, u.ibm.bm, u.fbm`cursor
    ensures u.Valid()
    ensures u.fbm.View() == old(u.fbm.View()) || u.fbm.View() == AfterSearch(old(u.fbm.View()))
    ensures (ret, u.Volume()) ==
      Creation.Create(old(u.Volume()), entry, mode, NextFree(old(u.ibm.View())), NextFree(old(u.fbm.View())), junk)
  {
    hide AfterSearch, Alloc, Creation.NewInode, Directories.Lookup, Directories.LookupDefined, Creation.CreateDirent, Creation.ParentWriteDefined, WriteInode, Directories.AbsoluteName, Directories.RelativeName, Bitmap.Marks;
    var split, rel, absolute := SplitName(entry);
    if split != ERR_NONE {
      return split;
    }
    var parent := DirLookup(u, ROOT_INUMBER, absolute);
    if parent < 0 {
      return parent;
    }
    var child := DirLookup(u, parent, rel);
    if child != ERR_NO_SUCH_FILE {
      if child >= 0 {
        return ERR_FILENAME_ALREADY_EXISTS;
      } else {
        return child;
      }
    }
    ret := CreateDirent(u, mode, rel, parent, junk);
  }

  /** `direntv6_addfile` */
  method AddFile(u: UnixFs, entry: seq<Byte>, mode: U16, buf: seq<Byte>, junk: Files.Junk, junk': Files.Junk) returns (ret: int)
    requires u.Valid()
    requires Creation.AddDefined(u.Volume(), entry, mode, buf, NextFree(u.ibm.View()), NextFree(u.fbm.View()), junk)
    modifies u`f, u.ibm`cursor, u.ibm.bm, u.fbm`cursor
    ensures u.Valid()
    ensures (ret, u.Volume()) ==
      Creation.AddFile(old(u.Volume()), entry, mode, buf, NextFree(old(u.ibm.View())), NextFree(old(u.fbm.View())), junk, junk')
  {
    hide Creation.NewInode, Directories.Lookup, Directories.LookupDefined, Creation.Create, Creation.CreateDefined, Files.WriteBytes, InodeAt;
    SearchIsIdempotent(u.fbm.View());
    CreateGivesNumber(u.Volume(), entry, mode, NextFree(u.ibm.View()), NextFree(u.fbm.View()), junk);
    var inr := Create(u, entry, mode, junk);
    if inr < 0 {
      return inr;
    }
    var read, inode := u.InodeRead(inr);
    if read < 0 {
      return read;
    }
    var fv6 := new FileV6(u);
    var open := fv6.Open(inr);
    if open < 0 {
      return open;
    }
    var write := fv6.WriteBytes(buf, junk');
    if write < 0 {
      return write;
    }
    return ERR_NONE;
  }

  lemma CreateGivesNumber(v: Vol, entry: seq<Byte>, mode: U16, n: int, s: int, junk: Files.Junk)
    requires Creation.CreateDefined(v, entry, mode, n, s)
    ensures Creation.Create(v, entry, mode, n, s, junk).0 < 0x1_0000
  {
    hide Directories.Lookup, Directories.LookupDefined, Files.WriteBytes, Creation.NewInode, Directories.RelativeName, Directories.AbsoluteName;
  }
}
