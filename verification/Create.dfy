/** direntv6.c, creation: `direntv6_create` and `direntv6_addfile` as functions on values.
    The free inode and the free sector are what the two bitmap searches answer. */
module Creation {
  import opened Unixv6fs
  import opened Inodes
  import opened Files
  import opened Directories

  /** The inode `filev6_create` writes: all zero but the mode. */
  function NewInode(mode: U16): (i: Inode)
    ensures Allocated(i) && Size(i) == 0 && (IsDir(i) <==> IsDirMode(mode))
  {
    InodeRecord(WithAlloc(mode), 0, 0, 0, 0, 0, ZeroInode().addr, [0, 0], [0, 0])
  }

  /** The write to the parent stays inside `i_addr`. */
  predicate ParentWriteDefined(v: Vol, parent: int, freeSector: int) {
    var (c, i) := ReadInode(v, parent);
    c < 0 || WriteDefined(Size(i), DIRENT_SIZE, freeSector)
  }

  /** An inode number as it is held in a `uint16_t`. */
  function AsInr(n: nat): U16 {
    n % 0x1_0000
  }

  /** `create_dirent`: a fresh inode, then an entry for it at the end of the parent. */
  function CreateDirent(v: Vol, mode: U16, rel: seq<Byte>, parent: int, freeInode: int, freeSector: int, junk: Junk): (int, Vol)
    requires |rel| <= DIRENT_MAXLEN
    requires freeInode >= 0 ==> ParentWriteDefined(WriteInode(v, AsInr(freeInode), NewInode(mode)).1, parent, freeSector)
  {
    if freeInode < 0 then (freeInode, v)
    else
      var n := AsInr(freeInode);
      var (c1, v1) := WriteInode(v, n, NewInode(mode));
      if c1 < 0 then (c1, v1)
      else
        var (c2, i) := ReadInode(v1, parent);
        if c2 < 0 then (c2, v1)
        else
          var (c3, v2, _) := WriteBytes(v1, parent, i, EncodeDirent(Dirent(n, rel)), freeSector, junk);
          (if c3 < 0 then c3 else n, v2)
  }

  /** The parent `direntv6_create` finds and the answer for the child, or a code. */
  function CreateTarget(v: Vol, entry: seq<Byte>): (int, int) {
    var parent := Lookup(v, ROOT_INUMBER, AbsoluteName(entry));
    (parent, if parent < 0 then parent else Lookup(v, parent, RelativeName(entry)))
  }

  /** The directories searched can be read, and the write to the parent is defined. */
  predicate CreateDefined(v: Vol, entry: seq<Byte>, mode: U16, freeInode: int, freeSector: int) {
    var (parent, child) := CreateTarget(v, entry);
    && (|RelativeName(entry)| <= DIRENT_MAXLEN ==> LookupDefined(v, ROOT_INUMBER, AbsoluteName(entry)))
    && (|RelativeName(entry)| <= DIRENT_MAXLEN && parent >= 0 ==> LookupDefined(v, parent, RelativeName(entry)))
    && (|RelativeName(entry)| <= DIRENT_MAXLEN && parent >= 0 && child == ERR_NO_SUCH_FILE && freeInode >= 0 ==>
      ParentWriteDefined(WriteInode(v, AsInr(freeInode), NewInode(mode)).1, parent, freeSector))
  }

  /** `direntv6_create` */
  function Create(v: Vol, entry: seq<Byte>, mode: U16, freeInode: int, freeSector: int, junk: Junk): (int, Vol)
    requires CreateDefined(v, entry, mode, freeInode, freeSector)
  {
    var (code, rel, absolute) := SplitName(entry);
    if code != ERR_NONE then (code, v)
    else
      var parent := Lookup(v, ROOT_INUMBER, absolute);
      if parent < 0 then (parent, v)
      else
        var child := Lookup(v, parent, rel);
        if child >= 0 then (ERR_FILENAME_ALREADY_EXISTS, v)
        else if child != ERR_NO_SUCH_FILE then (child, v)
        else CreateDirent(v, mode, rel, parent, freeInode, freeSector, junk)
  }

  predicate AddDefined(v: Vol, entry: seq<Byte>, mode: U16, buf: seq<Byte>, freeInode: int, freeSector: int, junk: Junk) {
    && CreateDefined(v, entry, mode, freeInode, freeSector)
    && var (inr, v1) := Create(v, entry, mode, freeInode, freeSector, junk);
      inr >= 0 && ReadInode(v1, inr).0 >= 0 ==> WriteDefined(Size(ReadInode(v1, inr).1), |buf|, freeSector)
  }

  /** `direntv6_addfile`: create, then append the bytes to the new file. */
  function AddFile(v: Vol, entry: seq<Byte>, mode: U16, buf: seq<Byte>, freeInode: int, freeSector: int, junk: Junk, junk': Junk): (int, Vol)
    requires AddDefined(v, entry, mode, buf, freeInode, freeSector, junk)
  {
    var (inr, v1) := Create(v, entry, mode, freeInode, freeSector, junk);
    if inr < 0 then (inr, v1)
    else
      var (c, i) := ReadInode(v1, inr);
      if c < 0 then (c, v1)
      else
        var (c2, v2, _) := WriteBytes(v1, inr, i, buf, freeSector, junk');
        (if c2 < 0 then c2 else ERR_NONE, v2)
  }
}
