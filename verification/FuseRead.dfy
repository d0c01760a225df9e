/** u6fs_fuse.c in place: the copy loop of `fs_read`. */
module FuseReading {
  import opened Unixv6fs
  import opened Inodes
  import opened Filesystem
  import opened OpenFiles
  import opened DirectoryReaders
  import Files
  import Directories
  import Fuse

  /** One more chunk copied behind what is already in the buffer. */
  lemma CopiedMore(before: seq<Byte>, done: seq<Byte>, chunk: seq<Byte>)
    requires |done| + |chunk| <= |before|
    ensures Splice(done + before[|done|..], |done|, chunk) == (done + chunk) + before[|done + chunk|..]
  {
  }

  /** One round of the copy loop: as much of the block as is still wanted. */
  method CopyBlock(buf: array<Byte>, inBuffer: nat, sector: array<Byte>, inSector: nat, readBlock: nat, want: nat) returns (copied: nat)
    requires inSector + readBlock <= sector.Length && inBuffer + want <= buf.Length && buf != sector
    modifies buf
    ensures copied == if want < readBlock then want else readBlock
    ensures buf[..] == Splice(old(buf[..]), inBuffer, sector[inSector..inSector + copied])
  {
    copied := readBlock;
    if want < copied {
      copied := want;
    }
    CopyInto(buf, inBuffer, sector[inSector..inSector + copied]);
  }

  /** The state between two rounds of the copy loop: `done` is in the buffer, the block at
      `from` has been read into `sector` with code `readBlock`, and `whole` is what the copy
      amounts to in the end. */
  ghost predicate Copying(f: FileV6, buf: array<Byte>, sector: array<Byte>, whole: (int, seq<Byte>), before: seq<Byte>,
                          from: int, done: seq<Byte>, readBlock: int, size: nat)
    reads f, f.u, buf, sector
  {
    && Files.AtBlock(f.iNode, from) && |done| <= size <= |before| == buf.Length
    && (var (n, block, next) := Files.ReadStep(f.u.f, f.iNode, from);
        readBlock == n && f.offset == next && block <= sector[..])
    && buf[..] == done + before[|done|..]
    && Left(whole, f.u.f, f.iNode, from, size - |done|, done)
  }

  /** One round of the copy loop. */
  method CopyStep(f: FileV6, buf: array<Byte>, sector: array<Byte>, inSector: nat, inBuffer: nat, readBlock0: int, size: nat,
                  ghost whole: (int, seq<Byte>), ghost before: seq<Byte>, ghost from0: int, ghost done0: seq<Byte>)
    returns (copied: nat, readBlock: int, ghost from: int, ghost done: seq<Byte>)
    requires Copying(f, buf, sector, whole, before, from0, done0, readBlock0, size)
    requires buf != sector && sector.Length == SECTOR_SIZE && inSector == 0 && inBuffer == |done0|
    requires 0 < readBlock0 && inBuffer < size
    modifies f`offset, buf, sector
    ensures Copying(f, buf, sector, whole, before, from, done, readBlock, size)
    ensures |done| == |done0| + copied && from0 < from
  {
    hide FindSector, Size, Files.ReadStep, Left;
    ghost var d, i := f.u.f, f.iNode;
    copied := CopyBlock(buf, inBuffer, sector, inSector, readBlock0, size - inBuffer);
    ghost var chunk := Files.ReadStep(d, i, from0).1[..copied];
    assert sector[inSector..inSector + copied] == chunk;
    CopiedMore(before, done0, chunk);
    LeftRound(whole, d, i, from0, size - |done0|, copied, done0);
    done := done0 + chunk;
    from := f.offset;
    assert buf[..] == done + before[|done|..];
    readBlock := f.ReadBlock(sector);
  }

  /** The copy loop of `fs_read`, from the offset the file was opened at. */
  method CopyLoop(f: FileV6, buf: array<Byte>, size: nat, offset: int) returns (ret: int)
    requires Files.AtBlock(f.iNode, f.offset) && size <= buf.Length
    requires f.offset == Size(f.iNode) || offset % SECTOR_SIZE == 0
    modifies f`offset, buf
    ensures var (c, data) := Fuse.CopyFrom(f.u.f, f.iNode, old(f.offset), size);
      ret == (if c < 0 then c else |data|) && buf[..] == data + old(buf[..])[|data|..]
  {
    hide FindSector, Size, Files.ReadStep, Fuse.CopyFrom, Left;
    var sector := new Byte[SECTOR_SIZE](_ => 0);
    ghost var d, i, before := f.u.f, f.iNode, buf[..];
    ghost var whole := Fuse.CopyFrom(d, i, f.offset, size);
    ghost var from, done: seq<Byte> := f.offset, [];
    var sizeCopied, inSector, inBuffer := 0, offset % SECTOR_SIZE, 0;
    AtTheEnd(d, i, f.offset);
    LeftAtFirst(d, i, from, size);
    var readBlock := f.ReadBlock(sector);
    assert buf[..] == done + before[|done|..];
    while readBlock > 0 && sizeCopied < size
      invariant fresh(sector) && 0 <= sizeCopied == inBuffer == |done| <= size
      invariant Copying(f, buf, sector, whole, before, from, done, readBlock, size)
      invariant readBlock > 0 ==> inSector == 0
      decreases Size(i) - from
    {
      var copied;
      copied, readBlock, from, done := CopyStep(f, buf, sector, inSector, inBuffer, readBlock, size, whole, before, from, done);
      sizeCopied := sizeCopied + copied;
      inSector := 0;
      inBuffer := inBuffer + copied;
    }
    LeftAtEnd(whole, d, i, from, size - sizeCopied, done);
    if readBlock < 0 {
      return readBlock;
    }
    return sizeCopied;
  }

  lemma AtTheEnd(d: Disk, i: Inode, off: int)
    requires Files.AtBlock(i, off)
    ensures off == Size(i) ==> Files.ReadStep(d, i, off).0 == 0
  {
  }

  /** `done` is copied; the whole result is that plus what a copy from `off` on gives. */
  ghost predicate Left(whole: (int, seq<Byte>), d: Disk, i: Inode, off: int, want: nat, done: seq<Byte>)
    requires Files.AtBlock(i, off)
  {
    var (c, rest) := Fuse.CopyFrom(d, i, off, want);
    whole == (c, done + rest)
  }

  lemma LeftAtFirst(d: Disk, i: Inode, off: int, want: nat)
    requires Files.AtBlock(i, off)
    ensures Left(Fuse.CopyFrom(d, i, off, want), d, i, off, want, [])
  {
    hide FindSector, Size, Files.ReadStep;
    var whole := Fuse.CopyFrom(d, i, off, want);
    assert [] + whole.1 == whole.1;
  }

  lemma LeftRound(whole: (int, seq<Byte>), d: Disk, i: Inode, off: int, want: nat, copied: nat, done: seq<Byte>)
    requires Files.AtBlock(i, off) && Left(whole, d, i, off, want, done)
    requires var n := Files.ReadStep(d, i, off).0; n > 0 && want > 0 && copied == if want < n then want else n
    ensures var (n, block, next) := Files.ReadStep(d, i, off);
      copied <= |block| && Left(whole, d, i, next, want - copied, done + block[..copied])
  {
    hide FindSector, Size, Files.ReadStep;
    var (n, block, next) := Files.ReadStep(d, i, off);
    var rest := Fuse.CopyFrom(d, i, next, want - copied).1;
    assert done + (block[..copied] + rest) == (done + block[..copied]) + rest;
  }

  lemma LeftAtEnd(whole: (int, seq<Byte>), d: Disk, i: Inode, off: int, want: nat, done: seq<Byte>)
    requires Files.AtBlock(i, off) && (Files.ReadStep(d, i, off).0 <= 0 || want == 0)
    requires Left(whole, d, i, off, want, done)
    ensures whole == (if Files.ReadStep(d, i, off).0 <= 0 then Files.ReadStep(d, i, off).0 else 0, done)
  {
    hide FindSector, Size, Files.ReadStep;
    assert done + [] == done;
  }

  /** The buffer holds data, and behind it what it held before. */
  predicate Filled(after: seq<Byte>, before: seq<Byte>, data: seq<Byte>) {
    |data| <= |before| && after == data + before[|data|..]
  }

  lemma FilledWithNothing(b: seq<Byte>)
    ensures Filled(b, b, [])
  {
  }

  /** `fs_read` */
  method FsRead(u: UnixFs, path: seq<Byte>, buf: array<Byte>, size: nat, offset: int) returns (ret: int)
    requires size <= buf.Length && Directories.LookupDefined(u.Volume(), ROOT_INUMBER, path)
    modifies buf
    ensures var (n, data) := Fuse.FsRead(u.Volume(), path, size, offset);
      ret == n && Filled(buf[..], old(buf[..]), data)
  {
    hide Directories.Lookup, Fuse.FsReadInode, Directories.LookupDefined, Filled;
    FilledWithNothing(buf[..]);
    var inr := DirLookup(u, ROOT_INUMBER, path);
    if inr < 0 {
      return inr;
    }
    ret := FsReadInode(u, inr, buf, size, offset);
  }

  /** `fs_read` once the path is resolved. */
  method FsReadInode(u: UnixFs, inr: U16, buf: array<Byte>, size: nat, offset: int) returns (ret: int)
    requires size <= buf.Length
    modifies buf
    ensures var (n, data) := Fuse.FsReadInode(u.Volume(), inr, size, offset);
      ret == n && Filled(buf[..], old(buf[..]), data)
  {
    hide InodeAt, FindSector, Size, Fuse.CopyFrom, AsInt32, Files.Seek, Filled, ReadInode;
    FilledWithNothing(buf[..]);
    var f := new FileV6(u);
    var open := f.Open(inr);
    OpenCode(u.Volume(), inr);
    if open < 0 {
      return open;
    }
    var casted := AsInt32(offset);
    var err := f.Lseek(casted);
    if err < 0 {
      return err;
    }
    SeekedOffset(f.iNode, offset);
    ghost var data := Fuse.CopyFrom(u.f, f.iNode, f.offset, size).1;
    ret := CopyLoop(f, buf, size, offset);
    FilledIs(buf[..], old(buf[..]), data);
  }

  lemma FilledIs(after: seq<Byte>, before: seq<Byte>, data: seq<Byte>)
    requires |data| <= |before| && after == data + before[|data|..]
    ensures Filled(after, before, data)
  {
  }

  lemma OpenCode(v: Vol, n: int)
    ensures ReadInode(v, n).0 <= 0
  {
    hide InodeAt;
  }

  /** An accepted offset is a block boundary, before and after the cast, or the end. */
  lemma SeekedOffset(i: Inode, offset: int)
    ensures Files.Seek(i, 0, AsInt32(offset)).0 <= 0
    ensures Files.Seek(i, 0, AsInt32(offset)).0 == 0 ==>
      var off := Files.Seek(i, 0, AsInt32(offset)).1;
      Files.AtBlock(i, off) && (off == Size(i) || offset % SECTOR_SIZE == 0)
  {
    hide Size, AsInt32;
    CastKeepsSmall(offset);
  }
}
