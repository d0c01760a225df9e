/** u6fs_fuse.c: the positioned read `fs_read`, as a function on values. */
module Fuse {
  import opened Unixv6fs
  import opened Inodes
  import opened Files
  import opened Directories

  /** The copy loop: the last code of the block reader and the bytes copied. One block more
      than needed is read, and its failure counts. */
  function CopyFrom(d: Disk, i: Inode, off: int, want: nat): (r: (int, seq<Byte>))
    requires AtBlock(i, off)
    ensures |r.1| <= want && |r.1| <= Size(i) - off && r.0 <= 0
    decreases Size(i) - off
  {
    var (n, block, next) := ReadStep(d, i, off);
    if n <= 0 then (n, [])
    else if want == 0 then (0, [])
    else
      var m := if want < n then want else n;
      var (c, rest) := CopyFrom(d, i, next, want - m);
      (c, block[..m] + rest)
  }

  /** `fs_read`: the return value and the bytes placed in the caller's buffer. */
  function FsRead(v: Vol, path: seq<Byte>, size: nat, offset: int): (r: (int, seq<Byte>))
    ensures r.0 > 0 ==> r.0 == |r.1| && AsInt32(offset) >= 0 && AsInt32(offset) + r.0 < 0x1_000000
  {
    var inr := Lookup(v, ROOT_INUMBER, path);
    if inr < 0 then (inr, [])
    else FsReadInode(v, inr % 0x1_0000, size, offset)
  }

  function FsReadInode(v: Vol, inr: U16, size: nat, offset: int): (r: (int, seq<Byte>))
    ensures r.0 > 0 ==> r.0 == |r.1| && AsInt32(offset) >= 0 && AsInt32(offset) + r.0 < 0x1_000000
  {
    var (c, i) := ReadInode(v, inr);
    if c < 0 then (c, [])
    else
      var (c2, off) := Seek(i, 0, AsInt32(offset));
      if c2 < 0 then (c2, [])
      else
        SeekAccepts(i, 0, AsInt32(offset));
        var (c3, data) := CopyFrom(v.disk, i, off, size);
        (if c3 < 0 then c3 else |data|, data)
  }

  lemma {:induction false} CopyIsSlice(d: Disk, i: Inode, off: int, want: nat)
    requires Readable(d, i) && AtBlock(i, off)
    ensures var n := if want < Size(i) - off then want else Size(i) - off;
      CopyFrom(d, i, off, want) == (0, Content(d, i)[off..off + n])
    decreases Size(i) - off
  {
    hide FindSector, Size, Content;
    var c := Content(d, i);
    if off < Size(i) && want > 0 {
      var (n, block, next) := ReadStep(d, i, off);
      assert BlockOk(d, i, off / SECTOR_SIZE);
      var m := if want < n then want else n;
      var all := if want < Size(i) - off then want else Size(i) - off;
      CopyIsSlice(d, i, next, want - m);
      BlockIsSlice(d, i, off / SECTOR_SIZE, n);
      PieceThenRest(c, off, n, m, all);
    } else {
      assert c[off..off] == [];
      assert off < Size(i) ==> BlockOk(d, i, off / SECTOR_SIZE);
    }
  }

  /** The first m bytes of a block, then what follows the block if all of it was taken. */
  lemma PieceThenRest(c: seq<Byte>, off: nat, n: nat, m: nat, all: nat)
    requires off + n <= |c| && off + all <= |c| && m <= n && m <= all && (m < n ==> m == all)
    ensures off + n + (all - m) <= |c| || m < n
    ensures c[off..off + n][..m] + (if m < n then [] else c[off + n..off + n + (all - m)]) == c[off..off + all]
  {
    assert c[off..off + n][..m] == c[off..off + m];
  }

  /** The inode that a path leads to, when its content can be read. */
  ghost predicate ReadablePath(v: Vol, path: seq<Byte>) {
    var r := Lookup(v, ROOT_INUMBER, path);
    r >= 0 && ReadInode(v, r).0 == ERR_NONE && Readable(v.disk, ReadInode(v, r).1)
  }

  function PathInode(v: Vol, path: seq<Byte>): Inode {
    ReadInode(v, Lookup(v, ROOT_INUMBER, path)).1
  }

  /** What reading size bytes at an offset should give: the slice up to the end of the
      request or of the file, or one of the two refusals of the seek. */
  ghost function Slice(d: Disk, i: Inode, size: nat, offset: int): (int, seq<Byte>)
    requires Readable(d, i)
  {
    if offset < 0 || offset > Size(i) then (ERR_OFFSET_OUT_OF_RANGE, [])
    else if !AtBlock(i, offset) then (ERR_BAD_PARAMETER, [])
    else
      var n := if size < Size(i) - offset then size else Size(i) - offset;
      (n, Content(d, i)[offset..offset + n])
  }

  /** `fs_read` of a readable file gives the slice at the offset cut to 32 bits. */
  lemma ReadIsSlice(v: Vol, path: seq<Byte>, size: nat, offset: int)
    requires ReadablePath(v, path)
    ensures FsRead(v, path, size, offset) == Slice(v.disk, PathInode(v, path), size, AsInt32(offset))
  {
    hide Lookup, FindSector, Size, InodeAt, AsInt32, CopyFrom, Content;
    var i := PathInode(v, path);
    LookupFits(v, ROOT_INUMBER, path);
    if AtBlock(i, AsInt32(offset)) {
      CopyIsSlice(v.disk, i, AsInt32(offset), size);
    }
  }

  /** So it gives the slice at the offset asked for exactly when the offset fits in a C int,
      or its low 32 bits are refused as out of range like the offset itself. */
  lemma ReadIsIntendedIff(v: Vol, path: seq<Byte>, size: nat, offset: int)
    requires ReadablePath(v, path)
    ensures var i := PathInode(v, path);
      FsRead(v, path, size, offset) == Slice(v.disk, i, size, offset) <==>
        -0x8000_0000 <= offset < 0x8000_0000 || !(0 <= AsInt32(offset) <= Size(i))
  {
    hide Lookup, FindSector, InodeAt, AsInt32, FsRead, Content;
    CastKeepsSmall(offset);
    ReadIsSlice(v, path, size, offset);
  }

  /** The input that fails: 4 GiB past the start of any file that is not empty, the read
      succeeds and gives the file's first bytes. */
  lemma CastReadsFromStart(v: Vol, path: seq<Byte>, size: nat)
    requires ReadablePath(v, path) && Size(PathInode(v, path)) > 0 && size > 0
    ensures FsRead(v, path, size, 0x1_0000_0000) == FsRead(v, path, size, 0)
    ensures FsRead(v, path, size, 0x1_0000_0000).0 > 0
    ensures Slice(v.disk, PathInode(v, path), size, 0x1_0000_0000) == (ERR_OFFSET_OUT_OF_RANGE, [])
  {
    hide Lookup, FindSector, InodeAt, FsRead, Content;
    ReadIsSlice(v, path, size, 0x1_0000_0000);
    ReadIsSlice(v, path, size, 0);
    assert AsInt32(0x1_0000_0000) == 0 == AsInt32(0);
  }

  /** A caller of `fs_read` that asks for `chunk` bytes at a time and advances by the
      result, until it is 0 or an error. */
  function ReadWhole(v: Vol, path: seq<Byte>, chunk: nat, off: nat): seq<Byte>
    requires off < 0x1_000000
    decreases 0x1_000000 - off
  {
    var (n, data) := FsRead(v, path, chunk, off);
    if n <= 0 then []
    else
      CastKeepsSmall(off);
      data + ReadWhole(v, path, chunk, off + n)
  }

  lemma {:induction false} AlignedReadsReachTheEnd(v: Vol, path: seq<Byte>, chunk: nat, off: nat)
    requires ReadablePath(v, path) && AtBlock(PathInode(v, path), off) && chunk > 0
    requires chunk % SECTOR_SIZE == 0 || chunk >= Size(PathInode(v, path))
    ensures off < 0x1_000000 && ReadWhole(v, path, chunk, off) == Content(v.disk, PathInode(v, path))[off..]
    decreases Size(PathInode(v, path)) - off
  {
    hide Lookup, FindSector, Size, FsRead, Content, ReadInode, AsInt32;
    var i := PathInode(v, path);
    CastKeepsSmall(off);
    ReadIsSlice(v, path, chunk, off);
    var n := if chunk < Size(i) - off then chunk else Size(i) - off;
    if n > 0 {
      AlignedReadsReachTheEnd(v, path, chunk, off + n);
      assert Content(v.disk, i)[off..] == Content(v.disk, i)[off..off + n] + Content(v.disk, i)[off + n..];
    }
  }

  /** Iterated reads reconstruct the whole file exactly when the request size is a multiple
      of the sector size or covers the file at once: any other request ends on an offset
      that the next call refuses. */
  lemma WholeFileIff(v: Vol, path: seq<Byte>, chunk: nat)
    requires ReadablePath(v, path) && chunk > 0
    ensures ReadWhole(v, path, chunk, 0) == Content(v.disk, PathInode(v, path)) <==>
      chunk % SECTOR_SIZE == 0 || chunk >= Size(PathInode(v, path))
  {
    hide Lookup, FindSector, Size, FsRead, Content, ReadInode, AsInt32;
    var i := PathInode(v, path);
    var c := Content(v.disk, i);
    if chunk % SECTOR_SIZE == 0 || chunk >= Size(i) {
      AlignedReadsReachTheEnd(v, path, chunk, 0);
      assert c[0..] == c;
    } else {
      CastKeepsSmall(0);
      CastKeepsSmall(chunk);
      ReadIsSlice(v, path, chunk, 0);
      ReadIsSlice(v, path, chunk, chunk);
      assert ReadWhole(v, path, chunk, 0) == c[0..chunk] + ReadWhole(v, path, chunk, chunk);
    }
  }
}
