/** filev6.c as functions on values: reading a file block by block, and appending to it.
    Each function gives the return code and the new state of its C namesake, branch by
    branch; class FileV6 in OpenFile.dfy performs the same steps in place. */
module Files {
  import opened Unixv6fs
  import opened Inodes

  // ---------------------------------------------------------------- content

  /** How many sectors hold data. */
  function Blocks(i: Inode): nat {
    (Size(i) + SECTOR_SIZE - 1) / SECTOR_SIZE
  }

  predicate BlockOk(d: Disk, i: Inode, b: int) {
    0 <= FindSector(d, i, b) < |d|
  }

  ghost predicate Readable(d: Disk, i: Inode) {
    forall b :: 0 <= b < Blocks(i) ==> BlockOk(d, i, b)
  }

  /** The bytes of a file, defined by position: byte k is in block k / 512. */
  ghost function Content(d: Disk, i: Inode): (c: seq<Byte>)
    requires Readable(d, i)
    ensures |c| == Size(i)
  {
    seq(Size(i), k requires 0 <= k < Size(i) =>
      assert BlockOk(d, i, k / SECTOR_SIZE);
      d[FindSector(d, i, k / SECTOR_SIZE)][k % SECTOR_SIZE])
  }

  // ---------------------------------------------------------------- reading

  /** The offsets a cursor can have. */
  predicate AtBlock(i: Inode, off: int) {
    0 <= off <= Size(i) && (off == Size(i) || off % SECTOR_SIZE == 0)
  }

  /** One `filev6_readblock`: the return code, the bytes copied out, the new offset. */
  function ReadStep(d: Disk, i: Inode, off: int): (r: (int, seq<Byte>, int))
    requires AtBlock(i, off)
    ensures r.0 > 0 ==> off < r.2 && |r.1| == r.0 == r.2 - off <= SECTOR_SIZE
    ensures r.0 <= 0 ==> r.1 == [] && r.2 == off
    ensures AtBlock(i, r.2)
  {
    if off == Size(i) then (0, [], off)
    else
      var k := FindSector(d, i, off / SECTOR_SIZE);
      if k < 0 then (k, [], off)
      else if k >= |d| then (ERR_IO, [], off)
      else if Size(i) - off <= SECTOR_SIZE then (Size(i) - off, d[k][..Size(i) - off], Size(i))
      else (SECTOR_SIZE, d[k][..SECTOR_SIZE], off + SECTOR_SIZE)
  }

  /** What reading block after block yields: the bytes, and the last return code. */
  datatype Stream = Stream(data: seq<Byte>, code: int)

  function ReadFrom(d: Disk, i: Inode, off: int): (s: Stream)
    requires AtBlock(i, off)
    ensures s.code <= 0
    decreases Size(i) - off
  {
    var r := ReadStep(d, i, off);
    if r.0 <= 0 then Stream([], r.0)
    else
      var rest := ReadFrom(d, i, r.2);
      Stream(r.1 + rest.data, rest.code)
  }

  /** How many calls return data before the reader stops. */
  function ReadCount(d: Disk, i: Inode, off: int): nat
    requires AtBlock(i, off)
    decreases Size(i) - off
  {
    var r := ReadStep(d, i, off);
    if r.0 <= 0 then 0 else 1 + ReadCount(d, i, r.2)
  }

  /** Reading to the end enumerates the content from the offset on. */
  lemma {:induction false} StreamIsContent(d: Disk, i: Inode, off: int)
    requires Readable(d, i) && AtBlock(i, off)
    ensures ReadFrom(d, i, off) == Stream(Content(d, i)[off..], 0)
    ensures ReadCount(d, i, off) == (Size(i) - off + SECTOR_SIZE - 1) / SECTOR_SIZE
    decreases Size(i) - off
  {
    hide FindSector, Size;
    if off < Size(i) {
      var r := ReadStep(d, i, off);
      var b := off / SECTOR_SIZE;
      assert BlockOk(d, i, b);
      StreamIsContent(d, i, r.2);
      BlockIsSlice(d, i, b, r.0);
      assert Content(d, i)[off..] == Content(d, i)[off..r.2] + Content(d, i)[r.2..];
    }
  }

  lemma BlockIsSlice(d: Disk, i: Inode, b: nat, n: nat)
    requires Readable(d, i) && n <= SECTOR_SIZE && b * SECTOR_SIZE + n <= Size(i) && b < Blocks(i)
    ensures BlockOk(d, i, b)
    ensures Content(d, i)[b * SECTOR_SIZE..b * SECTOR_SIZE + n] == d[FindSector(d, i, b)][..n]
  {
    hide FindSector, Size;
    var s := d[FindSector(d, i, b)];
    var c := Content(d, i)[b * SECTOR_SIZE..b * SECTOR_SIZE + n];
    forall j | 0 <= j < n ensures c[j] == s[j] {
      assert (b * SECTOR_SIZE + j) / SECTOR_SIZE == b && (b * SECTOR_SIZE + j) % SECTOR_SIZE == j;
    }
  }

  /** Reading stops without an error exactly when every remaining block is found on the disk. */
  lemma {:induction false} StreamEndsIff(d: Disk, i: Inode, off: int)
    requires AtBlock(i, off)
    ensures ReadFrom(d, i, off).code == 0 <==> forall b :: off <= b * SECTOR_SIZE < Size(i) ==> BlockOk(d, i, b)
    decreases Size(i) - off
  {
    hide FindSector, Size;
    if off < Size(i) {
      var r, b0 := ReadStep(d, i, off), off / SECTOR_SIZE;
      assert off == b0 * SECTOR_SIZE;
      if r.0 > 0 {
        StreamEndsIff(d, i, r.2);
        assert BlockOk(d, i, b0);
        forall b | off <= b * SECTOR_SIZE < Size(i) && !(r.2 <= b * SECTOR_SIZE < Size(i)) ensures b == b0 {
        }
      } else {
        assert !BlockOk(d, i, b0);
      }
    }
  }

  /** `filev6_lseek`: the code, and the new offset. */
  function Seek(i: Inode, off: int, target: int): (r: (int, int)) {
    if target > Size(i) || target < 0 then (ERR_OFFSET_OUT_OF_RANGE, off)
    else if target != Size(i) && target % SECTOR_SIZE != 0 then (ERR_BAD_PARAMETER, off)
    else (ERR_NONE, target)
  }

  /** Exactly the block boundaries and the end are accepted, so reads may follow any seek. */
  lemma SeekAccepts(i: Inode, off: int, target: int)
    requires AtBlock(i, off)
    ensures Seek(i, off, target).0 == ERR_NONE <==> AtBlock(i, target)
    ensures Seek(i, off, target).1 == if AtBlock(i, target) then target else off
    ensures AtBlock(i, Seek(i, off, target).1)
  {
  }

  // ---------------------------------------------------------------- appending

  function PutSector(v: Vol, k: nat, data: Sector): Vol {
    v.(disk := SectorWrite(v.disk, k, data))
  }

  /** What the uninitialised tail of the sector buffer happens to hold, by file offset. */
  type Junk = int -> Sector

  /** `filev6_writesector`: `free` is what `bm_find_next` answered. The address slot is
      computed from the size after the write. */
  function WriteSector(v: Vol, n: int, i: Inode, chunk: seq<Byte>, fileSize: nat, free: int, junk: Junk): (r: (int, Vol, Inode))
    requires |chunk| <= SECTOR_SIZE && (free >= 0 ==> fileSize + |chunk| < 4096)
  {
    if free < 0 then (free, v, i)
    else
      var v1 := PutSector(v, free, chunk + junk(fileSize)[|chunk|..]);
      var (c, i1) := SetSize(i, fileSize + |chunk|);
      if c != ERR_NONE then (c, v1, i1)
      else
        SizeRoundTrip(i, fileSize + |chunk|);
        var i2: Inode := i1.(addr := i1.addr[Size(i1) / SECTOR_SIZE := free % 0x1_0000]);
        var (c2, v2) := WriteInode(v1, n, i2);
        (c2, v2, i2)
  }

  lemma NoSectorNoWrite(v: Vol, n: int, i: Inode, chunk: seq<Byte>, fileSize: nat, free: int, junk: Junk)
    requires |chunk| <= SECTOR_SIZE && free < 0
    ensures WriteSector(v, n, i, chunk, fileSize, free, junk) == (free, v, i)
  {
  }

  /** The loop of `filev6_writebytes`: sector after sector while data remains. The search
      for a free sector is repeated, but nothing was marked, so it answers the same. */
  function WriteChunks(v: Vol, n: int, i: Inode, rest: seq<Byte>, fileSize: nat, free: int, junk: Junk): (int, Vol, Inode)
    requires rest == [] || free < 0 || fileSize + |rest| < 4096
    decreases |rest|
  {
    if rest == [] then (ERR_NONE, v, i)
    else
      var m := if |rest| > SECTOR_SIZE then SECTOR_SIZE else |rest|;
      var (c, v1, i1) := WriteSector(v, n, i, rest[..m], fileSize, free, junk);
      if c < 0 then (c, v1, i1)
      else WriteChunks(v1, n, i1, rest[m..], fileSize + m, free, junk)
  }

  /** One round of that loop, the remaining bytes cut into this chunk and the rest. */
  lemma ChunksRound(v: Vol, n: int, i: Inode, chunk: seq<Byte>, after: seq<Byte>, fileSize: nat, free: int, junk: Junk)
    requires 0 < |chunk| <= SECTOR_SIZE && (after != [] ==> |chunk| == SECTOR_SIZE)
    requires free >= 0 ==> fileSize + |chunk| + |after| < 4096
    ensures var (c, v1, i1) := WriteSector(v, n, i, chunk, fileSize, free, junk);
      WriteChunks(v, n, i, chunk + after, fileSize, free, junk) ==
        if c < 0 then (c, v1, i1) else WriteChunks(v1, n, i1, after, fileSize + |chunk|, free, junk)
    ensures free < 0 ==> WriteSector(v, n, i, chunk, fileSize, free, junk) == (free, v, i)
  {
    hide WriteSector;
    assert (chunk + after)[..|chunk|] == chunk && (chunk + after)[|chunk|..] == after;
    if free < 0 {
      NoSectorNoWrite(v, n, i, chunk, fileSize, free, junk);
    }
  }

  lemma NoRounds(v: Vol, n: int, i: Inode, fileSize: nat, free: int, junk: Junk)
    ensures WriteChunks(v, n, i, [], fileSize, free, junk) == (ERR_NONE, v, i)
  {
  }

  /** `filev6_writesector_residual`: complete the last, partly filled sector. */
  function WriteResidual(v: Vol, n: int, i: Inode, chunk: seq<Byte>): (int, Vol, Inode)
    requires Size(i) % SECTOR_SIZE + |chunk| <= SECTOR_SIZE
  {
    var last := FindSector(v.disk, i, Size(i) / SECTOR_SIZE);
    if last < 0 then (last, v, i)
    else if last >= |v.disk| then (ERR_IO, v, i)
    else
      var v1 := PutSector(v, last, Splice(v.disk[last], Size(i) % SECTOR_SIZE, chunk));
      var (c, i1) := SetSize(i, Size(i) + |chunk|);
      (c, WriteInode(v1, n, i1).1, i1)
  }

  /** How many of len bytes still fit in the last, partly filled sector. */
  function Fitting(size: nat, len: nat): nat {
    var residual := size % SECTOR_SIZE;
    if residual == 0 then 0 else if SECTOR_SIZE - residual > len then len else SECTOR_SIZE - residual
  }

  /** The inputs for which the C code stays inside the `i_addr` array. */
  predicate WriteDefined(size: nat, len: nat, free: int) {
    size + len < 4096 || free < 0 || Fitting(size, len) == len || size / SECTOR_SIZE + 1 > MEDIUM_FILE_SECTORS
  }

  /** `filev6_writebytes`: the code of the residual write is not looked at. */
  function WriteBytes(v: Vol, n: int, i: Inode, buf: seq<Byte>, free: int, junk: Junk): (int, Vol, Inode)
    requires WriteDefined(Size(i), |buf|, free)
  {
    if SectorCount(i) > MEDIUM_FILE_SECTORS then (ERR_FILE_TOO_LARGE, v, i)
    else
      var m := Fitting(Size(i), |buf|);
      if Size(i) % SECTOR_SIZE != 0 then
        var (_, v1, i1) := WriteResidual(v, n, i, buf[..m]);
        WriteChunks(v1, n, i1, buf[m..], Size(i) + m, free, junk)
      else
        WriteChunks(v, n, i, buf, Size(i), free, junk)
  }
}
