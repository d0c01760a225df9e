/** inode.c, inode.h and the structures of unixv6fs.h they work on: 32-byte inode
    records packed 16 to a sector, file sizes split over two fields, and the map from
    a file's block number to a disk sector. */
module Inodes {
  import opened Unixv6fs

  // ---------------------------------------------------------------- records

  datatype Superblock = Superblock(
    isize: U16, fsize: U16, fbmsize: U16, ibmsize: U16,
    inodeStart: U16, blockStart: U16, fbmStart: U16, ibmStart: U16)

  function SuperblockOf(b: Sector): Superblock {
    Superblock(Word(b, 0), Word(b, 2), Word(b, 4), Word(b, 6), Word(b, 8), Word(b, 10), Word(b, 12), Word(b, 14))
  }

  datatype InodeRecord = InodeRecord(
    mode: U16, nlink: Byte, uid: Byte, gid: Byte, size0: Byte, size1: U16,
    addr: seq<U16>, atime: seq<U16>, mtime: seq<U16>)

  type Inode = i: InodeRecord | |i.addr| == ADDR_SMALL_LENGTH && |i.atime| == 2 && |i.mtime| == 2
    witness ZeroInode()

  function ZeroInode(): InodeRecord {
    InodeRecord(0, 0, 0, 0, 0, 0, [0, 0, 0, 0, 0, 0, 0, 0], [0, 0], [0, 0])
  }

  /** IALLOC is the top bit of the 16-bit mode. */
  predicate Allocated(i: Inode) {
    i.mode >= 0x8000
  }

  /** `mode | IALLOC` */
  function WithAlloc(mode: U16): U16 {
    if mode >= 0x8000 then mode else mode + 0x8000
  }

  /** IFDIR is the bit below IALLOC. */
  predicate IsDirMode(mode: U16) {
    mode / 0x4000 % 2 == 1
  }

  predicate IsDir(i: Inode) {
    IsDirMode(i.mode)
  }

  function EncodeInode(i: Inode): (b: seq<Byte>)
    ensures |b| == INODE_SIZE
  {
    BytesOf([i.mode]) + [i.nlink, i.uid, i.gid, i.size0] + BytesOf([i.size1] + i.addr + i.atime + i.mtime)
  }

  function DecodeInode(b: seq<Byte>): Inode
    requires |b| == INODE_SIZE
  {
    var ws := WordsOf(b[6..]);
    InodeRecord(Word(b, 0), b[2], b[3], b[4], b[5], ws[0], ws[1..9], ws[9..11], ws[11..13])
  }

  /** Where each field of `struct inode` lies in the 32 bytes. */
  lemma InodeLayout(i: Inode)
    ensures var b := EncodeInode(i);
      && Word(b, 0) == i.mode && b[2] == i.nlink && b[3] == i.uid && b[4] == i.gid
      && b[5] == i.size0 && Word(b, 6) == i.size1
      && (forall k :: 0 <= k < ADDR_SMALL_LENGTH ==> Word(b, 8 + 2 * k) == i.addr[k])
      && (forall k :: 0 <= k < 2 ==> Word(b, 24 + 2 * k) == i.atime[k] && Word(b, 28 + 2 * k) == i.mtime[k])
  {
    hide BytesOf;
    var b, ws := EncodeInode(i), [i.size1] + i.addr + i.atime + i.mtime;
    BytesOfAt([i.mode], 0);
    forall k | 0 <= k < |ws| ensures Word(b, 6 + 2 * k) == ws[k] {
      BytesOfAt(ws, k);
      assert b[6 + 2 * k] == BytesOf(ws)[2 * k] && b[6 + 2 * k + 1] == BytesOf(ws)[2 * k + 1];
    }
    assert Word(b, 6 + 2 * 0) == ws[0];
    forall k | 0 <= k < ADDR_SMALL_LENGTH ensures Word(b, 8 + 2 * k) == i.addr[k] {
      assert Word(b, 6 + 2 * (k + 1)) == ws[k + 1];
    }
    forall k | 0 <= k < 2 ensures Word(b, 24 + 2 * k) == i.atime[k] && Word(b, 28 + 2 * k) == i.mtime[k] {
      assert Word(b, 6 + 2 * (k + 9)) == ws[k + 9] && Word(b, 6 + 2 * (k + 11)) == ws[k + 11];
    }
  }

  lemma InodeRoundTrip(i: Inode)
    ensures DecodeInode(EncodeInode(i)) == i
  {
    var ws := [i.size1] + i.addr + i.atime + i.mtime;
    assert EncodeInode(i)[6..] == BytesOf(ws);
    WordsRoundTrip(ws);
    assert ws[1..9] == i.addr && ws[9..11] == i.atime && ws[11..13] == i.mtime;
  }

  // ---------------------------------------------------------------- sizes

  /** `inode_getsize`: the two size fields do not overlap, so the C `|` is a sum. */
  function Size(i: Inode): (n: nat)
    ensures n < 0x1_000000
  {
    i.size0 * 0x1_0000 + i.size1
  }

  /** `inode_setsize`: the 17-bit mask is cut to 16 bits by the field it is stored in. */
  function SetSize(i: Inode, n: int): (r: (int, Inode)) {
    if n < 0 || n / 0x1_000000 != 0 then (ERR_BAD_PARAMETER, i)
    else (ERR_NONE, i.(size0 := n / 0x1_0000 % 0x100, size1 := n % 0x2_0000 % 0x1_0000))
  }

  /** Every 24-bit size is stored and read back, every other size is refused. */
  lemma SizeRoundTrip(i: Inode, n: int)
    ensures SetSize(i, n).0 == ERR_NONE <==> 0 <= n < 0x1_000000
    ensures SetSize(i, n).0 == ERR_NONE ==> Size(SetSize(i, n).1) == n
    ensures SetSize(i, n).0 != ERR_NONE ==> SetSize(i, n) == (ERR_BAD_PARAMETER, i)
    ensures SetSize(i, n).1.(size0 := i.size0, size1 := i.size1) == i
  {
    if 0 <= n < 0x1_000000 {
      var high, low := n / 0x1_0000, n % 0x1_0000;
      assert n == high * 0x1_0000 + low && high < 0x100;
      assert n % 0x2_0000 % 0x1_0000 == low;
    }
  }

  // ---------------------------------------------------------------- the inode table

  /** What the code sees of a mounted file system on disk: the sectors and the superblock. */
  datatype Vol = Vol(disk: Disk, sb: Superblock)

  /** The inode numbers that read and write accept. */
  predicate InTable(sb: Superblock, n: int) {
    1 <= n && n / INODES_PER_SECTOR < sb.isize
  }

  function SectorOfInode(sb: Superblock, n: nat): nat {
    sb.inodeStart + n / INODES_PER_SECTOR
  }

  function OffsetOfInode(n: nat): nat {
    n % INODES_PER_SECTOR * INODE_SIZE
  }

  predicate OnDisk(v: Vol, n: int) {
    InTable(v.sb, n) && SectorOfInode(v.sb, n) < |v.disk|
  }

  function InodeAt(v: Vol, n: int): Inode
    requires OnDisk(v, n)
  {
    var at := OffsetOfInode(n);
    DecodeInode(v.disk[SectorOfInode(v.sb, n)][at..at + INODE_SIZE])
  }

  /** `inode_read`: the error code and what the out-parameter holds (all zero when it was not filled). */
  function ReadInode(v: Vol, n: int): (r: (int, Inode)) {
    if !InTable(v.sb, n) then (ERR_INODE_OUT_OF_RANGE, ZeroInode())
    else if SectorOfInode(v.sb, n) >= |v.disk| then (ERR_IO, ZeroInode())
    else
      var i := InodeAt(v, n);
      (if Allocated(i) then ERR_NONE else ERR_UNALLOCATED_INODE, i)
  }

  function PutInode(v: Vol, n: int, i: Inode): (w: Vol)
    requires OnDisk(v, n)
    ensures |w.disk| == |v.disk| && w.sb == v.sb
  {
    var k := SectorOfInode(v.sb, n);
    v.(disk := v.disk[k := Splice(v.disk[k], OffsetOfInode(n), EncodeInode(i))])
  }

  /** `inode_write`: read the sector, lay the record over its slot, write the sector back. */
  function WriteInode(v: Vol, n: int, i: Inode): (r: (int, Vol)) {
    if !InTable(v.sb, n) then (ERR_INODE_OUT_OF_RANGE, v)
    else if SectorOfInode(v.sb, n) >= |v.disk| then (ERR_IO, v)
    else (ERR_NONE, PutInode(v, n, i))
  }

  /** The table is a map: a write is read back, every other number reads as before,
      whether or not it shares the sector. */
  lemma PutInodeIsUpdate(v: Vol, n: int, i: Inode, m: int)
    requires OnDisk(v, n) && OnDisk(v, m)
    ensures InodeAt(PutInode(v, n, i), m) == if m == n then i else InodeAt(v, m)
  {
    hide DecodeInode, EncodeInode;
    var w := PutInode(v, n, i);
    var at, k := OffsetOfInode(m), SectorOfInode(v.sb, m);
    if m == n {
      assert w.disk[k][at..at + INODE_SIZE] == EncodeInode(i);
      InodeRoundTrip(i);
    } else {
      assert k == SectorOfInode(v.sb, n) ==> at + INODE_SIZE <= OffsetOfInode(n) || OffsetOfInode(n) + INODE_SIZE <= at;
      assert w.disk[k][at..at + INODE_SIZE] == v.disk[k][at..at + INODE_SIZE];
    }
  }

  /** A write changes no byte outside the 32 bytes of its slot. */
  lemma PutInodeTouchesItsSlot(v: Vol, n: int, i: Inode, k: nat, b: nat)
    requires OnDisk(v, n) && k < |v.disk| && b < SECTOR_SIZE
    requires !(k == SectorOfInode(v.sb, n) && OffsetOfInode(n) <= b < OffsetOfInode(n) + INODE_SIZE)
    ensures PutInode(v, n, i).disk[k][b] == v.disk[k][b]
  {
  }

  /** `inode_write` then `inode_read`, error cases included. */
  lemma WriteThenRead(v: Vol, n: int, i: Inode, m: int)
    ensures WriteInode(v, n, i).0 != ERR_INODE_OUT_OF_RANGE <==> 1 <= n < INODES_PER_SECTOR * v.sb.isize
    ensures WriteInode(v, n, i).0 == ERR_NONE <==> ReadInode(v, n).0 in {ERR_NONE, ERR_UNALLOCATED_INODE}
    ensures WriteInode(v, n, i).0 != ERR_NONE ==> WriteInode(v, n, i) == (ReadInode(v, n).0, v)
    ensures WriteInode(v, n, i).0 == ERR_NONE ==>
      ReadInode(WriteInode(v, n, i).1, n) == (if Allocated(i) then ERR_NONE else ERR_UNALLOCATED_INODE, i)
    ensures m != n ==> ReadInode(WriteInode(v, n, i).1, m) == ReadInode(v, m)
  {
    if OnDisk(v, n) {
      PutInodeIsUpdate(v, n, i, n);
      if OnDisk(v, m) {
        PutInodeIsUpdate(v, n, i, m);
      }
    }
  }

  // ---------------------------------------------------------------- blocks of a file

  /** The sector count the code works with: one more than the full blocks. */
  function SectorCount(i: Inode): nat {
    Size(i) / SECTOR_SIZE + 1
  }

  /** `inode_findsector`: a sector number, or a negative code. A file shorter than 4096
      bytes lists its sectors in the inode, a longer one goes through indirect sectors. */
  function FindSector(d: Disk, i: Inode, off: int): int {
    var total := SectorCount(i);
    if !Allocated(i) then ERR_UNALLOCATED_INODE
    else if off < 0 || off >= total then ERR_OFFSET_OUT_OF_RANGE
    else if total <= ADDR_SMALL_LENGTH then i.addr[off]
    else if total <= MEDIUM_FILE_SECTORS then FindSectorBigFile(d, i, off)
    else ERR_FILE_TOO_LARGE
  }

  /** `inode_findsector_bigfile`: the entry is read through an `int16_t`. */
  function FindSectorBigFile(d: Disk, i: Inode, off: nat): int
    requires off < MEDIUM_FILE_SECTORS
  {
    var k := i.addr[off / ADDRESSES_PER_SECTOR];
    if k >= |d| then ERR_IO
    else Int16(Word(d[k], off % ADDRESSES_PER_SECTOR * 2))
  }
}
