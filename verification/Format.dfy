/** The on-disk format in absolute positions: which byte of the image holds which field, and
    which byte of the image is which byte of a file. */
module Format {
  import opened Unixv6fs
  import opened Inodes
  import opened Files
  import opened Volumes
  import opened Appends
  import opened Directories
  import opened Creation
  import opened Mounting

  /** Byte p of the image. */
  function ImageByte(d: Disk, p: nat): Byte
    requires p < 512 * |d|
  {
    d[p / 512][p % 512]
  }

  /** A 16-bit field: the low byte comes first. */
  function LittleEndian(low: int, high: int): int {
    low + 256 * high
  }

  // ---------------------------------------------------------------- the superblock

  /** The eight 16-bit fields of the superblock, which begins at byte 512. */
  lemma SuperblockLayout(d: Disk)
    requires |d| > SUPERBLOCK_SECTOR
    ensures var sb := VolumeOf(d).sb;
      && sb.isize == LittleEndian(ImageByte(d, 512), ImageByte(d, 513))
      && sb.fsize == LittleEndian(ImageByte(d, 514), ImageByte(d, 515))
      && sb.fbmsize == LittleEndian(ImageByte(d, 516), ImageByte(d, 517))
      && sb.ibmsize == LittleEndian(ImageByte(d, 518), ImageByte(d, 519))
      && sb.inodeStart == LittleEndian(ImageByte(d, 520), ImageByte(d, 521))
      && sb.blockStart == LittleEndian(ImageByte(d, 522), ImageByte(d, 523))
      && sb.fbmStart == LittleEndian(ImageByte(d, 524), ImageByte(d, 525))
      && sb.ibmStart == LittleEndian(ImageByte(d, 526), ImageByte(d, 527))
  {
  }

  // ---------------------------------------------------------------- the inode table

  /** Byte b of the record of inode n. */
  function RecordByte(v: Vol, n: nat, b: nat): Byte
    requires 512 * v.sb.inodeStart + 32 * n + b < 512 * |v.disk|
  {
    ImageByte(v.disk, 512 * v.sb.inodeStart + 32 * n + b)
  }

  lemma RecordOnDisk(v: Vol, n: int)
    requires OnDisk(v, n)
    ensures 1 <= n < 16 * v.sb.isize && 512 * v.sb.inodeStart + 32 * n + 32 <= 512 * |v.disk|
  {
  }

  lemma RecordSlice(v: Vol, n: int, b: nat)
    requires OnDisk(v, n) && b < 32
    ensures 512 * v.sb.inodeStart + 32 * n + b < 512 * |v.disk|
    ensures var k, at := SectorOfInode(v.sb, n), OffsetOfInode(n);
      at + b < 512 && v.disk[k][at + b] == RecordByte(v, n, b)
  {
    var p := 512 * v.sb.inodeStart + 32 * n + b;
    assert p / 512 == SectorOfInode(v.sb, n) && p % 512 == OffsetOfInode(n) + b;
  }

  /** A 16-bit word of the record of inode n. */
  function RecordWord(v: Vol, n: nat, b: nat): int
    requires 512 * v.sb.inodeStart + 32 * n + b + 1 < 512 * |v.disk|
  {
    LittleEndian(RecordByte(v, n, b), RecordByte(v, n, b + 1))
  }

  /** Inode n is the 32 bytes from 512 * inodeStart + 32 * n on, field by field. */
  lemma InodePosition(v: Vol, n: int)
    requires OnDisk(v, n)
    ensures 512 * v.sb.inodeStart + 32 * n + 32 <= 512 * |v.disk|
    ensures var i := InodeAt(v, n);
      && i.mode == RecordWord(v, n, 0) && i.nlink == RecordByte(v, n, 2) && i.uid == RecordByte(v, n, 3)
      && i.gid == RecordByte(v, n, 4) && i.size0 == RecordByte(v, n, 5) && i.size1 == RecordWord(v, n, 6)
      && (forall k :: 0 <= k < 8 ==> i.addr[k] == RecordWord(v, n, 8 + 2 * k))
      && (forall k :: 0 <= k < 2 ==> i.atime[k] == RecordWord(v, n, 24 + 2 * k) && i.mtime[k] == RecordWord(v, n, 28 + 2 * k))
  {
    hide OffsetOfInode, SectorOfInode, ImageByte;
    RecordOnDisk(v, n);
    var at := OffsetOfInode(n);
    RecordSlice(v, n, 0);
    RecordSlice(v, n, 31);
    var b := v.disk[SectorOfInode(v.sb, n)][at..at + INODE_SIZE];
    forall k | 0 <= k < 32 ensures b[k] == RecordByte(v, n, k) {
      RecordSlice(v, n, k);
    }
    DecodedFields(b);
    forall k | 0 <= k < 8 ensures InodeAt(v, n).addr[k] == RecordWord(v, n, 8 + 2 * k) {
      assert b[8 + 2 * k] == RecordByte(v, n, 8 + 2 * k) && b[9 + 2 * k] == RecordByte(v, n, 9 + 2 * k);
    }
    forall k | 0 <= k < 2 ensures InodeAt(v, n).atime[k] == RecordWord(v, n, 24 + 2 * k) && InodeAt(v, n).mtime[k] == RecordWord(v, n, 28 + 2 * k) {
      assert b[24 + 2 * k] == RecordByte(v, n, 24 + 2 * k) && b[25 + 2 * k] == RecordByte(v, n, 25 + 2 * k);
      assert b[28 + 2 * k] == RecordByte(v, n, 28 + 2 * k) && b[29 + 2 * k] == RecordByte(v, n, 29 + 2 * k);
    }
  }

  lemma DecodedFields(b: seq<Byte>)
    requires |b| == INODE_SIZE
    ensures var i := DecodeInode(b);
      && i.mode == LittleEndian(b[0], b[1]) && i.nlink == b[2] && i.uid == b[3] && i.gid == b[4] && i.size0 == b[5]
      && i.size1 == LittleEndian(b[6], b[7])
      && (forall k :: 0 <= k < 8 ==> i.addr[k] == LittleEndian(b[8 + 2 * k], b[9 + 2 * k]))
      && (forall k :: 0 <= k < 2 ==> i.atime[k] == LittleEndian(b[24 + 2 * k], b[25 + 2 * k]) && i.mtime[k] == LittleEndian(b[28 + 2 * k], b[29 + 2 * k]))
  {
    var ws := WordsOf(b[6..]);
    assert forall k :: 0 <= k < 13 ==> ws[k] == LittleEndian(b[6 + 2 * k], b[7 + 2 * k]);
  }

  /** What these fields mean: the size, whether the inode is in use, whether it is a
      directory. The last two are single bits of the mode. */
  lemma InodeMeaning(v: Vol, n: int)
    requires OnDisk(v, n)
    ensures 512 * v.sb.inodeStart + 32 * n + 32 <= 512 * |v.disk|
    ensures Size(InodeAt(v, n)) == RecordWord(v, n, 6) + 65536 * RecordByte(v, n, 5)
    ensures Live(v, n) <==> RecordByte(v, n, 1) / 128 % 2 == 1
    ensures IsDir(InodeAt(v, n)) <==> RecordByte(v, n, 1) / 64 % 2 == 1
  {
    hide InodeAt, RecordByte;
    InodePosition(v, n);
    HighBits(InodeAt(v, n).mode, RecordByte(v, n, 0), RecordByte(v, n, 1));
  }

  lemma HighBits(mode: U16, low: Byte, high: Byte)
    requires mode == low + 256 * high
    ensures mode >= 0x8000 <==> high / 128 % 2 == 1
    ensures IsDirMode(mode) <==> high / 64 % 2 == 1
  {
    assert mode / 0x4000 == high / 64;
  }

  /** Writing inode n writes these 32 bytes of the image, in the same layout, and no other. */
  lemma PutInodePosition(v: Vol, n: int, i: Inode, p: nat)
    requires OnDisk(v, n) && p < 512 * |v.disk|
    ensures var base := 512 * v.sb.inodeStart + 32 * n;
      ImageByte(PutInode(v, n, i).disk, p) == if base <= p < base + 32 then EncodeInode(i)[p - base] else ImageByte(v.disk, p)
  {
    hide EncodeInode;
    var base := 512 * v.sb.inodeStart + 32 * n;
    var k, at := SectorOfInode(v.sb, n), OffsetOfInode(n);
    if base <= p < base + 32 {
      assert p / 512 == k && p % 512 == at + (p - base);
    } else if p / 512 == k {
      assert !(at <= p % 512 < at + 32);
    }
  }

  lemma EncodedFields(i: Inode)
    ensures var b := EncodeInode(i);
      && i.mode == LittleEndian(b[0], b[1]) && i.nlink == b[2] && i.uid == b[3] && i.gid == b[4] && i.size0 == b[5]
      && i.size1 == LittleEndian(b[6], b[7])
      && (forall k :: 0 <= k < 8 ==> i.addr[k] == LittleEndian(b[8 + 2 * k], b[9 + 2 * k]))
      && (forall k :: 0 <= k < 2 ==> i.atime[k] == LittleEndian(b[24 + 2 * k], b[25 + 2 * k]) && i.mtime[k] == LittleEndian(b[28 + 2 * k], b[29 + 2 * k]))
  {
    hide EncodeInode;
    InodeRoundTrip(i);
    DecodedFields(EncodeInode(i));
  }

  // ---------------------------------------------------------------- modes

  /** A new inode: the mode asked for with the IALLOC bit set, and nothing else. */
  lemma NewInodeFields(mode: U16)
    ensures NewInode(mode) ==
      InodeRecord(if mode < 0x8000 then 0x8000 + mode else mode, 0, 0, 0, 0, 0, [0, 0, 0, 0, 0, 0, 0, 0], [0, 0], [0, 0])
  {
  }

  /** Everything but the size and the first address slot of a new file shorter than a sector. */
  predicate NewRecord(i: Inode, mode: int) {
    && i.mode == mode && i.nlink == 0 && i.uid == 0 && i.gid == 0
    && (forall k :: 1 <= k < 8 ==> i.addr[k] == 0) && i.atime == [0, 0] && i.mtime == [0, 0]
  }

  lemma FilledRecord(mode: U16, j: Inode, len: nat, s: int)
    requires Lengthened(NewInode(mode), j, len, s) && mode < 0x8000
    ensures NewRecord(j, 0x8000 + mode) && Size(j) == len
  {
  }

  // ---------------------------------------------------------------- blocks of a file

  /** The sectors with these numbers, one after the other. */
  function Joined(d: Disk, addr: seq<U16>): (b: seq<Byte>)
    requires forall k :: 0 <= k < |addr| ==> addr[k] < |d|
    ensures |b| == 512 * |addr|
  {
    if addr == [] then [] else d[addr[0]] + Joined(d, addr[1..])
  }

  lemma {:induction false} JoinedAt(d: Disk, addr: seq<U16>, q: nat, r: nat)
    requires forall k :: 0 <= k < |addr| ==> addr[k] < |d|
    requires q < |addr| && r < 512
    ensures 512 * q + r < |Joined(d, addr)| && Joined(d, addr)[512 * q + r] == d[addr[q]][r]
  {
    if q > 0 {
      JoinedAt(d, addr[1..], q - 1, r);
    }
  }

  /** Two bytes read as a signed 16-bit number. */
  function Signed(low: int, high: int): int {
    if high < 128 then LittleEndian(low, high) else LittleEndian(low, high) - 65536
  }

  /** How many indirect sectors the blocks of a file need. */
  function Tables(i: Inode): nat {
    (Blocks(i) + 255) / 256
  }

  /** Below 4096 bytes block b is in the sector of address slot b. */
  lemma DirectBlocks(d: Disk, i: Inode, b: nat)
    requires Allocated(i) && Size(i) < 4096 && b <= Size(i) / 512
    ensures FindSector(d, i, b) == i.addr[b]
  {
  }

  /** From 4096 bytes on the sector of block b is the signed number at byte 2 * b of the
      indirect sectors laid one after the other. */
  lemma IndirectBlocks(d: Disk, i: Inode, b: nat)
    requires Allocated(i) && 4096 <= Size(i) < 917504 && b < Blocks(i)
    requires forall k :: 0 <= k < Tables(i) && k < 8 ==> i.addr[k] < |d|
    ensures Tables(i) <= 7 && 2 * b + 1 < 512 * Tables(i)
    ensures var table := Joined(d, i.addr[..Tables(i)]); FindSector(d, i, b) == Signed(table[2 * b], table[2 * b + 1])
  {
    hide Joined;
    var q, r := b / 256, b % 256;
    JoinedAt(d, i.addr[..Tables(i)], q, 2 * r);
    JoinedAt(d, i.addr[..Tables(i)], q, 2 * r + 1);
    assert 512 * q + 2 * r == 2 * b;
  }

  /** Byte p of a directly addressed file. */
  lemma DirectContent(d: Disk, i: Inode, p: nat)
    requires Allocated(i) && Size(i) < 4096 && Readable(d, i) && p < Size(i)
    ensures p / 512 < 8 && i.addr[p / 512] < |d| && Content(d, i)[p] == d[i.addr[p / 512]][p % 512]
  {
    hide Size, FindSector;
    DirectBlocks(d, i, p / 512);
    assert BlockOk(d, i, p / 512);
  }

  /** Byte p of a file with indirect sectors. */
  lemma IndirectContent(d: Disk, i: Inode, p: nat)
    requires Allocated(i) && 4096 <= Size(i) < 917504 && Readable(d, i) && p < Size(i)
    requires forall k :: 0 <= k < Tables(i) && k < 8 ==> i.addr[k] < |d|
    ensures Tables(i) <= 7 && 2 * (p / 512) + 1 < 512 * Tables(i)
    ensures var table := Joined(d, i.addr[..Tables(i)]);
      var t := Signed(table[2 * (p / 512)], table[2 * (p / 512) + 1]);
      0 <= t < |d| && Content(d, i)[p] == d[t][p % 512]
  {
    hide Size, FindSector, Joined;
    IndirectBlocks(d, i, p / 512);
    assert BlockOk(d, i, p / 512);
  }

  /** Which files can be read at all: allocated ones below 917504 bytes whose sectors, as
      computed above, are on the disk. A larger file never can. */
  lemma ReadableMeans(d: Disk, i: Inode)
    requires Allocated(i) && (4096 <= Size(i) < 917504 ==> forall k :: 0 <= k < Tables(i) && k < 8 ==> i.addr[k] < |d|)
    ensures Size(i) < 4096 ==> (Readable(d, i) <==> forall b :: 0 <= b < Blocks(i) && b < 8 ==> i.addr[b] < |d|)
    ensures 4096 <= Size(i) < 917504 ==>
      var table := Joined(d, i.addr[..if Tables(i) < 8 then Tables(i) else 0]);
      Readable(d, i) <==> forall b :: 0 <= b < Blocks(i) && 2 * b + 1 < |table| ==> 0 <= Signed(table[2 * b], table[2 * b + 1]) < |d|
    ensures Size(i) >= 917504 ==> !Readable(d, i)
  {
    hide Joined, FindSector;
    if Size(i) < 4096 {
      forall b | 0 <= b < Blocks(i) ensures BlockOk(d, i, b) <==> i.addr[b] < |d| {
        DirectBlocks(d, i, b);
      }
    } else if Size(i) < 917504 {
      forall b | 0 <= b < Blocks(i)
        ensures Tables(i) <= 7 && 2 * b + 1 < 512 * Tables(i)
        ensures var table := Joined(d, i.addr[..Tables(i)]); BlockOk(d, i, b) <==> 0 <= Signed(table[2 * b], table[2 * b + 1]) < |d|
      {
        IndirectBlocks(d, i, b);
      }
    } else {
      NoBlock(d, i, 0);
      assert !BlockOk(d, i, 0);
    }
  }

  /** The answers that are no sector, in numbers: not allocated, out of range, too large, and
      an indirect sector past the end of the disk. */
  lemma NoBlock(d: Disk, i: Inode, b: int)
    ensures !Allocated(i) ==> FindSector(d, i, b) == -120
    ensures Allocated(i) && (b < 0 || b > Size(i) / 512) ==> FindSector(d, i, b) == -116
    ensures Allocated(i) && 0 <= b <= Size(i) / 512 && Size(i) >= 917504 ==> FindSector(d, i, b) == -117
    ensures Allocated(i) && 0 <= b <= Size(i) / 512 && 4096 <= Size(i) < 917504 && i.addr[b / 256] >= |d| ==> FindSector(d, i, b) == -125
  {
  }

  // ---------------------------------------------------------------- directory entries

  /** Entry j of a directory: its number, and its name up to the first NUL or 14 bytes. */
  lemma EntryPosition(data: seq<Byte>, j: nat)
    requires 16 * j + 16 <= |data|
    ensures j < |Entries(data)|
    ensures var e := Entries(data)[j];
      && e.inr == LittleEndian(data[16 * j], data[16 * j + 1]) && |e.name| <= 14
      && (forall k :: 0 <= k < |e.name| ==> e.name[k] == data[16 * j + 2 + k] != 0)
      && (|e.name| < 14 ==> data[16 * j + 2 + |e.name|] == 0)
  {
    hide UpToNul;
    var b := data[16 * j..16 * j + 16];
    var name := UpToNul(b[2..]);
    assert forall k :: 0 <= k < |name| ==> name[k] in name;
    assert forall k :: 0 <= k < 14 ==> b[2..][k] == data[16 * j + 2 + k];
  }
}
