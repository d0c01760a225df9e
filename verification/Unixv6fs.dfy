/** The on-disk vocabulary of the UNIX v6 file system: bytes, little-endian
    16-bit words, sectors, and the error codes returned as negative C integers. */
module Unixv6fs {

  type Byte = b: int | 0 <= b < 256
  type U16 = w: int | 0 <= w < 65536

  const SECTOR_SIZE := 512
  const ADDRESSES_PER_SECTOR := 256
  const INODES_PER_SECTOR := 16
  const INODE_SIZE := 32
  const DIRENT_SIZE := 16
  const DIRENT_MAXLEN := 14
  const ADDR_SMALL_LENGTH := 8
  const MEDIUM_FILE_SECTORS := 1792
  const ROOT_INUMBER := 1
  const BOOTBLOCK_SECTOR := 0
  const BOOTBLOCK_MAGIC_NUM: Byte := 7
  const SUPERBLOCK_SECTOR := 1
  const SLASH: Byte := 47

  const ERR_NONE := 0
  const ERR_NOMEM := -126
  const ERR_IO := -125
  const ERR_BAD_BOOT_SECTOR := -124
  const ERR_INODE_OUT_OF_RANGE := -123
  const ERR_FILENAME_TOO_LONG := -122
  const ERR_INVALID_DIRECTORY_INODE := -121
  const ERR_UNALLOCATED_INODE := -120
  const ERR_FILENAME_ALREADY_EXISTS := -119
  const ERR_BITMAP_FULL := -118
  const ERR_FILE_TOO_LARGE := -117
  const ERR_OFFSET_OUT_OF_RANGE := -116
  const ERR_BAD_PARAMETER := -115
  const ERR_NO_SUCH_FILE := -114

  type Sector = s: seq<Byte> | |s| == SECTOR_SIZE witness seq(SECTOR_SIZE, _ => 0)

  /** The backing file, cut into sectors. Reading past its end is an I/O error,
      writing past its end extends it. */
  type Disk = seq<Sector>

  function ZeroSector(): (s: Sector)
    ensures forall i :: 0 <= i < 512 ==> s[i] == 0
  {
    seq(SECTOR_SIZE, _ => 0)
  }

  /** `sector_write`: the sector is replaced, or the file grows (with zeros) up to it. */
  function SectorWrite(d: Disk, k: nat, data: Sector): (r: Disk)
    ensures |r| == if k < |d| then |d| else k + 1
    ensures r[k] == data
    ensures forall j {:trigger r[j]} :: 0 <= j < |r| && j != k ==> r[j] == if j < |d| then d[j] else ZeroSector()
  {
    if k < |d| then d[k := data]
    else d + seq(k - |d|, _ => ZeroSector()) + [data]
  }

  /** A 16-bit little-endian word at byte offset k. */
  function Word(b: seq<Byte>, k: nat): U16
    requires k + 1 < |b|
  {
    var lo: int, hi: int := b[k], b[k + 1];
    lo + 256 * hi
  }

  /** The words packed in b, an odd trailing byte ignored. */
  function WordsOf(b: seq<Byte>): seq<U16> {
    seq(|b| / 2, i requires 0 <= i < |b| / 2 => Word(b, 2 * i))
  }

  function BytesOf(ws: seq<U16>): (b: seq<Byte>)
    ensures |b| == 2 * |ws|
  {
    seq(2 * |ws|, i requires 0 <= i < 2 * |ws| => if i % 2 == 0 then ws[i / 2] % 256 else ws[i / 2] / 256)
  }

  lemma BytesOfAt(ws: seq<U16>, i: nat)
    requires i < |ws|
    ensures BytesOf(ws)[2 * i] == ws[i] % 256 && BytesOf(ws)[2 * i + 1] == ws[i] / 256
  {
  }

  lemma WordsRoundTrip(ws: seq<U16>)
    ensures WordsOf(BytesOf(ws)) == ws
  {
    hide BytesOf;
    var b := BytesOf(ws);
    assert |b| == 2 * |ws|;
    forall i | 0 <= i < |ws| ensures Word(b, 2 * i) == ws[i] {
      BytesOfAt(ws, i);
    }
  }

  /** A 16-bit pattern read back as a signed `int16_t`. */
  function Int16(w: U16): int {
    if w < 32768 then w else w - 65536
  }

  /** A 64-bit value cast to a C int. */
  function AsInt32(x: int): int {
    (x + 0x8000_0000) % 0x1_0000_0000 - 0x8000_0000
  }

  lemma CastKeepsSmall(x: int)
    ensures -0x8000_0000 <= AsInt32(x) < 0x8000_0000 && (x - AsInt32(x)) % 0x1_0000_0000 == 0
    ensures -0x8000_0000 <= x < 0x8000_0000 <==> AsInt32(x) == x
    ensures AsInt32(x) % SECTOR_SIZE == x % SECTOR_SIZE
  {
    var q := (x + 0x8000_0000) / 0x1_0000_0000;
    assert AsInt32(x) == x - q * 0x1_0000_0000;
  }

  /** `src` laid over the bytes of `dst` that start at offset `at` (memcpy). */
  function Splice(dst: seq<Byte>, at: nat, src: seq<Byte>): (r: seq<Byte>)
    requires at + |src| <= |dst|
    ensures |r| == |dst|
    ensures forall k :: 0 <= k < |dst| ==> r[k] == if at <= k < at + |src| then src[k - at] else dst[k]
  {
    dst[..at] + src + dst[at + |src|..]
  }

  lemma SliceOfSlice<T>(s: seq<T>, a: nat, b: nat, c: nat, d: nat)
    requires a <= b <= |s| && c <= d <= b - a
    ensures s[a..b][c..d] == s[a + c..a + d]
  {
    forall i | 0 <= i < d - c ensures s[a..b][c..d][i] == s[a + c..a + d][i] {
      assert s[a..b][c + i] == s[a + c + i];
    }
  }

  lemma CutAt<T>(s: seq<T>, k: nat)
    requires k <= |s|
    ensures s == s[..k] + s[k..]
  {
  }
}
