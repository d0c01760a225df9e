/** `struct unix_filesystem`, with the sector and inode operations that act on it in place.
    Every method is tied to the function on values that specifies it. */
module Filesystem {
  import opened Unixv6fs
  import opened BmBlock
  import opened Inodes

  class UnixFs {
    /** The backing file. */
    var f: Disk
    const s: Superblock
    const ibm: Bitmap
    const fbm: Bitmap

    ghost predicate Valid()
      reads ibm, fbm
    {
      && ibm.Valid() && fbm.Valid() && ibm != fbm && ibm.bm != fbm.bm
      && ibm.max < 0x8000_0000 && fbm.max < 0x8000_0000
    }

    /** The volume as a value. */
    function Volume(): Vol
      reads this
    {
      Vol(f, s)
    }

    constructor (f: Disk, s: Superblock, ibm: Bitmap, fbm: Bitmap)
      requires ibm.Valid() && fbm.Valid() && ibm != fbm && ibm.bm != fbm.bm
      requires ibm.max < 0x8000_0000 && fbm.max < 0x8000_0000
      ensures Valid() && Volume() == Vol(f, s) && this.ibm == ibm && this.fbm == fbm
    {
      this.f, this.s, this.ibm, this.fbm := f, s, ibm, fbm;
    }

    /** `sector_read` */
    method ReadSector(k: nat) returns (ret: int, data: Sector)
      ensures ret == if k < |f| then ERR_NONE else ERR_IO
      ensures ret == ERR_NONE ==> data == f[k]
    {
      if k < |f| {
        return ERR_NONE, f[k];
      }
      return ERR_IO, ZeroSector();
    }

    /** `sector_write` */
    method WriteSector(k: nat, data: Sector) returns (ret: int)
      modifies this`f
      ensures ret == ERR_NONE && f == SectorWrite(old(f), k, data)
    {
      f := SectorWrite(f, k, data);
      return ERR_NONE;
    }

    /** `inode_read` */
    method InodeRead(inr: U16) returns (ret: int, inode: Inode)
      ensures (ret, inode) == ReadInode(Volume(), inr)
    {
      var target := s.inodeStart + inr / INODES_PER_SECTOR;
      var sectorEnd := s.inodeStart + s.isize - 1;
      if target > sectorEnd || s.isize == 0 || inr == 0 {
        return ERR_INODE_OUT_OF_RANGE, ZeroInode();
      }
      var code, sector := ReadSector(target);
      if code != ERR_NONE {
        return code, ZeroInode();
      }
      var at := (inr - inr / INODES_PER_SECTOR * INODES_PER_SECTOR) * INODE_SIZE;
      inode := DecodeInode(sector[at..at + INODE_SIZE]);
      if !Allocated(inode) {
        return ERR_UNALLOCATED_INODE, inode;
      }
      return ERR_NONE, inode;
    }

    /** `inode_write` */
    method InodeWrite(inr: U16, inode: Inode) returns (ret: int)
      modifies this`f
      ensures (ret, Volume()) == WriteInode(old(Volume()), inr, inode)
    {
      hide EncodeInode;
      var target := s.inodeStart + inr / INODES_PER_SECTOR;
      var sectorEnd := s.inodeStart + s.isize - 1;
      if target > sectorEnd || s.isize == 0 || inr < ROOT_INUMBER {
        return ERR_INODE_OUT_OF_RANGE;
      }
      var code, sector := ReadSector(target);
      if code != ERR_NONE {
        return code;
      }
      var at := (inr - inr / INODES_PER_SECTOR * INODES_PER_SECTOR) * INODE_SIZE;
      var written := WriteSector(target, Splice(sector, at, EncodeInode(inode)));
      if written != ERR_NONE {
        return written;
      }
      return ERR_NONE;
    }

    /** `inode_alloc` */
    method InodeAlloc() returns (inr: int)
      requires Valid()
      modifies ibm`cursor, ibm.bm
      ensures Valid() && fbm.View() == old(fbm.View())
      ensures inr == NextFree(old(ibm.View())) && ibm.View() == Alloc(old(ibm.View()))
    {
      SearchFitsInt(ibm.View());
      inr := ibm.FindNext();
      if inr < 0 {
        return ERR_BITMAP_FULL;
      }
      ibm.Set(inr);
    }
  }
}
