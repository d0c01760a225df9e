/** `struct filev6` and filev6.c in place: a block cursor over one file, and appends. */
module OpenFiles {
  import opened Unixv6fs
  import opened BmBlock
  import opened Inodes
  import opened Filesystem
  import Files

  class FileV6 {
    const u: UnixFs
    var iNumber: U16
    var iNode: Inode
    var offset: int

    /** A zeroed structure. */
    constructor (u: UnixFs)
      ensures this.u == u && iNumber == 0 && iNode == ZeroInode() && offset == 0
    {
      this.u := u;
      this.iNumber, this.iNode, this.offset := 0, ZeroInode(), 0;
    }

    /** `filev6_open` */
    method Open(inr: U16) returns (ret: int)
      modifies this
      ensures ret == ReadInode(u.Volume(), inr).0
      ensures ret == ERR_NONE ==> iNode == ReadInode(u.Volume(), inr).1 && iNumber == inr && offset == 0
      ensures ret != ERR_NONE ==> iNumber == old(iNumber) && offset == old(offset)
    {
      var code, inode := u.InodeRead(inr);
      if code != ERR_INODE_OUT_OF_RANGE && code != ERR_IO {
        iNode := inode;
      }
      if code != ERR_NONE {
        return code;
      }
      offset := 0;
      iNumber := inr;
      return ERR_NONE;
    }

    /** `filev6_readblock` */
    method ReadBlock(buf: array<Byte>) returns (ret: int)
      requires Files.AtBlock(iNode, offset) && buf.Length >= SECTOR_SIZE
      modifies this`offset, buf
      ensures var (n, block, next) := Files.ReadStep(u.f, iNode, old(offset));
        ret == n && offset == next && |block| <= buf.Length && buf[..] == block + old(buf[..])[|block|..]
    {
      var size := Size(iNode);
      if offset == size {
        return 0;
      }
      var k := FindSector(u.f, iNode, offset / SECTOR_SIZE);
      if k < 0 {
        return k;
      }
      var code, sector := u.ReadSector(k);
      if code < 0 {
        return code;
      }
      if size - offset <= SECTOR_SIZE {
        ret := size - offset;
        offset := size;
      } else {
        ret := SECTOR_SIZE;
        offset := offset + SECTOR_SIZE;
      }
      CopyInto(buf, 0, sector[..ret]);
    }

    /** `filev6_lseek` */
    method Lseek(target: int) returns (ret: int)
      modifies this`offset
      ensures (ret, offset) == Files.Seek(iNode, old(offset), target)
    {
      var size := Size(iNode);
      if target > size || target < 0 {
        return ERR_OFFSET_OUT_OF_RANGE;
      }
      if target != size && target % SECTOR_SIZE != 0 {
        return ERR_BAD_PARAMETER;
      }
      offset := target;
      return ERR_NONE;
    }

    /** `filev6_create`: only the mode of the record in memory is set before it is written. */
    method Create(mode: U16) returns (ret: int)
      requires u.Valid()
      modifies this, u`f, u.ibm`cursor, u.ibm.bm
      ensures u.Valid() && u.fbm.View() == old(u.fbm.View()) && u.ibm.View() == Alloc(old(u.ibm.View()))
      ensures var n := NextFree(old(u.ibm.View()));
        if n < 0 then ret == n && u.f == old(u.f)
        else
          && (ret, u.Volume()) == WriteInode(old(u.Volume()), n % 0x1_0000, iNode)
          && iNumber == n % 0x1_0000 && iNode == old(iNode).(mode := WithAlloc(mode)) && offset == 0
    {
      var inr := u.InodeAlloc();
      if inr < 0 {
        return inr;
      }
      offset := 0;
      iNode := iNode.(mode := WithAlloc(mode));
      iNumber := inr % 0x1_0000;
      ret := u.InodeWrite(inr % 0x1_0000, iNode);
    }

    /** `filev6_writesector` */
    method WriteSector(chunk: seq<Byte>, fileSize: nat, junk: Files.Junk) returns (ret: int)
      requires u.Valid() && |chunk| <= SECTOR_SIZE
      requires NextFree(u.fbm.View()) >= 0 ==> fileSize + |chunk| < 4096
      modifies this`iNode, u`f, u.fbm`cursor
      ensures u.Valid() && u.fbm.View() == AfterSearch(old(u.fbm.View())) && u.ibm.View() == old(u.ibm.View())
      ensures (ret, u.Volume(), iNode) ==
        Files.WriteSector(old(u.Volume()), iNumber, old(iNode), chunk, fileSize, NextFree(old(u.fbm.View())), junk)
    {
      hide PutInode, SectorWrite;
      ghost var before := u.Volume();
      SearchFitsInt(u.fbm.View());
      var free := u.fbm.FindNext();
      if free < 0 {
        return free;
      }
      var sector: Sector := chunk + junk(fileSize)[|chunk|..];
      var err := u.WriteSector(free, sector);
      assert u.Volume() == Files.PutSector(before, free, sector);
      var (code, sized) := SetSize(iNode, fileSize + |chunk|);
      SizeRoundTrip(iNode, fileSize + |chunk|);
      iNode := sized;
      if code != ERR_NONE {
        return code;
      }
      var index := Size(iNode) / SECTOR_SIZE;
      iNode := iNode.(addr := iNode.addr[index := free % 0x1_0000]);
      ret := u.InodeWrite(iNumber, iNode);
    }

    /** `filev6_writesector_residual` */
    method WriteResidual(chunk: seq<Byte>) returns (ret: int)
      requires Size(iNode) % SECTOR_SIZE + |chunk| <= SECTOR_SIZE
      modifies this`iNode, u`f
      ensures (ret, u.Volume(), iNode) == Files.WriteResidual(old(u.Volume()), iNumber, old(iNode), chunk)
    {
      hide PutInode, SectorWrite;
      ghost var before := u.Volume();
      var size := Size(iNode);
      var last := FindSector(u.f, iNode, size / SECTOR_SIZE);
      if last < 0 {
        return last;
      }
      var read, buffer := u.ReadSector(last);
      if read < 0 {
        return read;
      }
      var write := u.WriteSector(last, Splice(buffer, size % SECTOR_SIZE, chunk));
      assert u.Volume() == Files.PutSector(before, last, Splice(buffer, size % SECTOR_SIZE, chunk));
      var (code, sized) := SetSize(iNode, size + |chunk|);
      iNode := sized;
      var written := u.InodeWrite(iNumber, iNode);
      return code;
    }

    /** The loop of `filev6_writebytes`: sector by sector from a file size on. */
    method WriteLoop(buf: seq<Byte>, fileSize: nat, junk: Files.Junk) returns (ret: int)
      requires u.Valid() && (buf == [] || NextFree(u.fbm.View()) < 0 || fileSize + |buf| < 4096)
      modifies this`iNode, u`f, u.fbm`cursor
      ensures u.Valid() && u.ibm.View() == old(u.ibm.View())
      ensures u.fbm.View() == old(u.fbm.View()) || u.fbm.View() == AfterSearch(old(u.fbm.View()))
      ensures (ret, u.Volume(), iNode) ==
        Files.WriteChunks(old(u.Volume()), iNumber, old(iNode), buf, fileSize, NextFree(old(u.fbm.View())), junk)
    {
      hide Files.WriteSector, Files.WriteChunks, AfterSearch;
      ghost var bits := u.fbm.View();
      ghost var free := NextFree(bits);
      ghost var whole := Files.WriteChunks(u.Volume(), iNumber, iNode, buf, fileSize, free, junk);
      var toWrite := |buf|;
      var written := 0;
      assert buf[0..] == buf;
      while toWrite > 0
        invariant u.Valid() && u.ibm.View() == old(u.ibm.View())
        invariant u.fbm.View() == bits || (u.fbm.View() == AfterSearch(bits) && free >= 0)
        invariant 0 <= written <= |buf| && toWrite == |buf| - written
        invariant whole == Files.WriteChunks(u.Volume(), iNumber, iNode, buf[written..], fileSize + written, free, junk)
      {
        var n := if toWrite > SECTOR_SIZE then SECTOR_SIZE else toWrite;
        ghost var chunk, after := buf[written..written + n], buf[written + n..];
        assert buf[written..] == chunk + after;
        SearchIsIdempotent(bits);
        Files.ChunksRound(u.Volume(), iNumber, iNode, chunk, after, fileSize + written, free, junk);
        var code := WriteSector(buf[written..written + n], fileSize + written, junk);
        if code < 0 {
          return code;
        }
        toWrite := toWrite - n;
        written := written + n;
      }
      assert buf[written..] == [];
      Files.NoRounds(u.Volume(), iNumber, iNode, fileSize + written, free, junk);
      return ERR_NONE;
    }

    /** `filev6_writebytes` */
    method WriteBytes(buf: seq<Byte>, junk: Files.Junk) returns (ret: int)
      requires u.Valid() && Files.WriteDefined(Size(iNode), |buf|, NextFree(u.fbm.View()))
      modifies this`iNode, u`f, u.fbm`cursor
      ensures u.Valid() && u.ibm.View() == old(u.ibm.View())
      ensures u.fbm.View() == old(u.fbm.View()) || u.fbm.View() == AfterSearch(old(u.fbm.View()))
      ensures (ret, u.Volume(), iNode) ==
        Files.WriteBytes(old(u.Volume()), iNumber, old(iNode), buf, NextFree(old(u.fbm.View())), junk)
    {
      hide Files.WriteResidual, Files.WriteChunks, AfterSearch;
      var size := Size(iNode);
      if size / SECTOR_SIZE + 1 > MEDIUM_FILE_SECTORS {
        return ERR_FILE_TOO_LARGE;
      }
      var residual := size % SECTOR_SIZE;
      var small := if SECTOR_SIZE - residual > |buf| then |buf| else SECTOR_SIZE - residual;
      var written := 0;
      if residual != 0 {
        var ignored := WriteResidual(buf[..small]);
        written := small;
      }
      assert buf[0..] == buf;
      ret := WriteLoop(buf[written..], size + written, junk);
    }
  }

  /** memcpy into an array. */
  method CopyInto(dst: array<Byte>, at: nat, src: seq<Byte>)
    requires at + |src| <= dst.Length
    modifies dst
    ensures dst[..] == Splice(old(dst[..]), at, src)
  {
    forall j | 0 <= j < |src| {
      dst[at + j] := src[j];
    }
  }
}
