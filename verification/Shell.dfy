/** u6fs.c in place: one command line, from mount to umount. */
module Shell {
  import opened Unixv6fs
  import opened Mounting
  import opened VolumeMounting
  import opened EntryCreation
  import opened Commands
  import Creation

  /** `u6fs_do_one_cmd` for mkdir and add, on the file that holds the disk. */
  method DoOneCmd(file: Disk, c: Command) returns (ret: int, after: Disk)
    requires CommandDefined(file, c)
    ensures (ret, after) == RunCommand(file, c)
  {
    hide Creation.Create, Creation.AddFile, Creation.CreateDefined, Creation.AddDefined, MountCode;
    var mounted, u := MountV6(file);
    if mounted != ERR_NONE {
      return mounted, file;
    }
    match c {
      case Mkdir(entry, junk) =>
        var inr := Create(u, entry, IFDIR, junk);
        if inr < 0 {
          ret := inr;
        } else {
          ret := ERR_NONE;
        }
      case Add(entry, buf, junk, junk') =>
        if |buf| > MAX_ADD_SIZE {
          return ERR_BAD_PARAMETER, u.f;
        }
        ret := AddFile(u, entry, OWNER_RIGHTS, buf, junk, junk');
    }
    after := u.f;
  }
}
