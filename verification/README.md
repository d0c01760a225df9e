# The UNIX v6 file system: write and read stack

This project models a UNIX v6 file system implementation written in C, from the packed
allocation bitmaps up to path creation, and proves what the stack keeps when it is used
through its commands. The on-disk format is the one of section V (`fs`, `dir`) of the UNIX
Programmer's Manual, Sixth Edition, with the two departures of the implementation: bitmaps in
memory instead of a free list, and a large-file scheme chosen from the size and not from ILARG.

Each C operation appears twice. A **function on values** gives its return code and new state,
branch by branch, and a **method in place**, on classes with the fields of the C structures,
performs the same steps with the same loops and is proved equal to that function. The
properties are lemmas about the functions, so they hold of the methods. What the functions
themselves mean is pinned to the image and to numbers: `Format.dfy` says which byte of the image
is which field and which byte of a file, `Refusals.dfy` which number each refusal is.

| layer | C files | on values | in place |
|---|---|---|---|
| sectors, bytes, codes | `sector.c`, `unixv6fs.h`, `error.h` | `Unixv6fs.dfy`, `Format.dfy`, `Refusals.dfy` | `UnixFilesystem.dfy` |
| bitmaps | `bmblock.c` | `BmBlock.dfy` (`Bits`) | `BmBlock.dfy` (`Bitmap`) |
| inodes | `inode.c`, `inode.h` | `Inode.dfy` | `UnixFilesystem.dfy` |
| files | `filev6.c` | `FileV6.dfy`, `Volume.dfy`, `Append.dfy` | `OpenFile.dfy` |
| directories | `direntv6.c` | `DirentV6.dfy`, `Tree.dfy` | `DirectoryReader.dfy` |
| creation | `direntv6.c` | `Create.dfy`, `Hierarchy.dfy`, `Growth.dfy`, `Limits.dfy` | `CreateEntry.dfy` |
| mount | `mount.c` | `Mount.dfy`, `MissedSector.dfy` | `MountVolume.dfy` |
| commands | `u6fs.c` | `U6fs.dfy`, `Remount.dfy`, `EmptyDisk.dfy`, `Images.dfy` | `Shell.dfy` |
| positioned read | `u6fs_fuse.c` | `U6fsFuse.dfy` | `FuseRead.dfy` |

A disk is a sequence of 512-byte sectors: reading past its end is `ERR_IO`, writing past its end
extends it. Error codes stay the negative C integers they are, because they matter as numbers:
an indirect entry is read through `int16_t` (`done/inode.c:103-105`), so the entry 0xFF8C is
indistinguishable from the code "offset out of range". The tail of a sector buffer that the C
code writes without initialising it (`done/filev6.c:98-100`) is the parameter `junk`, and every
theorem holds for all of its values.

## What a well-formed volume is

`Volumes.FilesOk`: the regions come in the documented order, every data and indirect sector of
every live file lies in the data area, and no sector serves two purposes.
`Hierarchy.VolumeOk`: in addition the root is a directory, directories hold whole entries with
distinct usable names that lead to live inodes, and there is no cycle.
`Commands.DiskOk`: in addition every live inode is one that a mount looks at.
`Growth.Extends`: nothing was lost; files have the same bytes, directories the same entries and
perhaps more behind them.
`Commands.CommandSound`: what a caller can check before a command, and exactly what leaves the
disk well formed: if the command will get as far as taking an inode, a scanned inode number is
free, and a file to add is one the code handles or there is no sector for it.

## Where the code and its documentation disagree

The code is followed, and what it does is stated exactly.

- `handouts/12.write-smallfiles.md:72` asks for the sector found to be marked as used;
  `filev6_writesector` does not mark it (`done/filev6.c:94`), so a second search gives the same
  sector again (`BmBlock.SearchIsIdempotent`). With the slot computed from the size after the
  write (`done/filev6.c:109-110`), this decides when an append or an added file is sound:
  `Appends.AppendKeepsVolumeIff` and `Growth.AddThenReadBack` give the exact conditions. The
  first non-empty file added to an empty disk always breaks it, while the command reports
  success (`EmptyDisk.FirstAddBreaksTheDisk`).
- A file that reaches 4096 bytes is read through indirect sectors from then on, but its slots
  were not rebuilt (`done/inode.c:86-91`), so its own first 16 bytes are taken for the sectors of
  its blocks; and a file that reaches 917504 bytes is refused as too large. The calls report
  success. `Appends.AppendKeepsVolumeIff` says exactly when the volume is still well formed,
  for every append the code defines; `Limits.CommandAtLimitIff` says it for mkdir and add in a
  parent that reaches a limit; `Images.LastEntryBreaksTheRoot` is a disk where mkdir breaks it.
- The mount scan looks at 16*(s_isize-1) inode numbers, while the inode bitmap goes to
  16*s_isize (`done/mount.c:55`, `done/mount.c:88-89`): after a create, a later mount sees every
  live inode exactly when a scanned number was still free (`Mounting.MountedSearches`,
  `Commands.CommandKeepsDiskIff`). `Images.MkdirHidesDirectory` is a disk where none was.
- A mount can succeed with a used sector unmarked, and then hand it out:
  `MissedSector.MountHandsOutUsedSector` gives the image, `Mounting.ScanIsExact` the exact
  condition for one file.
- The scan also looks up the block just past a file of whole blocks. For an indirect file that
  is an entry nobody wrote, and if it reads as a negative number the disk does not mount:
  `Remounting.DiskMountsIff` gives the exact condition, `Images.WellFormedDoesNotMount` such a
  disk, and `Remounting.CommandMountsIff` says after which commands a disk mounts again.
- `fs_read` casts a 64-bit offset to `int` (`done/u6fs_fuse.c:128`): a read 4 GiB past the start
  of a file gives its first bytes (`Fuse.CastReadsFromStart`); `Fuse.ReadIsIntendedIff` says
  exactly for which offsets the answer is the intended one.
- A directory is printed by the tree listing with a slash behind its path; that text does not
  resolve except for the root (`Trees.ListingAgreesWithLookup`).
- A path that ends in slashes does not resolve, but for one slash on inode 1, so looking up
  p "/" q from where p leads has two exceptions (`Directories.LookupOfJoin`).
- Reading a file by requests of one size rebuilds it exactly when that size is a multiple of 512
  or covers the file at once (`Fuse.WholeFileIff`).

## Model

| member | source | states |
|---|---|---|
| BmBlock.OnAfterTurnOn | done/bmblock.c:76-82 | Setting bit p of a packed 64-bit vector makes p set and leaves every other bit, in the same word or another, as it was |
| BmBlock.OnAfterTurnOff | done/bmblock.c:84-90 | Clearing bit p makes p clear and leaves every other bit as it was |
| BmBlock.BmAlloc | done/bmblock.c:20-41 | A new bitmap over [min, max] is the empty set with cursor 0; null exactly when min > max |
| BmBlock.Bitmap.Get | done/bmblock.c:43-50 | Membership in the set, a bad-parameter code outside [min, max] |
| BmBlock.Bitmap.Set | done/bmblock.c:76-82 | Insertion into the set, a no-op outside [min, max]; cursor and range unchanged |
| BmBlock.Bitmap.Clear | done/bmblock.c:84-90 | Removal from the set, a no-op outside [min, max] |
| BmBlock.Bitmap.FindNext | done/bmblock.c:52-74 | Returns the unique first number missing from the set in cyclic order from the cursor's word, "full" exactly when the set is all of [min, max]; cast to an `int`; no padding bit is ever returned, the cursor stays a word index and nothing is marked |
| BmBlock.SearchFitsInt | done/bmblock.c:67 | The cast of the answer loses nothing for bounds below 2^31 |
| BmBlock.NextFreeUnique | done/bmblock.c:52-74 | At most one number is first in the cyclic order |
| BmBlock.NextFreeExists | done/bmblock.c:52-74 | A set that is not all of [min, max] has a first missing number |
| BmBlock.SearchIsIdempotent | done/filev6.c:94 | A search repeated without marking gives the same number, because the cursor stays on its word |
| BmBlock.FreshSearchFindsSmallest | done/bmblock.c:38 | Right after allocation the search gives the smallest missing number |
| BmBlock.SearchOrder | done/bmblock.c:52-74 | The answer is the smallest missing number from the cursor's word on, or if there is none the smallest of all, and -118 if nothing is missing; the cursor is then the word of the answer, or one word back after a failure |
| BmBlock.AllocTakesOne | done/inode.c:139-148 | One allocation hands out a number that was free and removes exactly that one from the free set |
| BmBlock.AllocRunExact | done/inode.c:139-148 | From any state, n allocations in a row succeed exactly while free numbers remain, the numbers are pairwise distinct and were free, and every later call says "full" |
| BmBlock.FreeCount | done/bmblock.c:22-25 | The number of successes is max-min+1 minus what was marked at the start |
| Inodes.InodeLayout | done/unixv6fs.h:199-209 | Each field of the 32-byte record sits at its documented offset, little-endian |
| Inodes.InodeRoundTrip | done/unixv6fs.h:199-209 | Decoding an encoded inode gives the inode back |
| Format.SuperblockLayout | done/unixv6fs.h:170-179 | Each of the eight 16-bit fields is the low byte and 256 times the high byte at its place in the image, isize at bytes 512 and 513, inodeStart at 520 and 521, blockStart at 522 and 523 |
| Format.InodePosition | done/inode.c:33-45 | Inode n is the 32 bytes of the image from 512 * inodeStart + 32 * n on, field by field |
| Format.InodeMeaning | done/inode.h:25-28 | The size is bytes 6 and 7 and, times 65536, byte 5 of the record; the inode is in use if bit 7, and a directory if bit 6, of byte 1 is set |
| Format.PutInodePosition | done/inode.c:128-130 | Writing inode n writes these 32 bytes of the image and no other |
| Format.EncodedFields | done/unixv6fs.h:199-209 | What is written there is the record in the same layout |
| Format.NewInodeFields | done/filev6.c:71-89 | A new inode is the mode asked for with bit 15 set, and zero everywhere else |
| Format.DirectContent | done/inode.c:86-88 | Below 4096 bytes, byte p of a file is byte p % 512 of the sector in address slot p / 512 |
| Format.IndirectContent | done/inode.c:95-106 | From 4096 bytes on it is byte p % 512 of the sector whose signed 16-bit number stands at byte 2 * (p / 512) of the indirect sectors laid one after the other |
| Format.IndirectBlocks | done/inode.c:95-106 | The same for the sector of every block |
| Format.ReadableMeans | done/inode.c:76-106 | A file can be read if and only if these sectors are on the disk, and never from 917504 bytes on |
| Format.NoBlock | done/inode.c:79-93 | The other answers: -120 for a free inode, -116 past the last sector, -117 for a file too large, -125 for an indirect sector past the end of the disk |
| Inodes.SizeRoundTrip | done/inode.c:149-162 | Every 24-bit size is stored and read back in spite of the 17-bit mask, every other is refused with the inode unchanged, and no other field changes |
| Inodes.PutInodeIsUpdate | done/inode.c:108-135 | The inode table is a map: the slot written reads back, every other number reads as before whether or not it shares the sector |
| Inodes.PutInodeTouchesItsSlot | done/inode.c:128-130 | No byte outside the 32-byte slot changes |
| Inodes.WriteThenRead | done/inode.c:25-50 | Write and read accept the same numbers, 1..16*isize-1, fail alike, and a write is what the next read returns |
| Refusals.InodeAnswers | done/inode.c:36-49 | Reading inode n answers -123 outside 1..16*isize-1, -125 past the end of the disk, -120 for a free inode, 0 otherwise |
| Filesystem.UnixFs.ReadSector | done/sector.c:6-18 | Gives the sector, or an I/O error past the end of the file |
| Filesystem.UnixFs.WriteSector | done/sector.c:20-32 | Replaces one sector, extending the file when it lies past the end, and no other sector changes |
| Filesystem.UnixFs.InodeRead | done/inode.c:25-50 | Refines the lookup in the inode table, all four outcomes included |
| Filesystem.UnixFs.InodeWrite | done/inode.c:108-135 | Refines the update of the inode table by read-modify-write of one sector |
| Filesystem.UnixFs.InodeAlloc | done/inode.c:139-148 | Hands out the next free number and marks it; the sector bitmap is untouched |
| Files.StreamIsContent | done/filev6.c:26-54 | Reading block after block from an accepted offset yields exactly the content from there on, and takes ceil((size-offset)/512) non-zero reads, for direct and indirect files |
| Files.StreamEndsIff | done/filev6.c:34-42 | Reading ends without an error exactly when every remaining block is found on the disk |
| Refusals.StreamStops | done/filev6.c:34-42 | Reading a file with a bad block gives all bytes before it, and then the answer for that block |
| Files.SeekAccepts | done/filev6.c:56-69 | A seek is accepted exactly at block boundaries and at the end, and otherwise leaves the cursor; so the cursor is always at one of these |
| Directories.LookupFits | done/direntv6.c:102-169 | A lookup from a 16-bit number leads to a 16-bit number |
| Files.BlockIsSlice | done/inode.c:76-106 | The first bytes of block b are the content from b*512 on |
| Volumes.SameContent | done/inode.c:76-106 | When the sectors a file uses, indirect ones included, hold the same bytes, its content is the same |
| OpenFiles.FileV6.Open | done/filev6.c:12-24 | The inode is loaded and the cursor starts at 0; on an error number and cursor stay |
| OpenFiles.FileV6.ReadBlock | done/filev6.c:26-54 | Refines one step of the block reader; the buffer holds the block and behind it what it held before |
| OpenFiles.FileV6.Lseek | done/filev6.c:56-69 | Refines the seek |
| OpenFiles.FileV6.Create | done/filev6.c:71-89 | Takes the next free inode number, marks it, and writes the record with its mode set and allocated |
| OpenFiles.FileV6.WriteSector | done/filev6.c:91-114 | Refines the write of one new sector: the search moves the cursor but marks nothing |
| OpenFiles.FileV6.WriteResidual | done/filev6.c:149-171 | Refines the completion of the last sector |
| OpenFiles.FileV6.WriteLoop | done/filev6.c:135-145 | The loop refines the recursion over chunks that gives every round the same sector |
| OpenFiles.FileV6.WriteBytes | done/filev6.c:117-146 | Refines the append; the residual write's code is not looked at |
| Appends.WriteKeepsOthers | done/filev6.c:91-114 | Writing a data sector that is no other file's and then one inode changes no other inode, no other file's sectors and no metadata sector |
| Appends.OnlyFileKeepsOk | done/filev6.c:91-114 | A change confined to one file keeps all sectors disjoint and in the data area when each of its slots is an old one or a fresh sector of its own |
| Appends.AppendSector | done/filev6.c:91-114 | A chunk shorter than a sector after whole blocks goes into one fresh sector: content becomes content + chunk, everything else stays |
| Appends.AppendResidual | done/filev6.c:149-171 | A chunk that fits the last sector makes content into content + chunk, for direct and indirect files, and takes no sector |
| Appends.AppendBytes | done/filev6.c:117-146 | The append turns content C into C + buf, keeps every other file, inode and metadata sector, and the volume stays well formed |
| Appends.AppendOnFullVolume | done/filev6.c:94-97 | With no free sector and more bytes than fit, however many, the fitting part is appended and the failure is reported; the volume stays well formed unless those bytes reach a limit |
| Appends.ChunksFillSlots | done/filev6.c:135-145 | The whole loop comes to one data sector, with the last chunk in it, and to that sector in every slot from the one computed after the first chunk to the last; no other slot changes |
| Appends.SpillKeepsStaleSlot | done/filev6.c:109-110 | When a whole sector or more spills over, the file then claims the sector that the slot behind its last block held before, while the call reports success |
| Appends.SpillKeepsVolumeIff | done/filev6.c:117-146 | With a sector found, bytes that spill over and a final size below 4096, the append reports success, and the volume stays well formed if and only if less than a sector spills or the stale slot behind the last block happens to hold a sector that serves |
| Appends.ReachedIndirectIff | done/inode.c:82-91 | After an append to exactly 4096 bytes the volume is well formed if and only if the first eight words of the file are eight different sectors of the data area, none of them used by another file or the sector they stand in |
| Appends.ReachesLargest | done/inode.c:89-93 | After an append to 917504 bytes no block of the file is found any more |
| Appends.AppendKeepsVolumeIff | done/filev6.c:117-146 | For every append that the code defines, in terms of the state before: it fails if and only if bytes spill over and no sector was found, and the volume stays well formed if and only if, where bytes spill into a sector, less than a sector does or the stale slot serves, and otherwise the fitting bytes reach no limit or the first words serve |
| Refusals.AppendTooLarge | done/filev6.c:121-124 | An append to a file of 917504 bytes or more answers -117 and writes nothing |
| Refusals.AppendLost | done/filev6.c:130-134 | Bytes that fit into a last sector that cannot be read are not written, and the answer is 0 |
| Appends.ReachesIndirect | done/inode.c:82-91 | An append that reaches exactly 4096 bytes makes blocks 0 to 7 be looked up in the first 16 bytes of the file; no other file changes |
| Directories.DirentLayout | done/unixv6fs.h:247-251 | Inode number at offset 0, name zero-padded to 14 bytes at offset 2 |
| Directories.DirentRoundTrip | done/unixv6fs.h:247-251 | Decoding an encoded entry gives it back, names of full length 14 included |
| Format.EntryPosition | done/direntv6.c:45-47 | Entry j of a directory: its number in bytes 16 * j and 16 * j + 1, low byte first, and its name from byte 16 * j + 2 up to the first NUL or 14 bytes |
| Directories.EntriesAppend | done/direntv6.c:231 | Appending an encoded entry to whole entries adds exactly that entry to the list |
| Directories.LookupIsFold | done/direntv6.c:109-169 | Lookup of any path from any inode is the left fold of first-match directory search over the non-empty components, followed by an exact rule for trailing slashes |
| Directories.LookupOfJoin | done/direntv6.c:109-169 | Looking up p "/" q equals looking up q from where p leads, if and only if it is not one of two named slash cases |
| Directories.SplitDecomposes | done/direntv6.c:177-207 | entry = parent ++ slashes ++ name, the name slash-free, the parent not ending in a slash, slashes present exactly when entry has one |
| Directories.SplitIsUnique | done/direntv6.c:177-207 | That decomposition is the only one |
| Directories.SplitComponents | done/direntv6.c:177-207 | The last name is the last component and the parent has the others |
| Directories.LookupOfSplit | done/direntv6.c:251-257 | Resolving entry is resolving the parent path and then searching the last name there |
| DirectoryReaders.DirectoryReader.OpenDir | done/direntv6.c:14-30 | Opens exactly live directories; if the directory opened can be read entry by entry, what the reader will deliver is the list of entries decoded from the block stream |
| DirectoryReaders.DirectoryReader.Fetch | done/direntv6.c:37-44 | Fetching reads exactly one block, and neither loses nor repeats an entry still to come |
| DirectoryReaders.DirectoryReader.ReadDir | done/direntv6.c:32-50 | Each call takes the next entry off the list still to come, fetches only when the cache is used up, and at the end gives the same code for ever |
| DirectoryReaders.DirLookupCore | done/direntv6.c:109-169 | The loops over address and length compute the lookup of that part of the path; the recursion shortens it strictly |
| DirectoryReaders.FindInDir | done/direntv6.c:140-168 | The search loop finds the first entry of that name, or gives the code that ended the directory |
| DirectoryReaders.DirLookup | done/direntv6.c:102-108 | Refines the lookup of the whole path |
| DirectoryReaders.PrintTree | done/direntv6.c:52-100 | The recursive walk with its reader loop prints exactly the specified lines, those before an error included |
| DirectoryReaders.PrintEntries | done/direntv6.c:75-99 | The loop over a directory, from the first entry read, prints the lines of its entries in order |
| Trees.OpensFine | done/direntv6.c:14-50 | On a well-formed volume exactly the live directories open, and reading one yields all entries of its content and then 0 |
| Trees.TreeIsPreorder | done/direntv6.c:52-100 | The printed lines are the preorder of the hierarchy |
| Trees.PreorderIsBelow | done/direntv6.c:52-100 | Every listed place resolves, component by component, to the inode it is listed with |
| Trees.ResolvedIsListed | done/direntv6.c:52-100 | Whatever resolves from a directory is listed below it |
| Trees.PreorderIsDistinct | done/direntv6.c:52-100 | No place is listed twice |
| Trees.ListingAgreesWithLookup | done/direntv6.c:52-169 | From the root the listing succeeds; each line spells out a path, with a slash behind it for a directory, that lookup resolves to that inode; every path that resolves is, up to slashes, on exactly one line; a directory's printed text resolves literally only for the root; and the lines stand in the order of the directories, each place before what lies below it |
| Trees.PreorderIsOrdered | done/direntv6.c:75-97 | Of two listed places the first lies above the second, or where their paths part its name stands earlier in the directory |
| Trees.EntriesListed | done/direntv6.c:75-99 | On any volume, the entries of a directory are listed in order up to and with the first that fails, whose answer is the answer; if none fails it is what ended the directory |
| Trees.RankBoundsWalk | done/direntv6.c:88 | On a well-formed volume the recursion below a directory is no deeper than its rank, and every directory met can be read |
| EntryCreation.SplitName | done/direntv6.c:177-207 | The two right-to-left loops compute the split; a last name over 14 bytes is refused |
| EntryCreation.CreateDirent | done/direntv6.c:209-240 | Refines: fresh inode first, then the entry in the parent, each failure at its point |
| EntryCreation.Create | done/direntv6.c:242-270 | Refines creation on values, with the answers of the two bitmap searches |
| EntryCreation.AddFile | done/direntv6.c:271-294 | Refines adding a file; the second sector search gives the first one's answer again |
| Hierarchy.DirFindInEntries | done/direntv6.c:140-168 | On a well-formed volume searching a directory is searching its entry list, and a file that is no directory never answers "no such file" |
| Refusals.SearchAnswers | done/direntv6.c:140-168 | Searching directory n answers the number of the first entry of that name, -114 if there is none, -121 if n is a file, -120 if it is free, -123 outside the table |
| Refusals.SearchStops | done/direntv6.c:150-168 | In a directory with a bad block the entries before it are searched, and otherwise that block's answer is given |
| Refusals.PathRefusal | done/direntv6.c:109-169 | A path that does not resolve leads, up to some component, to a directory without the next one, and the answer is -114, or to a file, and it is -121 |
| Hierarchy.OthersKept | done/direntv6.c:209-240 | After a change confined to one file every other file is live as before with the same inode and bytes |
| Hierarchy.FreshInodeWritten | done/filev6.c:71-89 | Writing a fresh empty inode keeps the volume well formed and every other file |
| Hierarchy.CreateDirentAddsEntry | done/direntv6.c:209-240 | One new empty file and one entry for it at the end of the parent; when no sector was free the inode stays behind without an entry |
| Hierarchy.LeafKeepsVolume | done/direntv6.c:209-240 | Adding a leaf keeps names distinct, entries leading to live inodes and the hierarchy acyclic |
| Growth.CreateResult | done/direntv6.c:242-270 | Where the entry takes the parent to no size limit, creation succeeds if and only if the name is short enough, the parent resolves, the name is missing there and both searches answer; succeeding or failing, the volume stays well formed, nothing is lost, and only the parent and the new inode grow |
| Refusals.ReachesMeans | done/direntv6.c:242-268 | Creation gets past its checks if and only if the components before the last resolve to a directory without an entry of that name, which has 1 to 14 bytes |
| Refusals.CreateAnswers | done/direntv6.c:242-270 | Which answer is given, over components and entry lists: -122 for a last name over 14 bytes, the parent path's answer, -119 for a name that is there or is empty, -121 for a parent that is a file, -118 without an inode number or a sector for the entry, -123 for a number past the table, else the new number |
| Limits.CreateAtLimitIff | done/direntv6.c:242-270 | Where the entry takes the parent to a limit, creation reports success whatever the parent holds, and leaves a well-formed volume if and only if the parent, read through its own first words, is again a directory of distinct usable names that lead to live inodes without a cycle |
| Limits.AddAtLimitIff | done/direntv6.c:271-294 | The same for adding a file, with one condition more: its bytes, if a sector was found for them, fit in that one, and the parent does not take it for its own |
| Limits.WritesCommute | done/direntv6.c:271-294 | Writing an entry with its parent's inode, and a file's one sector with its inode, may change places |
| Growth.ResolveAfterAdd | done/direntv6.c:242-270 | After a creation every path that resolved leads where it led and the only new one is parent path plus new name |
| Growth.CreateThenLookup | done/direntv6.c:242-270 | The created path leads to the new inode, all resolving paths are kept, no other path starts to resolve, no file but the parent changes |
| Growth.FillOutcome | done/direntv6.c:289-293 | The content write of a new file returns 0 if and only if the file is empty or a sector was found, and then leaves a well-formed volume if and only if the file is empty, or shorter than a sector with no new sector taken by the parent |
| Growth.AddThenReadBack | done/direntv6.c:271-294 | For files under 4096 bytes, or of any size if no sector is found: the add succeeds if and only if the creation does and the file is empty or a sector was found; having succeeded it leaves a well-formed volume if and only if the file is empty, or is shorter than 512 bytes and the parent's last sector had room; then reading the path to the end yields exactly the bytes added and every file but the parent is unchanged; with a sector or more, reading starts with the boot sector |
| Growth.ExtendsTwice | done/u6fs.c:90-97 | "Nothing was lost" composes over commands |
| Growth.LookupGrows | done/direntv6.c:102-169 | On a volume that lost nothing every path still leads where it led |
| Mounting.ScanIsExact | done/mount.c:119-142 | The scan of a file reports success with every used sector marked if and only if all its blocks are found, and the block just past whole blocks is found or refused as out of range |
| MissedSector.MountHandsOutUsedSector | done/mount.c:138-141 | On a bootable image in the documented layout whose live file 2 has 0xFF8C as its first indirect entry, the mount succeeds, the sector of that file's next block is not marked, and the next search for a free sector answers that sector |
| MissedSector.HidingImageExists | done/mount.c:138-141 | There is such an image, given byte by byte |
| Mounting.ScanStaysInTable | done/mount.c:89-108 | A successful scan met only inode numbers that fit in 16 bits and lie on the disk, although the number is computed in a `uint16_t` that could wrap |
| Mounting.ScanMeans | done/mount.c:84-142 | On any volume, well formed or not, a successful scan gives an exact inode bitmap for the scanned numbers and marks every used sector in range of each file there, unless one of its blocks was refused with "out of range" |
| Mounting.ScanOfFilesSucceedsIff | done/mount.c:84-142 | On a volume whose files are in place the scan succeeds if and only if, for every live file scanned, the block just past its full blocks is found or refused as out of range |
| Mounting.MountRanges | done/mount.c:53-65 | The inode bitmap ranges over 1..16*isize, the sector bitmap from the first data sector to fsize, and the marked inodes are the live ones among 1..16*(isize-1) |
| Refusals.MountAnswers | done/mount.c:35-79 | The answers of a mount by the bytes of the image: -125 without a boot sector or superblock, -124 unless byte 0 is 7, -126 for bounds the wrong way round, else the scan's |
| Refusals.FirstFailure | done/mount.c:89-108 | The scan answers as the first visit that fails |
| Refusals.VisitAnswers | done/mount.c:93-108 | A visit fails with -123 when the number leaves 16 bits, -125 past the end of the disk, or the answer for the first block number refused, unless that is -116 |
| Mounting.MountIsSound | done/mount.c:84-142 | On a well-formed volume a successful scan marks exactly the live inodes and every sector in use |
| Mounting.MountedSearches | done/mount.c:54-73 | After such a mount the sector search gives an unused sector, or "full" exactly when every sector is marked, and the inode search a free number of the table, one the next mount will scan exactly when there is one |
| VolumeMounting.MarkHeads | done/mount.c:125-130 | The first loop marks the address slots up to the last one in use |
| VolumeMounting.MarkFound | done/mount.c:131-137 | The loop that visits block 0 twice terminates, marks every block up to the first refusal, and returns that refusal |
| VolumeMounting.WriteSectorOnBitmap | done/mount.c:119-142 | Marks exactly the specified set of sectors, as far as the bitmap's range goes |
| VolumeMounting.ScanInode | done/mount.c:93-109 | One visit marks the inode exactly when it is live, with its sectors, or gives the code that ends the mount |
| VolumeMounting.FillBitmaps | done/mount.c:84-116 | The nested loops over sectors and slots visit numbers 1..16*(isize-1) row by row, mark the live inodes, their sectors and each table row with a live one, and stop at the first failure |
| VolumeMounting.MountV6 | done/mount.c:25-82 | For every disk, whatever its superblock holds: the return code, and on success the volume of the disk with both bitmaps as scanned and both cursors at 0 |
| Commands.CommandKeepsDiskIff | done/u6fs.c:90-144 | In terms of the disk before: a mkdir or add on a well-formed disk succeeds if and only if the mount does, the name is short, its parent resolves, the name is missing there, and entry and bytes find their sectors; and it leaves the disk well formed if and only if, should it get as far as taking an inode, a scanned number is free and an added file is one the code handles or finds no sector; then nothing is lost |
| Refusals.CommandAnswers | done/u6fs.c:58-144 | The exit code of every defined mkdir and add on a well-formed disk: the mount's, -115 for a file over 4096 bytes, the creation's refusal, -118 without a sector for the bytes, else 0 |
| Limits.CommandAtLimitIff | done/u6fs.c:90-144 | In terms of the disk before: a mkdir or add whose entry takes the parent to a limit succeeds if and only if bytes to add find a sector, and leaves the disk well formed if and only if a scanned inode number is free and the misread parent and the bytes are harmless |
| Limits.DefinedIsClassified | done/u6fs.c:90-144 | These two results cover every command that the code defines on a well-formed disk that mounts |
| Commands.CommandKeepsDisk | done/u6fs.c:90-144 | A sound command, succeeding or failing, keeps the disk well formed and loses nothing |
| Commands.RunKeepsDisk | done/u6fs.c:53-150 | Any sequence of sound mkdir and add commands, each with its own mount and umount, keeps the disk well formed, every earlier file, and every earlier path |
| Commands.MkdirMakes | done/u6fs.c:90-97 | A successful mkdir makes a path that did not exist lead to a new directory, whose record is mode 0xC000 and otherwise zero |
| Commands.MkdirLasts | done/u6fs.c:90-97 | That path still leads to the same directory at the end of any sound run that follows |
| Commands.AddMakes | done/u6fs.c:98-144 | A successful sound add makes its path lead to a new file whose bytes, and what reading it gives, are exactly those added, with mode 0x81C0 and zero in all fields but size and first sector; no file but the parent changes |
| Commands.AddLasts | done/u6fs.c:98-144 | The path still leads to the same file with the same bytes at the end of any sound run that follows |
| Commands.CommandGrows | done/u6fs.c:90-144 | A sound command changes no inode but the parent's, longer by one entry, and the new one |
| Remounting.DiskMountsIff | done/mount.c:25-82 | A well-formed disk mounts if and only if its boot sector says so and, for every live file, the block just past its full blocks is found or refused as out of range |
| Remounting.CommandKeepsEndsIff | done/mount.c:131-137 | From a bootable disk without indirect files of whole blocks, which mounts, a sound command leaves such a disk if and only if the new entry does not fill the last sector of an indirect parent |
| Remounting.CommandFrame | done/u6fs.c:90-144 | A sound command writes nothing but the inode table, the sector the search found, and the parent's last sector behind its end; every other byte of the disk stays |
| Remounting.CommandMountsIff | done/mount.c:131-141 | From such a disk, a sound command leaves one that mounts if and only if it fills no indirect parent, or the entry behind the parent's new last block is no negative number but the one for "out of range", provided the command does not write that entry itself |
| Remounting.EndEntryStaysInside | done/inode.c:95-105 | It does not, unless the last entry of an indirect sector was taken |
| Remounting.RunMounts | done/u6fs.c:53-150 | In a sound run of commands that fill no such parent every single mount succeeds, so no command is turned away |
| Remounting.SmallRunMounts | done/u6fs.c:53-150 | On a bootable well-formed disk of directly addressed files every sound run is of this kind, and its files stay directly addressed |
| Remounting.RunKeepsTidy | done/filev6.c:91-114 | Sound runs leave the slots behind the last block of every directly addressed file 0 |
| Remounting.TidyAppendIff | done/filev6.c:117-146 | On volumes with such slots the append below 4096 bytes keeps the volume well formed if and only if less than a sector spills over |
| Remounting.MarksAreExact | done/mount.c:84-142 | On volumes of such, directly addressed files a successful scan marks a sector of the data area if and only if a live file uses it |
| Remounting.ScannedOnly | done/mount.c:119-142 | On any volume of files in place, a scan marks for each file no other sector than those it uses, the one just past its full blocks, and one address slot just past those in use |
| EmptyDisk.FormattedIsOk | done/unixv6fs.h:28-37 | Every bootable image in the documented layout with an empty root directory and nothing else is well formed |
| EmptyDisk.FormattedMounts | done/mount.c:25-82 | Such an image mounts, with a free inode number that a mount looks at and a free sector |
| EmptyDisk.MkdirSucceeds | done/u6fs.c:90-97 | On such an image mkdir is sound and succeeds for every usable name of at most 14 bytes below the root |
| EmptyDisk.FirstAddBreaksTheDisk | done/u6fs.c:98-144 | On such an image adding a file of 1 to 4095 bytes below the root reports success and leaves a volume that is not well formed |
| EmptyDisk.MkdirThenAdd | done/u6fs.c:90-144 | On such an image with two data sectors, a mkdir and then an add of fewer than 512 bytes beside it are sound and succeed, and the path leads to exactly the bytes added |
| EmptyDisk.FormattedExists | done/unixv6fs.h:28-37 | There is such an image, given byte by byte, with room for several sectors |
| Images.MkdirHidesDirectory | done/mount.c:88-89 | On every bootable image whose scanned inodes are all taken (empty root, empty files), mkdir below the root reports success and leaves a disk that is not well formed: no mount sees the new inode |
| Images.PackedImageExists | done/mount.c:88-89 | There is such an image |
| Images.WellFormedDoesNotMount | done/mount.c:131-141 | A bootable image that is well formed in every respect does not mount, because of the entry behind the last block of a nine-block file |
| Images.BadEndImageExists | done/mount.c:131-141 | There is that image, given byte by byte |
| Images.LastEntryBreaksTheRoot | done/inode.c:82-91 | On an image whose root holds 255 entries, mkdir of any new name of 3 to 14 bytes reports success and leaves a disk that is not well formed |
| Images.CrowdedImageExists | done/inode.c:82-91 | There is that image, given byte by byte |
| Shell.DoOneCmd | done/u6fs.c:53-150 | Mount, operation and umount in place leave exactly the exit code and disk of the specification |
| Fuse.CopyIsSlice | done/u6fs_fuse.c:133-152 | The copy loop yields the slice of the content that starts at the offset, cut at the request or the end |
| Refusals.CopyStops | done/u6fs_fuse.c:138-151 | The copy loop reads one block ahead: a bad block spoils the read if it is the first or the block before it was wanted, and then its answer is given |
| Refusals.FsReadAnswers | done/u6fs_fuse.c:119-152 | The answers of a positioned read before its loop: the path's, the inode's, -116 and -115 for the seek; otherwise the loop's code or the number of bytes |
| Fuse.ReadIsSlice | done/u6fs_fuse.c:113-154 | For every 64-bit offset, a positioned read of a readable file gives the slice of min(size, filesize-at) bytes at the offset cut to 32 bits, or one of the two refusals of the seek |
| Fuse.ReadIsIntendedIff | done/u6fs_fuse.c:128-132 | That is the answer for the offset asked for if and only if the offset fits in an `int` or its low 32 bits lie outside the file too |
| Fuse.CastReadsFromStart | done/u6fs_fuse.c:128 | At offset 2^32 every non-empty file is read from its start instead of refused |
| Fuse.WholeFileIff | done/u6fs_fuse.c:113-154 | Calls of `fs_read` with one positive size, advanced by the result until it is 0 or an error, rebuild the whole file if and only if that size is a multiple of 512 or covers the file |
| FuseReading.CopyLoop | done/u6fs_fuse.c:133-152 | The loop with its three offsets fills the buffer with the specified bytes and leaves the rest of it |
| FuseReading.FsRead | done/u6fs_fuse.c:113-154 | Refines the positioned read, all error paths included, the buffer untouched on an early one |

## Left out

- FUSE registration, `fs_getattr`, `fs_readdir` and `hello.c`: callbacks into a library that is not part of this model; only `fs_read` is.
- `fopen`, `fseek`, `fread`, `fwrite` and the file handling of umount: the backing file is a sequence of sectors, a local file to add is its bytes, and failing I/O is a sector past the end. The other commands of `u6fs.c` only print.
- `malloc`, `calloc`, `free`, NULL checks and leaks on error paths: names and buffers are sequences or arrays that are always there.
- Printing, SHA output, argument parsing, `inode_scan_print` and `utils_*`: tree output is a sequence of (kind, text) lines; the others repeat the read loop.
- Volumes.FilesOk: a well-formed volume has its regions in the documented order and at most 4095 inode sectors, so that every inode number fits in 16 bits; mounting and the commands are modelled for all superblocks.
- OpenFiles.FileV6.WriteSector: writes into a sector that was found and whose `i_addr` slot would be past the eighth are excluded, because the C code then has no defined behaviour (`Files.WriteDefined`).
- OpenFiles.FileV6.WriteBytes: the same exclusion; everything the C code defines is modelled, including writes that spill whole sectors and writes that find no sector.
- DirectoryReaders.DirLookupCore: looking a path up through a directory whose last block holds 1 to 15 bytes is excluded (`Directories.LookupDefined`), because the C reader then runs past its cache. Directories that the path does not visit may be of any kind, and none of a well-formed volume is of this one (`Hierarchy.DirsDefined`).
- DirectoryReaders.PrintTree: the same for the directories walked, and a cycle below the start, on which the C recursion does not end (`Trees.Walkable`).
- EntryCreation.CreateDirent: `strcpy` into `d_name` writes its terminator as a 15th byte for a name of 14 (`done/direntv6.c:223`), past the array and the structure; the model stores the name without it.
- Commands.CommandKeepsDiskIff: paths containing NUL are excluded, since a C string has none; entries that take their parent to a size limit are the subject of `Limits.CommandAtLimitIff`, and writes past the address slots have no defined behaviour.
- Growth.AddThenReadBack: files of exactly 4096 bytes, the largest that `u6fs` passes on, are excluded when a sector is found for them, because the last would go into a ninth address slot. A parent that reaches a limit is the subject of `Limits.AddAtLimitIff`.
- Growth.CreateResult: a parent that reaches a limit is the subject of `Limits.CreateAtLimitIff`.
- Remounting.CommandMountsIff: says nothing for a parent that fills its last indirect sector when the next address slot, which nothing initialises, points to a sector that the command writes, or past the end of the disk.
- Doubly indirect files: the code refuses them with "file too large", and so does the model.
