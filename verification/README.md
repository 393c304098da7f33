# A verified model of RayOS

RayOS is a small x86-64 kernel. This project models four of its parts in Dafny and proves what they keep over
every call, every run and every interleaving. `dafny verify dfyconfig.toml` checks all of it.

**The FAT volume engine** (`src/fs/ff.c`, in the configuration of `inc/ffconf.h`), layer by layer, each one against a
simple counterpart:

- the mount arithmetic against a disjoint layout (`Geometry`) and against the bytes of the boot sector (`BootSector`);
- the write-back window with FAT mirroring against a flat disk (`Volume`);
- the packed 12/16/32-bit FAT against an array of links (`FatTable`);
- the cluster allocator against a set of disjoint sequences (`Chain`, `ChainRuns`, `FreeCount`), and its count
  across sync_fs and the next mount (`CountSync`);
- open files against a byte array with a cursor (`FileRep`, `FileState`, `File`, `FileRuns`), and several of them
  on one volume (`OpenFiles`, `StaleBuffer`); what f_sync leaves for the next mount (`Reopen`);
- names against the bytes the caller gave (`LongNames`, `ShortNames`, `NumberedNames`, `FileInfo`, `NameRoundTrip`);
- directories against a set of names (`DirScan`, `DirEdit`, `DirRuns` on entries; `DirRep`, `Directory`, `DirOps`,
  `DirRegister`, `DirWalk`, `NameOps`, `Unlink` on the disk, where the walks work on any links);
- the on-disk format itself, byte by byte (`DiskFormat`).

**Memory** (`src/bitmap.c`, `src/page.c`, `src/mm/`): the page bitmap (`BitWords`, `Bitmaps`, `Pages`), four-level page
tables edited through their own self-map against a map from pages to frames (`PageTables`, `PageTree`, `TableCount`,
`Paging`), and kmalloc/kfree over both, from the boot tables on (`MemPool`, `KernelHeap`, `HeapRuns`).

**The scheduler's queues** (`src/task.c`, `src/queue.c`, `src/list.c`): a step machine whose CPUs interleave freely
(`Scheduler`), and the circular lists below it (`Queues`).

**Dentry counting** behind open and close (`src/fs/vfs.c`, `src/syscalls.c`): `Dentries`.

What the model takes as given:

- The disk is a sequence of 512-byte sectors whose reads and writes succeed, as `disk_read` and `disk_write` report
  (`src/fs/diskio.c:66-101`). `disk_ioctl` reports an error on every call (`src/fs/diskio.c:121`), so `sync_fs` fails
  after having written everything; durability is stated on the contents of the disk.
- The code page is any single-byte one in which ASCII is itself and extended characters have distinct units above it;
  case folding is any function that folds only the terminator to the terminator and, where names must not collide,
  identifies ASCII characters only up to case. The tables of `src/fs/ffunicode.c` are not part of the model.
- `csize` is a power of two; masks with `csize - 1` are written as remainders.
- In a well-formed directory blank entries are at the end, every LFN entry belongs to a complete set in front of its
  short name, and volume labels carry the label attribute alone.
- Frames are 512-entry tables, no entry uses bits 52 to 63 or a large page, translations follow the tables at once,
  and a mapping call finds as many free frames as tables are missing on its walks, each counted once (the source does
  not look at a failed `alloc_page`). `2^order` does not exceed the bitmap in kmalloc, since the search limit wraps
  otherwise. Bit positions fit an `int`.
- The FSInfo sector of a FAT32 volume is a reserved one; with a single reserved sector it would be the first FAT sector
  (`Volume.MountedAt`).
- Any CPU may be chosen by `sched_enqueue_balanced`, so the mapping through `ap_ids` does not matter to the results.

Where the code does not keep what one would expect, the model follows the code and says exactly when: `alloc_pages` hands
out a block past the end of memory (`Pages.AllocPages`), a wrapped mount is accepted (`Geometry.MountGeometry`), a CPU
without a current task never runs its queue (`Scheduler.FairExactly`), descriptors repeat (`Dentries.SysOpen`), a full
pool loses a block (`HeapRuns.MallocStep`), the last word of the page bitmap can lie in a page that is not marked
(`HeapRuns.BitmapInside`), and bytes of a truncated file that grows again can have two values (`StaleBuffer.Tear`).
Each comes with an input or a run that fails: `Pages.PastTheEnd`, `Geometry.WrappedMountIsBad`, `Scheduler.Starved`,
`Dentries.WrapRun`, `HeapRuns.FullPool`, `StaleBuffer.StaleRun`.

## Model

| member | source | states |
|---|---|---|
| `Geometry.MountGeometry` | src/fs/ff.c:4652-4742 | for every boot sector the FAT branch accepts, the areas follow each other inside the volume and the first FAT holds every entry if and only if no 32-bit sum of the mount arithmetic wraps |
| `Geometry.WrappedMountIsBad` | src/fs/ff.c:4670-4699 | a family of boot sectors whose FAT size wraps is accepted and gets a layout that overruns the volume |
| `BootSector.Accepted` | src/fs/ff.c:4652-4742 | a boot sector is accepted as a volume of a sub-type if and only if its bytes describe one: 512-byte sectors, one or two FATs, a power of two of sectors per cluster, a root table of whole sectors that FAT32 alone lacks, reserved sectors, room for a cluster, FATs with an entry for each; the sub-type is FAT12 up to 0xFF5 clusters, FAT16 from 0xFF6 to 0xFFF5, FAT32 above |
| `BootSector.AcceptedGeometry` | src/fs/ff.c:4652-4742 | every field of the geometry in terms of the bytes of the boot sector, modulo 2^32 |
| `BootSector.Floppy` | src/fs/ff.c:4652-4742 | a 1.44 MB floppy disk is FAT12 with 2847 clusters from sector 33 on |
| `Geometry.EntryInsideFat` | src/fs/ff.c:4712-4742 | every byte of every entry, also with the 3/2 formula of FAT12, lies inside the first FAT |
| `Geometry.ClusterInData` | src/fs/ff.c:1496-1506 | the sectors of a cluster lie in the data area, outside both FATs, inside the medium |
| `Geometry.ClustersDisjoint` | src/fs/ff.c:1496-1506 | clst2sect maps different clusters to disjoint sector ranges |
| `Geometry.EndMarkEndsChains` | src/fs/ff.c:2096-2097 | the stored end mark reads back as at least n_fatent and every cluster number fits an entry |
| `FatTable.CodecRoundTrip` | src/fs/ff.c:1512-1700 | a stored entry reads back modulo 2^12, 2^16 or 2^28, every other entry reads as before (shared nibbles and entries across two sectors included), and the top four bits of FAT32 entries stay |
| `FatTable.LinksPut` | src/fs/ff.c:1637-1700 | storing one entry changes the array of links at that cluster and nowhere else |
| `DiskFormat.EntryBytes` | src/fs/ff.c:1512-1630 | entry c of the FAT byte by byte: 12 bits in three half-bytes, 16 bits, or the low 28 of 32 bits, lowest byte first |
| `DiskFormat.ClustersInOrder` | src/fs/ff.c:1496-1506 | cluster 2 is at the start of the data area and each cluster right behind the one before it |
| `DiskFormat.RootStart` | src/fs/ff.c:2220-2232 | directory 0 is the static table, on FAT32 the chain the boot sector names |
| `Volume.FsInfoRoundTrip` | src/fs/ff.c:1436-1449 | the allocation hints sync_fs writes are the ones the next mount reads |
| `DiskFormat.FsInfoBytes` | src/fs/ff.c:1436-1449 | the FSInfo sector byte by byte: both signatures, the two hints, the boot signature, zeros elsewhere |
| `DiskFormat.FsInfoField` | src/fs/ff.c:4744-4752 | FSInfo is used exactly if a FAT32 boot sector names the sector next to it |
| `Volume.FatFs.constructor` | src/fs/ff.c:4652-4770 | a fresh mount has the geometry of the boot sector, the allocation hints of a valid FSInfo sector, and shows the disk as it is through a clean window on the sector read last; it is a sound volume if and only if the layout fits the medium and the FSInfo sector is a reserved one |
| `Volume.MountedAt` | src/fs/ff.c:4712-4770 | the FSInfo sector lies in front of the FAT exactly if more than one sector is reserved |
| `Volume.MountVolume` | src/fs/ff.c:4652-4770 | FR_NO_FILESYSTEM exactly for a boot sector that describes no FAT volume, otherwise a volume of the type it describes over the unchanged disk, with the hints of a valid FSInfo sector, sound if and only if the layout fits the medium and the FSInfo sector is a reserved one |
| `Volume.FatFs.SyncWindow` | src/fs/ff.c:1362-1383 | the window reaches the disk, a first-FAT sector also its copy, and the flat disk is unchanged |
| `Volume.FatFs.MoveWindow` | src/fs/ff.c:1386-1411 | the window shows the requested sector; no sector of the flat disk changes, and the FATs stay mirrored except for the sector dirty in the window |
| `Volume.FatFs.SyncFs` | src/fs/ff.c:1418-1488 | afterwards the disk equals the flat disk outside FAT 2, only the FSInfo sector may have changed, it holds the hints if a change was marked, the mark is gone, and the result reports the failing disk_ioctl |
| `Volume.FatFs.GetFat` | src/fs/ff.c:1512-1630 | the link of the cluster in the flat disk, 1 for a number out of range |
| `Volume.FatFs.PutFat` | src/fs/ff.c:1637-1700 | exactly that link of the flat disk changes, to the value modulo the entry width |
| `Chain.ChainAcyclic` | src/fs/ff.c:1854-1980 | a cluster chain never visits a cluster twice |
| `Chain.FindFree` | src/fs/ff.c:2074-2095 | the wrap-around scan ends on any FAT, gives the first free cluster behind its start, around the end, and 0 only when no cluster is free |
| `Chain.CreateChain` | src/fs/ff.c:1986-2119 | the existing successor, or one previously free cluster appended and nothing else changed: the next one on the disk if it is free, otherwise the first free one behind the last one allocated; 0 only when no cluster is free if the count is accurate; an accurate count stays accurate, and a changed one is marked for sync_fs |
| `Chain.ReleaseAll` | src/fs/ff.c:1883-1931 | ends on any FAT contents, because each round turns a non-zero entry into zero |
| `Chain.RemoveChain` | src/fs/ff.c:1854-1980 | frees exactly the tail from the given cluster, ends the chain before it, keeps the free count accurate and marks a changed one for sync_fs |
| `ChainRuns.RunSound` | src/fs/ff.c:1854-2119 | over every run of allocations, extensions, truncations and removals the chains stay acyclic, pairwise disjoint and own every used cluster |
| `ChainRuns.CreateChainIsEvent` | src/fs/ff.c:1986-2119 | what create_chain does to the FAT is a step of these runs |
| `ChainRuns.RemovalFits` | src/fs/ff.c:1854-1980 | a cluster of a chain and the one before it meet what remove_chain asks for |
| `ChainRuns.RemoveChainIsEvent` | src/fs/ff.c:1854-1980 | what remove_chain does to the FAT is a step of these runs: the whole chain dropped or its tail cut |
| `ChainRuns.RunCalls` | src/fs/ff.c:1854-2119 | every sequence of create_chain and remove_chain calls on a volume is such a run, so its chains stay acyclic, disjoint and complete; an accurate count stays accurate, and every change of it is marked |
| `ChainRuns.Conservation` | src/fs/ff.c:1854-2119 | every cluster is free or on exactly one chain |
| `FreeCount.GetFree` | src/fs/ff.c:6506-6612 | the scan and the cached count give the number of free clusters; on FAT16/32 the scan is exact if and only if FAT[0] and FAT[1] are non-zero; a scanned count is marked for sync_fs |
| `CountSync.SyncAndCount` | src/fs/ff.c:1418-1449 | sync_fs and a fresh mount from the boot sector: the links are the same, and the count of the mount is the cached one |
| `CountSync.RunSyncMount` | src/fs/ff.c:1418-2119 | any sequence of calls on the open files of a FAT32 volume with FSInfo and an accurate count, sync_fs and a fresh mount: the count of the mount, and what f_getfree reports there, is the number of free clusters |
| `FileState.PoolKept` | src/fs/ff.c:5344-6671 | conservation: whatever a call on a file does, its own and the free clusters together stay the same |
| `FileState.OtherFileKept` | src/fs/ff.c:5344-6671 | a read, write, seek or truncation of one file leaves the content, the cursor and the dirty buffer of another open file as they were; its clean buffer keeps agreeing with its content, and is the same as its sector unless that sector is given back and was written |
| `File.ClustRoundTrip` | src/fs/ff.c:2412-2440 | the start cluster survives st_clust and ld_clust |
| `File.SyncEntryReads` | src/fs/ff.c:5630-5658 | the rewritten directory entry holds the start cluster and the size, and no byte outside the entry changes |
| `DiskFormat.SyncedBytes` | src/fs/ff.c:5630-5658 | the rewritten entry byte by byte: archive bit, access date, time, cluster and size; the name, the other attributes and the creation time stay |
| `DiskFormat.ClusterBytes` | src/fs/ff.c:2412-2425 | the start cluster is in bytes 26 and 27, and on FAT32 in bytes 20 and 21 above them |
| `File.File.constructor` | src/fs/ff.c:5107-5126 | a file opened on a stored entry stands at offset 0 with the stored content |
| `File.File.Read` | src/fs/ff.c:5197-5337 | the bytes from the cursor on, clipped at the size, whatever is in the dirty buffer; the content is unchanged and the cursor moves by the count; if the buffered sector has two values, a read of the whole sector gives the one on the disk and a part of it the one in the buffer |
| `File.File.Write` | src/fs/ff.c:5344-5523 | the content is the old one with the written bytes spliced in at the cursor; it is short only if the cursor then stands at the last byte below 4 GiB, or at the end of the last cluster with no cluster free |
| `File.File.Lseek` | src/fs/ff.c:5995-6237 | the cursor ends at the requested offset; a writable file grows to it, short only at a full volume, where it ends with the last cluster; an unwritable one clips it |
| `File.File.Truncate` | src/fs/ff.c:6621-6671 | the content is cut at the cursor, exactly the clusters behind it become free, and a dirty buffer is written to its sector even when that is given back |
| `File.File.Sync` | src/fs/ff.c:5529-5666 | after a modified file is synced the disk alone holds its content, chain and directory entry, with window and buffer clean |
| `FileRuns.Run` | src/fs/ff.c:5197-6671 | any sequence of reads, writes, seeks and truncations behaves as on a byte array with a cursor in a fixed room: a write or seek goes exactly as far as the request, the 4 GiB limit and the file's own and the free clusters allow; only a link 1 in the FAT ends the run early |
| `FileRuns.ReadBack` | src/fs/ff.c:5197-5523 | in that byte array a read after a write returns the bytes that were written, all of them if they fit |
| `OpenFiles.StrangerValid` | src/fs/ff.c:5197-6671 | a call on one file keeps the invariant of another one on the same volume |
| `OpenFiles.DoAt` | src/fs/ff.c:5197-6671 | a call on one of several open files does what it does on that file alone and keeps all others, also those that buffer a sector they gave back |
| `OpenFiles.Run` | src/fs/ff.c:5197-6671 | any sequence of calls on several open files behaves as on one byte array for each of them, each in the room of its own and the free clusters, and clusters move only between the acting file and the free ones; it stops only at a link 1 in the FAT, or before a seek past the end of a file whose clean buffer differs from its sector |
| `StaleBuffer.Tear` | src/fs/ff.c:5197-6237 | the stop is exact: from every state in which a clean buffer differs from its sector and the cluster is free or the file's own, a seek that takes all free clusters and two reads of the same bytes give two different results |
| `StaleBuffer.StaleRun` | src/fs/ff.c:5197-6671 | the failing run from two empty files and one free cluster: one writes a byte and is truncated, the other one writes a sector and is truncated, the first one seeks ahead and then reads its own bytes in two ways, with two results |
| `Reopen.SyncedListing` | src/fs/ff.c:5630-5658 | f_sync leaves the directory as it was but for the entry of the file, whose name stays |
| `Reopen.FindStable` | src/fs/ff.c:3015-3128 | the search looks at nothing of a short-name entry but its name and whether it is a label |
| `Reopen.SyncAndMount` | src/fs/ff.c:5529-5666 | after f_sync of a modified file a mount of the disk from its boot sector gives a volume with the same links, on which the entry leads to the content |
| `Reopen.SyncThenReopen` | src/fs/ff.c:5529-5666 | after f_sync, a fresh mount of the disk, dir_find of the name in its directory, f_open of the entry found and f_read yield exactly the bytes held before |
| `LongNames.PutLfn` | src/fs/ff.c:2535-2562 | entry number ord of a name: its 13 characters, terminator and filler, order byte and checksum, also when the length is a multiple of 13 |
| `DiskFormat.SlotsInOrder` | src/fs/ff.c:723-726 | the 13 characters stand in ascending order in the bytes that hold nothing else |
| `DiskFormat.OrderBits` | src/fs/ff.c:2546-2562 | the order byte: 0x40 marks the last part of a name, the other bits are its number |
| `DiskFormat.FillerIs` | src/fs/ff.c:2535-2562 | behind the name comes a terminator of 0, then 0xFFFF |
| `LongNames.PickLfn` | src/fs/ff.c:2490-2527 | the characters of an entry go to their place in the buffer and nothing else changes |
| `LongNames.CmpLfn` | src/fs/ff.c:2447-2483 | the loop decides the comparison of one part of a stored name |
| `LongNames.CmpIsPart` | src/fs/ff.c:2447-2483 | on an entry of a stored name the comparison looks at exactly the positions that entry holds |
| `LongNames.AllPartsMatch` | src/fs/ff.c:2447-2483 | all parts match if and only if the two names are equal up to case, whatever the buffer holds behind the name |
| `LongNames.SumSfn` | src/fs/ff.c:2632-2642 | the checksum SumOf of the 11 bytes |
| `LongNames.SumDetects` | src/fs/ff.c:2632-2642 | two short names that differ in one byte have different checksums |
| `DiskFormat.RotatedBits` | src/fs/ff.c:2632-2642 | a step of the checksum turns the sum right by one bit |
| `ShortNames.MakeSfn` | src/fs/ff.c:3725-3845 | for every name: the body field is the first eight and the extension field the first three letters in front of and behind the last dot, spaces and dots left out, in upper case, a low line for what has no code, padded with spaces, with a leading 0xE5 as 5; loss is told exactly when anything but case is lost; no long name is needed if and only if the name fits 8.3 with one case in each field |
| `ShortNames.CreateName` | src/fs/ff.c:3657-3847 | FR_OK exactly for segments of at most 255 legal characters that are dot names or not empty after trimming; the buffer holds the trimmed name, the short form and its flags are those of that name; the last-segment flag |
| `DiskFormat.CharacterSets` | src/fs/ff.c:3680-3830 | the characters no name may hold, those a short name may not hold, and the separators |
| `NumberedNames.HashName` | src/fs/ff.c:2583-2598 | the number behind the tilde: the sequence number up to five, then the CRC Suffix of the name |
| `NumberedNames.SuffixDiffers` | src/fs/ff.c:2583-2598 | for one name no number is tried twice: plain numbers differ from each other, and so do the CRC values that different sequence numbers above five give |
| `DiskFormat.StirBits` | src/fs/ff.c:2583-2598 | the polynomial of the hash turns over bits 0, 5 and 12 and no other |
| `NumberedNames.NumeralValue` | src/fs/ff.c:2600-2608 | the numeral of a number has that value |
| `NumberedNames.GenNumname` | src/fs/ff.c:2572-2625 | the body is cut to make room for a tilde and the number, padded with spaces; the extension is kept |
| `NumberedNames.NumberedUnique` | src/fs/ff.c:2572-2625 | a short name and a number have one numbered form only |
| `FileInfo.GetFileinfo` | src/fs/ff.c:3352-3520 | the long name if every unit can be shown, otherwise the short name with its case information; the short name as the other one unless it is shown without case information |
| `FileInfo.ShortText` | src/fs/ff.c:3462-3520 | the text of an entry for a name of 8.3 form is that name |
| `Directory.DirClear` | src/fs/ff.c:2160-2202 | every sector of the cluster is zero, every other sector is as before |
| `Directory.Dir.Sdi` | src/fs/ff.c:2210-2263 | on any links, broken and cyclic ones included, the cursor stands at the entry exactly when the offset is aligned and inside the walk over the table, otherwise FR_INT_ERR |
| `Directory.Dir.Next` | src/fs/ff.c:2270-2355 | on any links the next entry of the walk; at its end FR_NO_FILE or FR_INT_ERR for a broken link, or one cleared, previously free cluster more if asked for, and nothing outside the table changes |
| `DirRep.WalkFrom` | src/fs/ff.c:2270-2355 | from every cluster of every FAT there is a walk, of at most 65536 entries, cyclic and crossed links included |
| `Directory.AlwaysAWalk` | src/fs/ff.c:2210-2263 | every start cluster number on every FAT gives a table with such a walk or no table at all |
| `Directory.OpenDir` | src/fs/ff.c:2210-2263 | every start cluster on every volume, whatever its FAT holds, gives a directory object that dir_sdi, dir_find and dir_alloc accept |
| `DirOps.DirFind` | src/fs/ff.c:3015-3128 | ends on any FAT contents, stops exactly where the automaton over the walked entries stops, reports the start of the LFN sequence, and changes neither entries nor links; absence without a broken link is FR_NO_FILE |
| `DirScan.FindFirst` | src/fs/ff.c:3015-3128 | in a well-formed directory the automaton finds the first object whose long name equals the name up to case or whose short name equals it, with the exact start of its block |
| `DirOps.DirAlloc` | src/fs/ff.c:2363-2406 | ends on any FAT contents and takes only free clusters, for a run that is found no more than it needs; the lowest run of free entries, in the walk or in its stretched end; on a sound volume FR_DENIED if and only if there is no such run however far the table can grow |
| `DirOps.RoomOf` | src/fs/ff.c:2363-2406 | a table grows by at most MaxRoom entries, the room of the free clusters up to 65536 entries, and by exactly that many when nothing is left to grow into; the static root table does not grow |
| `DirOps.AllocDecides` | src/fs/ff.c:2363-2406 | dir_alloc succeeds if and only if the table, stretched as far as it can be, has a run of free entries long enough |
| `DirRegister.PickNumber` | src/fs/ff.c:3224-3244 | the first of the numbered short names that no object has; FR_DENIED if and only if an object has each of the 99 forms |
| `DirRegister.Register` | src/fs/ff.c:3135-3288 | on success the old entries with the complete block of the new object in the lowest gap, under the first free numbered form if the short name is lossy; on a sound volume FR_DENIED if and only if all 99 numbered forms are taken or the block fits nowhere in the table however far it can grow, and then no object was added |
| `DirWalk.Remove` | src/fs/ff.c:3297-3343 | exactly the entries of the object are marked as deleted |
| `DirWalk.Read` | src/fs/ff.c:2907-3007 | on any links the next object of the walk that is no dot entry, with its whole long name in the buffer, or none when there is none |
| `DirEdit.PutWellFormed` | src/fs/ff.c:3246-3285 | registering keeps a directory well-formed and adds exactly one object |
| `DirEdit.MarkWellFormed` | src/fs/ff.c:3297-3343 | removing keeps a directory well-formed and takes away exactly one object |
| `DiskFormat.SfnEntryBytes` | src/fs/ff.c:3270-3283 | a new short-name entry: the name, no attributes, the case flags and zeros |
| `DiskFormat.NtResBits` | src/fs/ff.c:3277-3279 | 8 stands for a body and 16 for an extension in lower case |
| `DirRuns.RunKeepsNames` | src/fs/ff.c:3015-3343 | over every run of registrations and removals live short names stay distinct and no registered name finds another object |
| `DirRuns.RegisteredIsFound` | src/fs/ff.c:3015-3128 | dir_find stops at exactly the block of every registered name |
| `DirRuns.FindDecides` | src/fs/ff.c:3015-3128 | a name is reported absent if and only if no live object answers to it |
| `DirRuns.FindGives` | src/fs/ff.c:3015-3128 | dir_find stops at the first object that answers to the name by its long or its short name, whoever put it there |
| `DirRuns.CollisionDecides` | src/fs/ff.c:3226-3236 | the search with NS_NOLFN reports absence if and only if no live object has the short name |
| `DirRuns.RemovedIsAbsent` | src/fs/ff.c:3297-3343 | after the removal of an object a name is absent if and only if no other object answered to it |
| `DirRuns.RegisteredIsOnly` | src/fs/ff.c:3015-3343 | no other object answers to a registered name, so it is absent once its object is removed |
| `DirRuns.RegisterThenRemove` | src/fs/ff.c:3135-3343 | registering and removing restores all objects and every entry outside the reused run |
| `NameOps.RegisterIsEvent` | src/fs/ff.c:3135-3288 | what dir_register does is a step of these runs |
| `NameOps.Readdir` | src/fs/ff.c:6360-6397 | the text of the next object; the cursor moves behind it |
| `NameOps.List` | src/fs/ff.c:6360-6397 | a whole pass lists every object but the dot entries, each once and in order |
| `NameOps.CreateEntry` | src/fs/ff.c:4955-4970 | a new object exactly if the name is absent and is not refused, FR_DENIED exactly if it is absent and all numbered forms are taken or no gap is left; a name that is found is left alone, and everything outside the directory is unchanged |
| `Unlink.TestFolder` | src/fs/ff.c:6724-6741 | a sub-directory is empty if and only if no object lies on the walk over its links before a blank entry; FR_DENIED with an object, FR_INT_ERR without a table or at a broken link, on any links |
| `DiskFormat.AttributeBits` | src/fs/ff.c:6695-6716 | the attributes bit by bit: read-only 1, directory 16, archive 32 |
| `DiskFormat.KindBits` | src/fs/ff.c:3061-3075 | what is a long-name entry, a label, and a file or directory, by the bits of the attribute byte |
| `Unlink.DeleteEntry` | src/fs/ff.c:6695-6746 | FR_NO_FILE exactly if no object answers to the name; otherwise the first one that does is removed, unless it is read-only, the current directory or a directory with objects, and the name is absent afterwards if and only if no further object answered to it |
| `Unlink.Unlink` | src/fs/ff.c:6677-6765 | f_unlink as a whole: what is refused changes nothing; otherwise the name is gone, exactly the clusters of the object are free, all other links, sectors and objects are as before, and the disk holds all of it |
| `NameRoundTrip.LegalTaken` | src/fs/ff.c:3671-3727 | create_name takes every legal name as it is |
| `NameRoundTrip.LegalExactly` | src/fs/ff.c:3671-3727 | the legal names are exactly those that create_name takes, whole and untrimmed, as one segment |
| `NameRoundTrip.ObjectShows` | src/fs/ff.c:3352-3520 | whatever is shown of an object created under a legal name, long or short form, is that name |
| `NameRoundTrip.CreateThenList` | src/fs/ff.c:3657-3847 | a legal name that is created appears byte for byte in the listing; it is created if and only if it is absent and is not refused |
| `BitWords.DropLowest` | src/bitmap.c:167-170 | w & (w - 1) has exactly one bit less than w |
| `Bitmaps.Bitmap.constructor` | src/bitmap.c:4-14 | all bits are clear |
| `Bitmaps.Bitmap.Set` | src/bitmap.c:17-26 | exactly that bit is set; a bit out of range is ignored |
| `Bitmaps.Bitmap.Clear` | src/bitmap.c:29-38 | exactly that bit is cleared |
| `Bitmaps.Bitmap.Test` | src/bitmap.c:41-50 | the bit; clear when out of range |
| `Bitmaps.Bitmap.FindFirstZero` | src/bitmap.c:53-80 | the lowest clear bit at or after start, -1 exactly when there is none |
| `Bitmaps.Bitmap.AllocRange` | src/bitmap.c:113-139 | for all arguments in 64-bit arithmetic: the first clear run from start on, set, returned as an int; with count == size + 1 the search goes around at 2^64 |
| `Bitmaps.Bitmap.FreeRange` | src/bitmap.c:142-149 | exactly the bits of the range are cleared |
| `Bitmaps.Bitmap.SetRange` | src/bitmap.c:210-215 | exactly the bits of the range are set |
| `Bitmaps.Bitmap.CountSet` | src/bitmap.c:152-174 | the number of set bits |
| `Pages.Fls` | inc/page.h:51-59 | the number of significant bits |
| `Pages.FlsBounds` | inc/page.h:51-59 | x lies below 2^fls(x) and not below 2^(fls(x)-1) |
| `Pages.OrderIsLeast` | inc/page.h:62-72 | size_to_order is the least order whose pages hold the size |
| `Pages.OrderInverts` | inc/page.h:48-78 | size_to_order inverts order_to_pages if and only if the order is at most 51 |
| `Pages.AllocPages` | src/page.c:46-58 | exact first fit from bit 0 although the search starts at the first clear bit, if and only if 2^order does not exceed the bitmap; otherwise a block past the end is handed out exactly if some frame is free or the block is one longer than the bitmap |
| `Pages.FoundBlock` | src/page.c:46-58 | where the wrapped search limit lets the search stop, in every case |
| `Pages.PastTheEnd` | src/page.c:46-58 | the failing call: order 1 on a clear bitmap of one frame hands out frame 0 with a block of two |
| `Pages.FreePages` | src/page.c:60-64 | exactly the bits of the block are cleared |
| `Pages.AllocThenFree` | src/page.c:46-64 | freeing an allocated block restores the bitmap |
| `PageTables.SelfMap` | src/page.c:85-93 | for every page outside slot 511, the walk of a self-map address reaches exactly the table of its level that translates the page |
| `PageTables.LeafTarget` | src/page.c:177-207 | the frame a page is translated to is that of its page-table entry, if that is present |
| `PageTree.BootShape` | src/asm/head.S:38-83 | the boot tables have the shape mapping relies on: a tree up to slots 0 and 256, with the self-map |
| `PageTree.OneWay` | src/page.c:66-130 | a table is reached by one path of indices only, up to the boot alias |
| `PageTree.LeafTrans` | src/page.c:116-121 | writing the page-table entry of a page changes the translation of that page, under both its names, and of no other |
| `PageTree.EnteredTrans` | src/page.c:95-115 | entering an empty table where there was none changes no translation |
| `PageTree.EnteredShape` | src/page.c:95-115 | the tables stay a tree with a new table in a frame that was free |
| `TableCount.EnteredFinds` | src/page.c:95-115 | after a new table exactly the walks that share its name find one at that level |
| `TableCount.EnteredMissing` | src/page.c:95-115 | of the tables missing for a set of pages, exactly the new one is no longer missing |
| `TableCount.EnteredWide` | src/page.c:95-115 | a new table with the writable flag keeps all tables writable |
| `Paging.Mmu.MapOne` | src/page.c:79-128 | one page is mapped through the self-map, to the frame and with exactly the flags given, unless it is mapped already; one frame is taken for each table missing on its walk, and no other; writable flags keep every table writable |
| `Paging.Mmu.UnmapOne` | src/page.c:142-173 | one page is unmapped if it is mapped |
| `Paging.Mmu.GetPhysaddr` | src/page.c:177-207 | frame and offset of a mapped address, -MAP_ERR_NOTMAPPED otherwise |
| `Paging.MapPageRange` | src/page.c:66-130 | len and all pages mapped to consecutive frames with the flags given exactly when all pages were unmapped and different, otherwise -MAP_ERR_EXIST and every translation as before; it takes exactly one frame for each distinct table missing on the walks of the pages it comes to |
| `Paging.UnmapPageRange` | src/page.c:132-175 | the pages up to the first unmapped one are unmapped and counted |
| `Paging.MapAllHit` | src/page.c:66-130 | page k of a mapped range leads to frame pa / 4096 + k, with the flags given |
| `Paging.MapAllAt` | src/page.c:66-130 | pages outside the range translate as before |
| `Paging.MapThenUnmap` | src/page.c:66-175 | mapping a fresh range and unmapping it restores every translation |
| `MemPool.Pool.constructor` | src/mm/mempool.c:4-18 | all slots are free, in ascending order |
| `MemPool.Pool.Alloc` | src/mm/mempool.c:20-28 | the first free slot leaves the list, none exactly when the list is empty |
| `MemPool.Pool.Free` | src/mm/mempool.c:30-35 | the slot becomes the first free one |
| `KernelHeap.KmemMap` | src/mm/mm.c:31-47 | the lowest free block is taken and mapped at KMEM_BASE; the mapping never meets an existing one; exactly the block and its missing tables are taken |
| `KernelHeap.Kmalloc` | src/mm/mm.c:63-85 | a new area of the right order, disjoint from all others and mapped to its own frames; 0 and the lock kept exactly for size 0, no fitting block, or a full pool, which loses the block |
| `KernelHeap.FindArea` | src/mm/mm.c:50-60 | the first area that starts at the address |
| `KernelHeap.Kfree` | src/mm/mm.c:102-128 | exactly the frames and mappings of the area are given back, -1 exactly when no area starts there |
| `KernelHeap.MallocThenFree` | src/mm/mm.c:63-128 | kfree gives back everything its kmalloc took except the frames of new page tables |
| `KernelHeap.AreasShareNothing` | src/mm/mm.c:63-128 | two live areas share no page and no frame, and every page of an area maps to its own used frame |
| `KernelHeap.AreaWritable` | src/mm/mm.c:31-85 | every page of a live area leads to its frame and may be written: its own entry and those of the three tables above it say so |
| `KernelHeap.MmInit` | src/mm/mm.c:148-161 | the heap invariant holds at the start, with 3276 pool slots and no area |
| `HeapRuns.SpannedTables` | src/mm/mm.c:31-47 | a block needs at most as many tables as it spans |
| `HeapRuns.EnoughFrames` | src/mm/mm.c:31-47 | n frames and n/512 + n/2^18 + n/2^27 + 6 more always suffice |
| `HeapRuns.LeakBreaks` | src/mm/mm.c:63-85 | a block taken without an area leaves frames in use that nobody owns |
| `HeapRuns.MallocStep` | src/mm/mm.c:63-85 | after kmalloc every used frame is still the kernel's, a table's or a live area's, unless the block is lost, which happens exactly if a block fits while all pool slots are in use |
| `HeapRuns.FreeStep` | src/mm/mm.c:102-128 | after kfree every used frame is still the kernel's, a table's or a live area's |
| `HeapRuns.Run` | src/mm/mm.c:63-128 | over every run of kmalloc and kfree the heap invariant holds and every used frame has an owner, except for at most one lost block, the last thing a run does |
| `HeapRuns.FullPool` | src/mm/mm.c:63-161 | the failing run from boot: with memory enough 3276 allocations of a page succeed, and the next one loses its frame and keeps the lock |
| `HeapRuns.BitmapInside` | src/page.c:22-44 | the words of the bitmap lie in the frames marked as used if and only if the number of frames modulo 32768 is 0 or at least 8 |
| `HeapRuns.BootRegion` | src/asm/head.S:38-83 | the boot tables map nothing in the kmalloc region |
| `HeapRuns.BootWide` | src/asm/head.S:38-83 | the boot code lets every table be written through |
| `HeapRuns.PageInit` | src/page.c:22-44 | the frames of kernel and bitmap are in use, the tables in order, and nothing is mapped in the kmalloc region |
| `HeapRuns.Boot` | src/main.c:72-73 | from the boot tables page_init and mm_init reach a heap in order in which every used frame has an owner |
| `Scheduler.StepSound` | src/task.c:454-537 | every step of every CPU keeps each task in exactly one place, and in one that suits its status: exited tasks on their CPU, in its exit queue or reaped, all others current, ready or on their way |
| `Scheduler.RunSound` | src/task.c:118-537 | over all interleavings of spawns, ticks, exits and scheduler steps each task stays in exactly one place that suits its status, and no exit queue holds two tasks |
| `Scheduler.ExactlyOnePlace` | src/task.c:261-537 | a task is current on one CPU, in one ready queue, in one exit queue, in the hand of one CPU, or reaped, and nowhere else |
| `Scheduler.ReapIsSafe` | src/task.c:464-501 | a dequeue after a false queue_empty finds a task, what is reaped has exited and is no current task, no task is reaped twice, and no ready task has exited |
| `Scheduler.ExitedIsFinal` | src/task.c:118-127 | a task that exited stays so; once off its CPU it is never current, ready or on its way again, but in the exit queue there or reaped |
| `Scheduler.ExitLeaves` | src/task.c:118-127 | after exit() a task is current no longer than to the next switch, then in the exit queue or reaped |
| `Scheduler.ReapedInTime` | src/task.c:462-501 | a task in an exit queue is reaped by the next call of scheduler() on that CPU |
| `Scheduler.CallEnds` | src/task.c:454-537 | a tick on a CPU with a current task starts a call, and it ends after at most eight steps of its own, whatever the other CPUs do |
| `Scheduler.Fair` | src/task.c:454-537 | on a CPU with a current task, at whatever program point it is, a ready task at position k is current when the (k+1)-th scheduler call returns, one call later if the call in progress already holds a task; every call is counted |
| `Scheduler.FairExactly` | src/task.c:454-537 | that holds on all runs from a state, at every program point, if and only if the CPU has a current task in it; without one scheduler() returns at once and never looks at the queue |
| `Scheduler.Starved` | src/task.c:462-537 | a run from task_init that reaches a CPU with a ready task and no current one, where fairness fails |
| `Scheduler.LeastLoaded` | src/task.c:48-58 | the first of the least loaded queues |
| `Queues.AddTail` | src/list.c:13-20 | the new node is the last of the ring |
| `Queues.Del` | src/list.c:22-26 | the ring without the entry, in the same order |
| `Queues.Queue.Enqueue` | src/queue.c:4-10 | the node is appended |
| `Queues.Queue.Dequeue` | src/queue.c:13-24 | the first node, null exactly when the queue is empty |
| `Queues.Queue.Empty` | src/queue.c:26-35 | whether the queue holds no node |
| `Dentries.VfsOpen` | src/fs/vfs.c:57-126 | an existing dentry gets one reference more, a new one is listed with one; the result for each failing step; every error leaves the list and all counts alone; the file object is freed exactly when the copy of the path cannot be allocated, and that copy leaks exactly when a later step fails |
| `Dentries.VfsClose` | src/fs/vfs.c:128-156 | one reference less; at zero the release runs and the dentry leaves the list |
| `Dentries.SysOpen` | src/syscalls.c:14-36 | a new file with the next descriptor, or nothing changes; each d_ref stays the number of its open files; distinct descriptors stay distinct if and only if the counter is not the descriptor of an open file; a failed call frees the file object once, twice exactly when the path copy fails |
| `Dentries.DistinctNext` | src/syscalls.c:32-33 | one more descriptor keeps them distinct if and only if it is not in use |
| `Dentries.SysClose` | src/syscalls.c:38-56 | the first file with the descriptor leaves the list; the release runs exactly when it was the last one at its dentry; -EBADF exactly for an unknown descriptor |
| `Dentries.Run` | src/syscalls.c:14-56 | over every sequence of opens and closes the counts stay exact, descriptors distinct until the counter wraps, and no dentry is released twice |
| `Dentries.WrapRun` | src/syscalls.c:11-56 | the failing run: with one file kept open the counter comes around, the next open gives out descriptor 0 again, and closing it closes the older file |

## Left out

- exFAT, GPT, mkfs, fast seek, trim, file lock, re-entrancy and string I/O of `ff.c`: compiled out by `inc/ffconf.h`.
- Path following over several segments (`follow_path`, `f_chdir`), `f_mkdir`, `f_rename`, `f_stat`: sequences of the modelled directory operations.
- The creation branches of `f_open` beyond the directory entry (time stamps, freeing an old chain on overwrite).
- Two open files on one entry, and f_sync or directory operations between the calls on several open files: `OpenFiles.Run` covers reads, writes, seeks and truncations of files with different entries.
- StaleBuffer.Tear: assumes that all free clusters fit into a file below 4 GiB, so that one seek takes the one in question; on a larger volume it takes as many files as needed.
- Disk errors: the medium always answers.
- FileInfo.GetFileinfo: the two names; size, date and attributes are copied from the entry as they are.
- File.File.Lseek: the bytes between the old end and a new, larger size are whatever the clusters held, as in the source; the model says so and no more.
- Paging.Mmu.MapOne: asks for as many free frames as tables are missing; without one the source enters -1, all bits set, as a table (src/page.c:95-112), which the processor answers with a reserved-bit fault.
- Paging.MapPageRange: asks for as many free frames as distinct tables are missing, for the same reason.
- KernelHeap.KmemMap: as for the mapping, and a block no larger than memory.
- DirRegister.PickNumber: asks for a directory whose links end in an end mark; on broken or cyclic links the same entry stands at several places of the walk. The search and the allocation it uses are stated on any links.
- DirRegister.Register: asks for links that end in an end mark, for the same reason.
- DirWalk.Remove: asks for links that end in an end mark, for the same reason.
- KernelHeap.Kmalloc: asks for the frames of the missing tables and excludes a block larger than memory, which `Pages.AllocPages` shows to run past the end; what the mapping of frames that do not exist does is up to the hardware.
- Scheduler.Fair: counts returned scheduler calls; that calls keep coming is up to the timer.
- `src/mutex.c` and the blocked state: a task between a failed trylock and its queue is in no place.
- User address spaces, ELF loading, tmpfs, mount path matching, the older driver `src/fs/fat32.c`, interrupt controllers, drivers and assembly other than the boot tables.
- Spinlocks other than the heap's, TLB and CR3 reloads; the order of memory accesses.
