# GloamOS storage and scheduler: a Dafny model

The project models the parts of the system whose correctness rests on
invariants kept across many calls, in the UEFI build (`__UEFI__`), and proves
what they promise:

* **exFAT clusters and files** (`fs/exfat/cluster.c`, `fs/exfat/io.c`): the
  free-cluster bitmap, files held as runs or as FAT chains, growth with
  rollback, truncation, and reads and writes with a valid size below the file
  size. `ExfatVolume.Volume` is the state, down to the sectors of
  `BlockDevice.Device`; `FlatFile` is what files mean. Every call on any file of
  any valid volume does to the clusters what `FlatFile` says about flat byte
  sequences, changes no other file, and keeps every cluster in at most one
  place with its bitmap bit set exactly when it is in use.
* **The formatter and mount** (`fs/exfat/mkfs`, `fs/exfat/mount.c`): `Layout` is
  the formatter's arithmetic, `Formatter` writes the objects to the device,
  `Mounting` checks and opens the result, and `FormattedImage` states the image
  by its own bytes, as any other reader of the format meets it. A formatted
  device mounts, and what mount builds is a valid volume; `FormattedRuns`
  composes formatting, mounting and any run of calls, and `Sessions` goes on to flush and unmount: the boot
  region is still accepted and the bitmap on the device is the one in memory.
  The layouts computed in five places agree exactly for
  volumes below 16 TB, because the super block counts clusters in 32 bits and
  the bitmap does not.
* **Directories** (`fs/exfat/node.c`, `utils.c`, `time.c`, `utf.c`): entry sets
  with their checksums and byte layout (`EntrySets`, `Checksums`,
  `EntryLayouts`), the search for a slot
  (`DirectorySlots`), both on the directory's clusters, with renaming and
  erasing (`Directory`), a file created, written and flushed (`Publishing`),
  shrinking (`DirectoryShrink`), renaming and deleting with the clusters they
  take and give back (`DirectoryChanges`), the tree of nodes with its linked child lists
  (`NodeTree`), timestamps and names (`Timestamps`, `Utf`, `Names`).
* **FAT32** (`fs/fat32/fat32.c`): chains and the cached free count
  (`Fat32Volume`), writing, reading and deleting in one directory
  (`Fat32Files`, `Fat32Directories`), the same on the whole tree of directories
  (`Fat32Tree`), the geometry of the format in its 32-bit arithmetic
  (`Fat32Format`), the volume as a map from paths to files and folders
  (`Fat32Paths`, `Fat32Steps`), and runs of operations anywhere in the tree,
  each a run of that map, the installer's among them (`Fat32Runs`).
* **The scheduler** (`scheduler/scheduler.c`): the priority pass, sleep timers
  and the round-robin step.

Where a stated or expected property is false of the code, the model keeps the
code and the project states exactly when it holds:

* a write that starts inside a file but past its valid size uncovers stale
  bytes; every other write is right whatever the clusters hold
  (`FlatFile.GapGuard`, `FlatFile.GapExact`; `FileIo.UncoverStale` does it on
  any volume with a free cluster);
* the formatter's parts disagree from 16 TB on (`Layout.LayoutsAgree`);
* a FAT32 file whose name begins with the byte 0xE5 is written and then lost
  (`Fat32Entries.WrittenFound`);
* the FAT of a FAT32 volume has 128 entries a sector for all clusters exactly
  when the sector count, cut to 32 bits, is at least 32, is not 33 and lies
  below 2^32 - 993: at the other counts the 32-bit arithmetic wraps
  (`Fat32Format.FatCapacity`); and inside that range the FAT can still be up to
  two entries short (`Fat32Format.FatEntriesFit`, `Fat32Format.FatTooSmall`);
* writing a FAT32 file over a directory's name succeeds and loses everything
  beneath that directory (`Fat32Tree.WriteFile`), and without room it leaves a
  directory entry that points into file data (`Fat32Runs.Spoil`);
* a slot at the tail of an extended root directory can cover a system entry
  (`DirectorySlots.TailFree`, `Directory.TailExample`);
* shrinking a directory keeps all children exactly when the last one's optional
  entries end in the cluster in which its name ends, and any other entry exactly
  when it lies no later than that (`DirectoryShrink.ShrinkDirectory`;
  `DirectoryShrink.CutOptional` loses an entry);
* name comparison is equality of the upper-case names exactly when the
  upper-case table maps no character to what it maps zero to
  (`Names.CompareExact`);
* a name with a high surrogate does not survive conversion (`Utf.RoundTrip`);
* the stored percentage of allocated space overflows (`BootRegion.PercentExact`,
  `BootRegion.PercentWraps`);
* a timestamp survives only in a quarter-hour zone and within 128 years
  (`Timestamps.RoundTrip`, `Timestamps.RoundTripRange`), and an access time
  loses its odd second (`EntrySets.FlushTimes`);
* registering tasks between single steps can starve a runnable task for ever
  (`Scheduling.Starve`, `Scheduling.StarveFromInit`); a registration carries the
  cursor no farther from a task exactly when its slot lies before the task's as
  seen from the cursor, or is the one just behind the cursor
  (`Scheduling.HarmlessExact`), and with such registrations alone every task
  runs in its turn (`Scheduling.NoStarvation`).

`dafny verify dfyconfig.toml` checks the whole project.

## Model

| member | source | states |
|---|---|---|
| Bytes.LowByteFirst | fs/exfat/byteorder.h:36-60 | words are stored low byte first |
| BlockDevice.Device.Pread | fs/exfat/io.c:333-372 | the sector-by-sector read returns exactly the bytes of the partition at the offset |
| BlockDevice.Device.Pwrite | fs/exfat/io.c:374-414 | the read-modify-write of sectors changes exactly the bytes written; sectors before the partition are untouched |
| ClusterBitmap.CountFreeSet | fs/exfat/cluster.c:114-137 | taking a clear bit lowers the free count by exactly one |
| ClusterBitmap.CountFreeZero | fs/exfat/cluster.c:445-454 | the count is zero if and only if no bit is clear |
| ClusterBitmap.Bitmap.FindBitAndSet | fs/exfat/cluster.c:114-137 | takes the first clear bit of the range, skipping full words, or finds that there is none |
| ClusterBitmap.Bitmap.FindFree | fs/exfat/cluster.c:194-213 | the first clear bit from the hint on, going round, or from the start when there is no such bit; none only when every bit is set |
| ClusterBitmap.Bitmap.CountFreeClusters | fs/exfat/cluster.c:445-454 | the loop counts the clear bits |
| ClusterBitmap.PickedRun | fs/exfat/cluster.c:274-276 | when clusters are picked one by one, each from behind the one before, and the bits there are clear, exactly those are picked, in order |
| ClusterStore.Store.Next | fs/exfat/cluster.c:73-90 | the FAT entry on the device is the abstract link of the cluster |
| ClusterStore.Store.SetNext | fs/exfat/cluster.c:174-192 | one abstract link changes, no cluster's contents, no other link, and nothing before the FAT |
| ClusterStore.Store.Apart | fs/exfat/cluster.c:31-56 | distinct clusters occupy disjoint stretches of the device, after the FAT |
| ClusterStore.Store.WriteRun | fs/exfat/cluster.c:156-172 | one write over consecutive clusters changes exactly the heap bytes it falls on, no link, and nothing before the FAT |
| Chains.RunAsChain | fs/exfat/cluster.c:225-234 | a run with its links written out is the same cluster sequence as a FAT chain |
| Chains.CutLinked | fs/exfat/cluster.c:318-341 | cutting a chain and ending it leaves a linked prefix, and the rest stays linked |
| Chains.Pigeonhole | fs/exfat/cluster.c:194-213 | a chain without repeats is no longer than the heap |
| Chains.RawWriteAt | fs/exfat/io.c:513-533 | writing inside one cluster of a chain splices the chain's bytes at the matching position |
| Ownership.OwnedCut | fs/exfat/cluster.c:304-359 | releasing the tail of one chain keeps every other place's cluster its own |
| Ownership.OwnedReserve | fs/exfat/cluster.c:194-213 | a newly marked cluster belongs to no place of any file |
| Ownership.StoredWrite | fs/exfat/io.c:480-540 | a write into a cluster of one file changes no other file's stored bytes |
| ExfatVolume.Volume.Exclusive | fs/exfat/cluster.c:194-359 | in a valid volume no cluster belongs to two places of any files, chains have no repeats, and the set bits are exactly the clusters in use |
| ExfatVolume.Volume.NextCluster | fs/exfat/cluster.c:73-90 | the successor by either form of a file |
| ExfatVolume.Volume.AdvanceCluster | fs/exfat/cluster.c:92-112 | seeking from the cached position, or from the start when it lies behind, gives the cluster `count` steps from the start, and caches it |
| ExfatVolume.Volume.AllocateCluster | fs/exfat/cluster.c:194-213 | fails exactly when no cluster is free; else takes the first free one from the hint on, going round, which was nobody's, and the free count drops by one |
| ExfatVolume.Volume.FreeCluster | fs/exfat/cluster.c:215-223 | the cluster's use and bit go away and nothing else |
| ExfatVolume.Volume.MakeNoncontiguous | fs/exfat/cluster.c:225-234 | writes the links of a run into the FAT and no entry of another file |
| ExfatVolume.Volume.FormFor | fs/exfat/cluster.c:283-291 | the contiguous form is given up exactly when the next cluster does not continue the run; the cluster sequence stays |
| ExfatVolume.Volume.LinkNext | fs/exfat/cluster.c:274-296 | one round of growth appends the cluster in either form |
| ExfatVolume.Volume.Rollback | fs/exfat/cluster.c:277-282 | after running out of space the chains and uses are as before the grow |
| ExfatVolume.Volume.GrowFile | fs/exfat/cluster.c:239-302 | succeeds if and only if enough clusters are free; each new cluster is then the first free one behind the one before, so that an empty file starts at the lowest free cluster and a file with room behind it grows exactly into that room; the contiguous form is kept if and only if the clusters follow one another, and then no link is written and the node stays clean; otherwise cluster sequence, start, size and bitmap are as before, also after a change of form |
| ExfatVolume.GrewFacts | fs/exfat/cluster.c:250-296 | what the order of the picks means: the lowest free cluster for an empty file, the room behind for any other, and the form |
| ExfatVolume.Volume.ShrinkFile | fs/exfat/cluster.c:304-359 | keeps the prefix, frees exactly the rest, and resets a cached position that was cut off |
| ExfatVolume.Volume.WriteAt | fs/exfat/io.c:513-533 | writes into one cluster of a file: its stored bytes are spliced, the other files keep theirs |
| FlatFile.TruncatedBytes | fs/exfat/cluster.c:406-443 | a truncation succeeds exactly when the clusters are free or the file's own, every byte is then the old one or zero, the free count follows and uninitialised bytes still read as zeros; without room nothing changes |
| FlatFile.WroteSucceeds | fs/exfat/io.c:480-502 | a write succeeds if and only if the clusters of the resulting size are free or the file's own |
| FlatFile.WroteBytes | fs/exfat/io.c:480-540 | a successful write leaves the old bytes, zero-padded as needed, with the data spliced in; the initialised part reaches at least to its end, and the free count follows |
| FlatFile.WroteNothing | fs/exfat/io.c:480-502 | a write of nothing, or one without room, pads the file with zeros up to the offset if there is room for that much, and changes nothing else |
| FlatFile.GapExact | fs/exfat/io.c:491-502 | for given stored bytes, a write across a gap reads as it should exactly when those in the gap are zeros |
| FlatFile.GapGuard | fs/exfat/io.c:480-540 | a write reads as it should whatever bytes the file stores if and only if it does not start inside the file past the valid size |
| FlatFile.GapExample | fs/exfat/io.c:491-502 | a file of three bytes in a 4096-byte cluster and a write that uncover a stale byte |
| FileIo.ClusterCountCovers | fs/exfat/cluster.c:67-71 | the 32-bit cluster count covers a size exactly up to 2^32 - 1 clusters |
| FileIo.EraseRange | fs/exfat/cluster.c:371-404 | zeros from the valid size on, up to the end of the last cluster touched |
| FileIo.Truncate | fs/exfat/cluster.c:406-443 | the flat file is cut or padded with zeros, the free count follows, no other file changes; without room nothing changes |
| FileIo.ReadSlice | fs/exfat/io.c:426-431 | a read gives as many bytes from the offset on as were asked for or as there are, and none at or past the end |
| FileIo.Pread | fs/exfat/io.c:416-478 | returns 0 and nothing at or past the end; else the smaller of the size asked for and what is left, and byte for byte the flat file from the offset on, zeros past the valid size |
| FileIo.Extend | fs/exfat/io.c:491-502 | the truncations that make room for a write, as on flat files |
| FileIo.Pwrite | fs/exfat/io.c:480-540 | splices the flat file and raises the valid size; across a gap exactly the stale bytes show; no other file changes |
| FileIo.UncoverStale | fs/exfat/io.c:480-540 | four calls on an empty file of any valid volume with a free cluster, after which a byte shows that was cut off and never written again |
| VolumeRuns.Apply | fs/exfat/io.c:416-540 | any call on any file is a step of the flat files, with the bytes a read returns, and keeps the volume valid |
| VolumeRuns.Run | fs/exfat/io.c:416-540 | any sequence of calls on any files keeps the volume valid and is a run of flat files: every return code and every byte read is that of the flat files, and the last state is the volume's |
| VolumeRuns.RunConserves | fs/exfat/cluster.c:194-359 | in every state of every run, free clusters and clusters of the files add up to the same number |
| Layout.GetPosition | fs/exfat/mkfs/mkexfat.c:172-185 | the loop over the object table gives each object's place in closed form, though the bitmap's size asks for its own place |
| Layout.CheckSize | fs/exfat/mkfs/mkexfat.c:44-66 | accepts exactly the volumes that hold all six objects |
| Layout.AcceptedExact | fs/exfat/mkfs/mkexfat.c:44-66 | the accepted volumes are exactly those of at least 21 clusters |
| Layout.AcceptedShape | fs/exfat/mkfs/cbm.c:35-40 | the sizes of every accepted volume in clusters: the bitmap covers the heap, the upcase table and root directory follow |
| Layout.HeapAgrees | fs/exfat/mkfs/vbr.c:40-80 | below 16 TB the super block's FAT ends where the heap starts, the heap fills the volume and the FAT has an entry for every cluster |
| Layout.StartClusters | fs/exfat/mkfs/rootdir.c:61-76 | below 16 TB the start clusters in the super block and the upcase entry are those of the FAT chains, and inside the heap |
| Layout.DisagreeAbove | fs/exfat/mkfs/vbr.c:45-47 | from 16 TB on the bitmap size and the super block's cluster count disagree |
| Layout.LayoutsAgree | fs/exfat/mkfs/vbr.c:40-80 | for every accepted volume the five layouts agree if and only if it is smaller than 16 TB |
| Checksums.AddByteInjective | fs/exfat/utils.c:62-65 | one step of the rotating sum separates any two sums and any two bytes |
| Checksums.AddByteHalves | fs/exfat/utils.c:62-65 | a step with a zero byte halves an even sum, and an odd one plus all the bits; a byte is added on top |
| Checksums.StepsToExact | fs/exfat/utils.c:62-65 | the next sum is the only one whose double is that of the halving, the byte and the wrap |
| Checksums.TrailingZeros | fs/exfat/utils.c:67-122 | behind k zero bytes a sum stands for 2^k times itself, up to multiples of the word with all bits set |
| Checksums.KnownEntry | fs/exfat/utils.c:76-101 | the sum of a file entry of 2024, 32 bytes without the checksum field |
| Checksums.KnownSet | fs/exfat/utils.c:76-101 | a whole set of three entries, a file A.TXT of 1000 bytes, is accepted with the sum 0x3670 stored in it |
| Checksums.KnownBoot | fs/exfat/utils.c:103-112 | the sum of the first twelve bytes of every boot sector |
| Checksums.SingleByte | fs/exfat/utils.c:62-122 | changing one byte changes the sum, 16 or 32 bits wide, if and only if the byte is not skipped |
| Checksums.CalcChecksum | fs/exfat/utils.c:76-101 | the loops over an entry set sum all its bytes but 2 and 3 |
| Checksums.AddSector | fs/exfat/utils.c:103-122 | the loops over the boot sectors sum all bytes but 0x6a, 0x6b and 0x70 of the first |
| Checksums.DamagedSetRejected | fs/exfat/node.c:209-229 | an accepted set with any single byte changed, checksum bytes included, is rejected |
| BootRegion.VerifyChecksum | fs/exfat/mount.c:116-152 | accepts exactly the regions whose last sector repeats the sum of the others |
| BootRegion.DamagedRegion | fs/exfat/mount.c:116-152 | a single changed byte in the twelve sectors goes unnoticed if and only if it is one of the three that may change |
| BootRegion.SuperBlock.Commit | fs/exfat/mount.c:154-162 | writing the super block back changes no verdict of the checksum test, for any sector size |
| BootRegion.SuperBlock.Soil | fs/exfat/mount.c:164-172 | sets the mounted flag and no other bit, on the device too; the region stays accepted |
| BootRegion.SuperBlock.Finalize | fs/exfat/mount.c:350-370 | clears the flag and no other bit of the state, and stores the percentage of the clusters the bitmap has in use, unless the stored one is 0xff; the region stays accepted |
| BootRegion.PercentExact | fs/exfat/mount.c:358-367 | the stored percentage is the rounded one if and only if the product fits in 32 bits |
| BootRegion.PercentWraps | fs/exfat/mount.c:358-367 | a full volume of 2^26 clusters is stored as 36 percent full |
| Formatter.EraseObject | fs/exfat/mkfs/mkexfat.c:68-89 | zeros exactly the object's bytes |
| Formatter.SbFields | fs/exfat/mkfs/vbr.c:40-80 | the bytes of the super block give back every field mount reads |
| Formatter.SbRest | fs/exfat/mkfs/vbr.c:40-80 | the other fields: jump, volume length, FAT length, serial number, drive, signature, and zeros in between |
| Formatter.VbrWrite | fs/exfat/mkfs/vbr.c:82-141 | writes the super block, eight signature sectors, two empty ones and the checksum sector |
| Formatter.VbrAccepted | fs/exfat/mkfs/vbr.c:82-141 | what is written passes mount's checksum test |
| Formatter.FatWriteEntries | fs/exfat/mkfs/fat.c:51-63 | writes the chain of an object, ended |
| Formatter.FatWrite | fs/exfat/mkfs/fat.c:65-81 | two reserved entries and the three chains, back to back |
| Formatter.CbmBits | fs/exfat/mkfs/cbm.c:42-72 | the bits set are exactly the clusters the three objects take |
| Formatter.BitWeight | fs/exfat/mkfs/cbm.c:42-72 | bit k of a byte of the bitmap is worth 2^k |
| Formatter.SumUpcase | fs/exfat/mkfs/rootdir.c:61-76 | the loop sums all bytes of the table |
| Formatter.RootDirWrite | fs/exfat/mkfs/rootdir.c:78-95 | a cleared label, the bitmap entry and the upcase entry |
| Formatter.Erase | fs/exfat/mkfs/mkexfat.c:91-119 | every object's region is zero afterwards |
| Formatter.Create | fs/exfat/mkfs/mkexfat.c:121-139 | every object stands in its region, followed by zeros, none over another |
| Formatter.Mkfs | fs/exfat/mkfs/mkexfat.c:141-170 | formats exactly the accepted volumes and leaves the device alone otherwise |
| FormattedImage.SuperBlockAgrees | fs/exfat/mkfs/vbr.c:40-80 | of every formatted image, by its own fields: the sector count is the volume's, the FAT ends where the heap starts and has an entry for every cluster and the two reserved ones, the heap ends inside the volume, the root directory starts in it |
| FormattedImage.SuperBlockBytes | fs/exfat/mkfs/vbr.c:50-79 | jump, name, serial number, version, flags, sizes, drive and signature byte by byte, and zeros between |
| FormattedImage.BootSectors | fs/exfat/mkfs/vbr.c:82-141 | eight sectors hold the extended boot signature alone, two nothing, and the backup region repeats the first |
| FormattedImage.FatWords | fs/exfat/mkfs/fat.c:51-81 | every word of the FAT: the two reserved ones, the three chains, and zeros |
| FormattedImage.SystemFiles | fs/exfat/mkfs/rootdir.c:39-95 | the entries of the root directory byte by byte, the upcase table's checksum among them, and the table where its entry says |
| Mounting.EndsShort | fs/exfat/mount.c:33-61 | a chain that ends visits no cluster twice and is no longer than the heap |
| Mounting.RootDirSize | fs/exfat/mount.c:33-61 | the length of the root chain if it ends; 0 if and only if it meets a bad cluster or never ends, so the loop check is exact |
| Mounting.SystemChains | fs/exfat/mkfs/fat.c:65-81 | the formatter's chains of the bitmap, upcase table and root directory end, with the lengths the objects need |
| Mounting.FormattedFat | fs/exfat/mkfs/fat.c:65-81 | every FAT word of a formatted device: the chains, and zero elsewhere |
| Mounting.FormattedBit | fs/exfat/mkfs/cbm.c:42-72 | every bitmap bit of a formatted device: set exactly for the clusters taken |
| Mounting.ScanRoot | fs/exfat/node.c:387-530 | the pass over a root directory without files finds the bitmap and upcase entries, and accepts exactly the valid ones |
| Mounting.CheckVolume | fs/exfat/mount.c:216-298 | the checks of mount accept exactly the images described by `Mountable` |
| Mounting.FormattedMountable | fs/exfat/mount.c:216-298 | every formatted device passes them |
| Mounting.Mount | fs/exfat/mount.c:190-345 | mounting a formatted device succeeds, and builds a valid volume whose only file is the root directory and whose bitmap marks exactly the clusters taken |
| FormattedRuns.NewFile | fs/exfat/node.c:120-130 | a new node has no clusters and no bytes, and the volume stays valid |
| FormattedRuns.FormatAndRun | fs/exfat/mkfs/mkexfat.c:141-170 | format, mount and any calls on any number of new files: the volume is valid, the calls are a run of flat files that ends in what the volume holds, and at first every cluster not taken by the formatter is free |
| Sessions.Dump | fs/exfat/cluster.c:156-172 | the bytes written are the bits in memory, eight to a byte |
| Sessions.Flush | fs/exfat/cluster.c:156-172 | the bitmap on the device is the one in memory, and no file changes |
| Sessions.CommitUnder | fs/exfat/mount.c:154-172 | committing the super block under a mounted volume changes only bytes that may change, and the volume stays valid |
| Sessions.Unmount | fs/exfat/mount.c:372-380 | for any valid volume: the files stay, the bitmap on the device is the one in memory, the mounted flag is clear, and the boot region is accepted exactly if it was at mount |
| Sessions.Session | fs/exfat/mount.c:190-380 | format, mount, any calls, flush, unmount: the calls are a run of flat files that ends in what the volume holds, the boot region is accepted, the flag is clear, and the bitmap read back is the one in memory |
| EntrySets.CheckEntries | fs/exfat/node.c:165-207 | the transition check accepts exactly: file entry, info entry, one or more name entries, any optional ones |
| EntrySets.ParseFileEntries | fs/exfat/node.c:296-334 | the checks and field reads, with the checksum over the whole set |
| EntrySets.SumStored | fs/exfat/utils.c:92-101 | storing the checksum does not change it, so the set is accepted |
| EntrySets.CalcNameHash | fs/exfat/utils.c:124-141 | the hash is the rotating sum of the upper-case name's bytes |
| EntrySets.BuildSet | fs/exfat/node.c:894-934 | the entries built for a new file, with name entries and checksum |
| EntrySets.CommitParses | fs/exfat/node.c:894-951 | the set for any name of 1 to 255 units parses back to the same name and attributes and an empty extent |
| EntrySets.Refresh | fs/exfat/node.c:652-671 | the flushed fields and checksum over the entries read |
| EntrySets.FlushParses | fs/exfat/node.c:628-678 | a flushed node that meets check_node's conditions parses back to the same sizes, start cluster, name and (unless empty) form |
| EntrySets.FlushTimes | fs/exfat/node.c:652-660 | in a storable zone and in range the modification time comes back exactly, the access time without its odd second |
| EntrySets.RenameParses | fs/exfat/node.c:1033-1062 | a set that parses still parses after a rename, to the same node under the new name |
| EntrySets.Retitle | fs/exfat/node.c:1033-1062 | builds that set from the first two entries of the old one, with new name entries, hash and checksum |
| EntryLayouts.NewLayout | fs/exfat/node.c:894-934 | where every field of a new set stands: one time three times, flags, name length and hash, an empty extent, the checksum |
| EntryLayouts.NewNameLayout | fs/exfat/node.c:921-931 | unit j of the name stands in name entry j / 15 behind two header bytes, low byte first, zeros behind the name |
| EntryLayouts.ParsedLayout | fs/exfat/node.c:132-334 | the bytes from which every field of a parsed node was read, the entry types and what check_node demands |
| EntryLayouts.ParsedName | fs/exfat/node.c:154-163 | the bytes of every unit of a parsed name |
| EntryLayouts.ParseExact | fs/exfat/node.c:165-334 | a set parses if and only if its bytes say so: the types in order, two known flags, enough name entries, the checksum, and sizes and start cluster as check_node wants them |
| EntryLayouts.FlushSpares | fs/exfat/node.c:652-671 | a flush leaves the creation time, the name and its hash alone |
| EntryLayouts.RenameSpares | fs/exfat/node.c:1037-1062 | a rename writes the entry count, the name's length and hash and the checksum, and no other byte of the first two entries |
| EntryLayouts.HashStep | fs/exfat/utils.c:124-141 | one more unit adds its upper-case form to the hash, low byte first |
| EntryLayouts.SameHash | fs/exfat/utils.c:124-141 | names that differ in case only have the same hash |
| DirectorySlots.BuildMap | fs/exfat/node.c:840-851 | the bitmap marks exactly the entries of the children |
| DirectorySlots.CheckSlot | fs/exfat/node.c:807-827 | only the root is read; refuses exactly a slot with a valid entry |
| DirectorySlots.ScanSlots | fs/exfat/node.c:853-882 | the scan ends although its index goes back, with the first place that has room, or else with the tail and the knowledge that no place has |
| DirectorySlots.FindSlot | fs/exfat/node.c:829-892 | the first place with room, or the tail after growing by the fewest whole clusters of zeros, which succeeds exactly when the clusters are free; without space the directory is as before |
| DirectorySlots.TailDisjoint | fs/exfat/node.c:885-891 | a slot at the tail crosses no child's entries |
| DirectorySlots.TailExact | fs/exfat/node.c:885-891 | the place where the scan ends without room is determined by the children and the room needed |
| DirectorySlots.TailFree | fs/exfat/node.c:885-891 | after an extension the slot is free on the disk if and only if no entry from the tail's beginning on was valid, the tail being a function of the children and the room needed |
| Directory.WriteEntries | fs/exfat/node.c:101-118 | entries written inside a directory are spliced into it, and no other file changes |
| Directory.ReadEntries | fs/exfat/node.c:80-99 | returns the directory's bytes |
| Directory.CreateEntry | fs/exfat/node.c:953-988 | succeeds exactly when the clusters the slot costs are free; the set stored on the volume parses back as the new file, every other child's entries keep their bytes, and so does every valid entry of the root, at the tail those before its beginning; without space nothing changes; the bytes stored are the new set's, name hash and checksum included |
| Directory.TailExample | fs/exfat/node.c:829-892 | on any volume whose root has its bitmap and upcase entries and a label in its last place, find_slot gives that place to a new file, which is written over the label |
| Directory.FlushNode | fs/exfat/node.c:628-678 | what is stored is the refreshed set, which parses back to the node; the rest of the parent is as it was; a set with bad types is left alone |
| Directory.EraseEntries | fs/exfat/node.c:680-693 | the entries lose their valid marks and no other byte changes |
| Directory.RenameEntry | fs/exfat/node.c:1025-1071 | the bytes at the new place are the first two entries under the new name and its hash, and parse to the same node; the old set loses its valid marks and nothing else, and every other byte of both directories and every other file stays |
| Publishing.Publish | fs/exfat/node.c:628-988 | create, write and flush succeed exactly when the clusters of the slot and of the data are free; then the entry read back from the directory has the name, the size and the start cluster of a chain that holds exactly the bytes written; no other entry and no other file changes |
| DirectoryShrink.ShrinkDirectory | fs/exfat/node.c:712-755 | never fails; leaves a directory with a child behind the deleted entry alone, and otherwise cuts whole clusters behind the last child's name and keeps every byte before; every child's set is kept if and only if the last one's ends in the cluster where its name ends, any other entry if and only if it lies no later |
| DirectoryShrink.AllKept | fs/exfat/node.c:730-754 | the new size holds every child's set if and only if the last child's optional entries end in the cluster where its name ends |
| DirectoryShrink.CutOptional | fs/exfat/node.c:712-755 | on any valid volume, a directory of two clusters from which the call cuts a child's optional entry, and returns 0 |
| DirectoryChanges.RenameFile | fs/exfat/node.c:1025-1160 | succeeds exactly when the clusters of the new slot are free; the set there parses to the same node under the new name, the old set loses its valid marks and nothing else, and no other child's entry, safe entry of the root or other file is touched |
| DirectoryChanges.DeleteFile | fs/exfat/node.c:757-786 | the set loses its valid marks and nothing else, the directory is shrunk, and exactly the clusters of the file and those cut off the directory are free again; the other children are kept if and only if one follows the set or the last one's entries end where its name does; no other file changes |
| DirectoryChanges.ChildKept | fs/exfat/node.c:757-786 | a remaining child whose set is left reads as before |
| NodeTree.ClimbsToRoot | fs/exfat/node.c:572-594 | with the invariant's ranks, every node reaches the root by its parents |
| NodeTree.Tree.ReachesRoot | fs/exfat/node.c:572-594 | in a valid tree every node reaches the root by its parents |
| NodeTree.AttachRanked | fs/exfat/node.c:572-581 | hanging a loose node under a node outside it makes no cycle |
| NodeTree.Unlink | fs/exfat/node.c:583-594 | the link updates of tree_detach take the node out of its doubly linked list |
| NodeTree.Link | fs/exfat/node.c:572-581 | the link updates of tree_attach put the node in front |
| NodeTree.Tree.Detach | fs/exfat/node.c:583-594 | one list loses the node, all others and the tree around it are kept |
| NodeTree.Tree.Attach | fs/exfat/node.c:572-581 | the tree is whole again with the node under the directory |
| NodeTree.Tree.LookupName | fs/exfat/lookup.c:80-107 | finds the child of that name if and only if there is one |
| Names.CompareName | fs/exfat/lookup.c:67-78 | zero exactly when the names agree in upper case up to the end of the shorter one, and there too |
| Names.CompareExact | fs/exfat/lookup.c:62-78 | that is equality of the upper-case names, for all names, if and only if the table maps no character to what it maps zero to |
| NodeTree.Tree.IsBeneath | fs/exfat/node.c:1093-1107 | the climb over parents decides whether the target lies beneath the node |
| NodeTree.Tree.Rename | fs/exfat/node.c:1025-1170 | every return code exactly: beneath itself, kinds that differ, a directory that is not empty, no room, in that order; the tree stays a tree with well-formed lists and distinct sibling names; the node ends in front under one parent with its new name; no node is lost but a replaced target, which is of the same kind and childless |
| NodeTree.Tree.Create | fs/exfat/node.c:940-951 | a new child in front of the list, unless the name is taken |
| NodeTree.Tree.Remove | fs/exfat/node.c:757-805 | a childless node leaves the tree and nothing else does |
| Timestamps.CalendarNumber | fs/exfat/time.c:89-95 | the decoder's day formula numbers the days of the calendar in order |
| Timestamps.DayNumberInjective | fs/exfat/time.c:89-95 | a day number belongs to one date |
| Timestamps.MonthOf | fs/exfat/time.c:131-145 | the month search finds the calendar date |
| Timestamps.UnixToExfat | fs/exfat/time.c:114-158 | encodes the date of a calendar that counts day by day, the clock and the zone |
| Timestamps.ExfatToUnix | fs/exfat/time.c:56-112 | rejects bad fields with 0 and otherwise adds up date, clock and zone |
| Timestamps.ZoneExact | fs/exfat/time.c:103-157 | a zone survives its byte if and only if it is a whole number of quarter hours in the 7-bit range |
| Timestamps.RoundTrip | fs/exfat/time.c:56-158 | for every second of the 46752 days, encoding and decoding gives the second back if and only if the zone is such |
| Timestamps.RoundTripRange | fs/exfat/time.c:114-158 | with such a zone, exactly the seconds of those days come back |
| Timestamps.Ordered | fs/exfat/time.c:114-158 | date, time and centiseconds are ordered as the times are |
| Timestamps.StampLayout | fs/exfat/time.c:114-158 | any date of the 128 years and any second of a day, counted from second 315532800, in the bits of the entry's fields |
| Timestamps.StampDecodes | fs/exfat/time.c:56-112 | those bits decode to that second, whatever the local zone |
| Timestamps.ZoneLayout | fs/exfat/time.c:156-157 | q quarter hours east are stored in seven bits under a set one |
| Timestamps.EpochStamp | fs/exfat/time.c:40-158 | second 315532800 in Greenwich is 1 January 1980 |
| Timestamps.LeapDayStamp | fs/exfat/time.c:56-158 | a second of 29 February 2024 in a zone one hour east, both ways |
| Utf.DecodeEncoded | fs/exfat/utf.c:26-83 | decoding the bytes of any 16-bit character gives the character |
| Utf.EncodeLayout | fs/exfat/utf.c:26-83 | one byte below 0x80, two below 0x800, three above, six bits in every byte behind the first |
| Utf.UnitExact | fs/exfat/utf.c:85-102 | a unit stands for itself unless it is a high surrogate, which needs a low one behind it; the pair gives the low 16 bits of its character |
| Utf.LengthExact | fs/exfat/utf.c:148-178 | the first byte announces as many bytes as it has leading ones, from two to six |
| Utf.DecodeExact | fs/exfat/utf.c:139-193 | what decodes is a first byte and the bytes it announces, all of them from 0x80 to 0xbf |
| Utf.DecodeValue | fs/exfat/utf.c:139-193 | up to three bytes give all the bits of the character, more its low 16 bits |
| Utf.BackToChars | fs/exfat/utf.c:104-245 | whatever converts to UTF-8 converts back to its characters |
| Utf.To8Exact | fs/exfat/utf.c:104-137 | every conversion to UTF-8: the encoding of the characters if it leaves room for the terminator, otherwise which of the two errors comes first |
| Utf.To16Exact | fs/exfat/utf.c:212-245 | every conversion to UTF-16: the characters if they leave room for the terminator, and for one more behind a zero; otherwise which error comes first |
| Utf.EnoughRoom | fs/exfat/utf.c:104-137 | three bytes a unit and a terminator suffice |
| Utf.RoundTrip | fs/exfat/utf.c:26-245 | a name of non-zero units survives the trip to UTF-8 and back if and only if it has no high surrogate |
| Utf.NameBuffers | fs/exfat/exfat.h:126-129 | the name buffers hold every such name of up to 255 units |
| Utf.Utf16ToUtf8 | fs/exfat/utf.c:104-137 | the loop computes the conversion, its errors included |
| Utf.Utf8ToWchar | fs/exfat/utf.c:139-193 | the continuation loop computes the character or refuses the bytes |
| Utf.Utf8ToUtf16 | fs/exfat/utf.c:212-245 | the loop computes the conversion, its errors included |
| Fat32Volume.Fat32.GetNext | fs/fat32/fat32.c:156-172 | the low 28 bits of the FAT entry |
| Fat32Volume.Fat32.SetNext | fs/fat32/fat32.c:174-203 | one link of the first FAT changes, the entry's upper four bits stay, and so does every other entry |
| Fat32Volume.Fat32.AllocateCluster | fs/fat32/fat32.c:240-261 | the first free cluster, ended by a mark from 0x0ffffff8 on; 0 exactly when there is none; the cached count follows |
| Fat32Volume.Fat32.FreeCluster | fs/fat32/fat32.c:263-278 | the cluster is free and the cached count follows |
| Fat32Volume.Fat32.FreeChain | fs/fat32/fat32.c:857-867 | frees exactly the clusters of one entry and keeps all other chains |
| Fat32Volume.Fat32.WriteClusters | fs/fat32/fat32.c:881-936 | builds the chain of an entry with the data in it, or reports a full disk |
| Fat32Entries.WrittenFound | fs/fat32/fat32.c:280-324 | an entry just written is found again if and only if its name does not begin with the deletion mark |
| Fat32Entries.OtherNames | fs/fat32/fat32.c:280-324 | writing the chosen slot changes the lookup of no other name |
| Fat32Entries.FoundBytes | fs/fat32/fat32.c:280-324 | a name is found in the first slot that bears it, is not deleted and is no volume label, if no end mark comes before, by the bytes |
| Fat32Entries.EntryLayout | fs/fat32/fat32.c:938-955 | where every field of a written entry stands: the name, the attributes, the low half of the first cluster at byte 26, the high half at byte 20, the size at byte 28 |
| Fat32Entries.EntryOnDisk | fs/fat32/fat32.c:938-955 | the same for the slot of a directory it is written to |
| Fat32Files.NameToFat | fs/fat32/fat32.c:85-111 | the padded upper-case 8.3 name, which never begins with a zero or a dot |
| Fat32Files.UpperLetters | fs/fat32/fat32.c:94-97 | letters go to upper case, every other character stays |
| Fat32Files.FindEntry | fs/fat32/fat32.c:280-324 | the first entry of that name before the end mark, or its absence |
| Fat32Files.ReadFileIn | fs/fat32/fat32.c:594-647 | the first bytes of the named file, up to its size and the room given |
| Fat32Files.ChooseSlot | fs/fat32/fat32.c:806-880 | the slot of the existing file, else the first free one |
| Fat32Files.WriteFileIn | fs/fat32/fat32.c:796-979 | one directory's view: it stays well-formed whatever the outcome; success exactly when there is a slot and room; no chain and no byte but those of the slot and the directory changes; success leaves the data in the chosen slot and, on the disk, the name, attributes, size and both halves of the chain's first cluster where the format has them |
| Fat32Files.WriteThenRead | fs/fat32/fat32.c:594-979 | after a successful write, reading with enough room returns exactly the data, for every name without the deletion mark |
| Fat32Files.ReadAround | fs/fat32/fat32.c:594-979 | reading any other name gives the same before and after a write, successful or not |
| Fat32Directories.DeleteFile | fs/fat32/fat32.c:1261-1305 | gives back every cluster of the file, marks its entry with 0xe5 and keeps the other entries |
| Fat32Directories.CreateDirectoryIn | fs/fat32/fat32.c:985-1128 | succeeds exactly when a cluster is free and the directory has a free slot and no such name, and leaves a directory of one cluster with its dot entries and an entry with both halves of its cluster in place; otherwise nothing changes |
| Fat32Directories.DotLayout | fs/fat32/fat32.c:1067-1086 | the first cluster of a new directory byte by byte: itself, its parent, end marks |
| Fat32Directories.IsDirectoryEmpty | fs/fat32/fat32.c:1162-1197 | true exactly when only dot and deleted entries come before the end |
| Fat32Directories.DeleteDirectoryIn | fs/fat32/fat32.c:1199-1251 | succeeds exactly when the name is found, is a directory and is empty; then frees its first cluster and marks its entry deleted; otherwise nothing changes |
| Fat32Tree.TreeReplaced | fs/fat32/fat32.c:857-979 | when one slot gets a file, nothing or a damaged directory, the rest is still a tree of well-formed directories |
| Fat32Tree.EmptyBeneath | fs/fat32/fat32.c:1162-1197 | a directory that the emptiness test accepts has nothing beneath it |
| Fat32Tree.WriteFile | fs/fat32/fat32.c:796-979 | the whole tree stays well-formed; every chain and byte outside the directory, the slot and what hangs beneath it stays; overwriting a directory loses exactly what it held, and without room damages its entry |
| Fat32Tree.RemoveFile | fs/fat32/fat32.c:1261-1305 | the same for deletion: a directory deleted this way loses exactly what hung beneath |
| Fat32Tree.RemoveDirectory | fs/fat32/fat32.c:1199-1251 | succeeds exactly for an empty directory, and nothing but that directory leaves the tree |
| Fat32Tree.MakeDirectory | fs/fat32/fat32.c:985-1128 | the new directory joins the tree with empty slots of its own, and no other chain or byte changes |
| Fat32Paths.EmptyExact | fs/fat32/fat32.c:1162-1197 | the emptiness test accepts a plain directory if and only if no name is found in it |
| Fat32Paths.WalkOnce | fs/fat32/fat32.c:1144-1160 | only one path leads to an entry |
| Fat32Paths.Planted | fs/fat32/fat32.c:806-979 | writing one slot puts an item at one path of the map, in place of what was there and beneath, and leaves every other path |
| Fat32Paths.Uprooted | fs/fat32/fat32.c:1199-1305 | deleting one slot takes one path and those beneath out of the map, and leaves every other path |
| Fat32Steps.PutDone | fs/fat32/fat32.c:796-979 | a successful write is a step of the map, also for names that begin with the deletion mark |
| Fat32Steps.PutFailed | fs/fat32/fat32.c:857-936 | a write without room is one: an existing file is left with bytes of the data, a folder is damaged, and no other path changes |
| Fat32Steps.RemovableExact | fs/fat32/fat32.c:1199-1251 | a directory can be removed exactly if the map has a folder there and nothing beneath |
| Fat32Format.FatCapacity | fs/fat32/fat32.c:341-347 | in 32-bit arithmetic, the clusters number at most 128 a FAT sector if and only if the sector count, cut to 32 bits, is at least 32, is not 33 and lies below 2^32 - 993 |
| Fat32Format.FatEntriesFit | fs/fat32/fat32.c:341-347 | all entries, the two reserved ones included, fit if and only if nothing wraps and 1026 f - D >= 9 |
| Fat32Format.FatTooSmall | fs/fat32/fat32.c:435-437 | 33 sectors, 2^32 - 1 and 2^32 + 33, where the arithmetic wraps, and 1058, whose FAT is two entries short |
| Fat32Format.Format | fs/fat32/fat32.c:435-505 | the three marks of the FAT and zeros behind them, a root directory of one empty cluster, everything else free, the count exact, and the tree whole |
| Fat32Runs.FindDirectory | fs/fat32/fat32.c:1144-1160 | the first cluster of the subdirectory of that name, 0 exactly when there is none |
| Fat32Runs.Resolve | fs/fat32/fat32.c:1144-1160 | following a path finds the directory it leads to, or that it leads nowhere |
| Fat32Runs.Perform | fs/fat32/fat32.c:594-1305 | one operation at any path is a step of the map, and fails without effect where the path leads to no folder |
| Fat32Runs.Run | fs/fat32/fat32.c:240-278 | in every run of reads, writes, overwrites, directory creation and deletes at any paths of the tree, failed ones included, the tree stays whole and the cached free count equals the number of free FAT entries, up to and including the first write that runs out of space over a directory; on plain directories the operations are a run of the map from paths to files and folders, with every return code that space does not decide and every byte read |
| Fat32Runs.FormatAndRun | fs/fat32/fat32.c:333-505 | format and any operations: such a run, from the map with an empty root folder only |
| Fat32Runs.ReadAcross | fs/fat32/fat32.c:594-979 | reading a file of any directory gives the same before and after a write to any directory, successful or not, unless the write takes the place of a directory above the file |
| Fat32Runs.Spoil | fs/fat32/fat32.c:857-936 | for every directory and every length without room, a write over the directory that leaves its entry in place and its clusters no longer a directory |
| Fat32Runs.Install | src/installer/installer.c:185-203 | format, a directory, a directory inside it and a file inside that: with three clusters and those of the file, all succeeds and the file reads back |
| Scheduling.Scheduler.AddTask | scheduler/scheduler.c:114-144 | finds an existing registration, else takes the free slot nearest the cursor; -1 exactly for NULL or a full table |
| Scheduling.Scheduler.RemoveTask | scheduler/scheduler.c:146-157 | empties the slot but for its statistics, and the number of registered tasks stays exact |
| Scheduling.Scheduler.RemoveByFn | scheduler/scheduler.c:243-248 | removes exactly the tasks of that callback |
| Scheduling.Scheduler.SetPriority | scheduler/scheduler.c:210-215 | only a registered task's priority changes |
| Scheduling.Scheduler.Suspend | scheduler/scheduler.c:217-222 | only a ready task is suspended |
| Scheduling.Scheduler.Resume | scheduler/scheduler.c:224-232 | a suspended or sleeping task is ready again |
| Scheduling.Scheduler.Sleep | scheduler/scheduler.c:234-241 | a registered task sleeps for a positive time |
| Scheduling.Scheduler.TickSleepTimers | scheduler/scheduler.c:75-85 | every sleeper's time goes down and those due wake |
| Scheduling.Scheduler.RunAll | scheduler/scheduler.c:163-179 | runs every ready task exactly once and no other, in descending priority and then by cyclic distance from the cursor; exactly those have one more run and dt more seconds |
| Scheduling.OrderUnique | scheduler/scheduler.c:163-179 | that order is the only one |
| Scheduling.Scheduler.RunOnce | scheduler/scheduler.c:185-198 | runs the ready slot nearest the cursor, whatever its callback does to the scheduler, and credits it with one run and dt seconds; the cursor ends past it |
| Scheduling.SleepsExactly | scheduler/scheduler.c:75-179 | in every run, a task asleep for s does not run before the call at which the accumulated time reaches s, and runs in that call if it is a pass |
| Scheduling.RunsInTurn | scheduler/scheduler.c:185-198 | a slot that stays ready is run after at most as many other runs as its distance from the cursor, if every registration in between is harmless to it |
| Scheduling.NoStarvation | scheduler/scheduler.c:185-198 | a slot that stays ready for 16 single steps is run by one of them, whatever the other slots do, if every registration in between is harmless to it |
| Scheduling.HarmlessExact | scheduler/scheduler.c:125-141 | a registration takes the cursor no farther from a slot if and only if its own slot comes first from the cursor or is the last of the round |
| Scheduling.Starve | scheduler/scheduler.c:114-198 | for every number of rounds of registering, stepping and unregistering, a slot that is ready all along is never run |
| Scheduling.StarveFromInit | scheduler/scheduler.c:98-198 | such a run from an empty scheduler |

## Left out

- Device errors in the middle of an operation: reads and writes of the device succeed, and out of space is the only failure modelled there.
- Calls of `exfat_bug`: what they assert is required of the caller.
- Repair prompts, messages, reference counts, and the clock, which is a parameter.
- The words of the free-cluster bitmap are sequences of 64 bits, without bitwise arithmetic; bit operations elsewhere are written as division, remainder and sums of disjoint fields.
- Arithmetic on file offsets is unbounded: sizes up to 2^64 do not wrap, and node times are unbounded.
- FileIo.Truncate: requires the size to be at most 2^32 - 1 clusters, above which the 32-bit cluster count no longer tells the clusters (`FileIo.ClusterCountCovers`).
- FileIo.Pwrite: the same bound on the end of the write.
- FileIo.Pread: the buffer past the bytes returned is not modelled.
- Formatter.Mkfs: requires a volume below 16 TB, since above it the layouts disagree (`Layout.LayoutsAgree`); the contents of the upcase table are a parameter of its length, 5836.
- Mounting.Mount: mounts formatted devices, whose root directory holds no files yet; the geometry of an arbitrary super block is taken on trust by the source and not modelled; the upcase table is not decompressed.
- Timestamps.UnixToExfat: requires the calendar year to fit its 16-bit variable.
- DirectorySlots.FindSlot: the directory is whole entries, the children's lie inside it, and it stays below the largest size.
- Directory.CreateEntry: the path is resolved, the children's entries are given and the directory is initialised throughout, as truncation leaves it; the node joins the tree in `NodeTree`.
- Directory.FlushNode: the entries read announce the node's continuations and name length.
- NodeTree.Tree.Rename: starts after the paths are resolved; whether there is room for the new entries is a parameter, and the entries themselves are moved in `Directory.RenameEntry`; a name is its upper-case form, which `Names` relates to the comparison.
- Path walking (`exfat_lookup`, `exfat_split`), directory caching of files (`exfat_cache_directory`), and attributes of `exfat_stat`.
- Fat32Files.WriteFileIn: a cluster is eight sectors of one disk, held whole; the second FAT, the FSInfo sector and the sector layer are not modelled.
- Fat32Format.Format: requires a FAT with an entry for every cluster, which `Fat32Format.FatEntriesFit` decides, and fewer clusters than the 28-bit marks; the boot sectors are not modelled.
- Fat32Runs.Run: stops at the first write that runs out of space over a directory, since the damaged directory's clusters hold file data (`Fat32Runs.Spoil`); its map of paths is stated for directories without volume labels or repeated names, as the operations leave them on a formatted volume; names are already in 8.3 form; `fat32_delete_file` works in the root directory, as the source does.
- DirectoryChanges.RenameFile: starts after the paths are resolved and a replaced target is gone; the flush of the directories' own entries is `Directory.FlushNode`.
- DirectoryChanges.DeleteFile: the remaining children are given; the flush of the directory's own entry is `Directory.FlushNode`.
- Directory.RenameEntry: the place of the new set is given; `DirectoryChanges.RenameFile` finds it.
- Publishing.Publish: the file's node is new, its bytes are written by one call, and the directory is initialised throughout.
- DirectoryShrink.ShrinkDirectory: the children are given.
- Sessions.Unmount: the flush of the nodes is `Directory.FlushNode`, node by node; the bitmap is written whether or not it is marked dirty.
- Scheduling.Scheduler.RunAll: the callbacks leave the scheduler alone; time is a real number.
- `fs/gpt`, drivers, the graphical interface, the rest of the installer, the boot loader, `exfat_find_used_sectors`: outside the allocators, on-disk structures and scheduler modelled here.
