# A verified model of the Conclave enclave runtime

Conclave runs JVM code inside SGX enclaves. This project models, in Dafny 4.11, the parts of its runtime that keep
state, and proves what they promise over every input and every run:

* **The FAT file system engine** (`cpp/fatfs/common/src/ff.cpp`), in the configuration of
  `cpp/fatfs/common/include/ffconf.hpp`: 512-byte sectors, read/write, long names, UTF-8 API, one private sector buffer
  per file. The layers are proved each against the one below: the one-sector write-back window (`Volume`, `WindowRuns`);
  packed 12, 16 and 32-bit FAT entries as a map (`FatEntries`); the FSInfo sector (`InfoSector`); a heap of disjoint
  cluster chains with a free count (`Chains`, `Volume`, `Allocation`); an open file as a byte sequence with a cursor
  (`FileLayout`, `FileState`, `OpenFile`, `DirEntry`, `FileRuns`); directory tables and their rows of entries
  (`DirTable`, `Directory`, `Search`, `WholeName`, `DirOps`); names as text (`Utf`, `LongName`, `ShortName`,
  `NameSegment`, `Listing`); a directory as a list of names that are added, removed, looked up and listed (`NameList`,
  `Matching`, `NameRuns`); formatting and mounting (`FormatPlan`, `BootSector`, `Drive`, `Mount`, `Format`,
  `FreshVolume`); and all of them in one run (`Lifecycle`).
* **The shuffled, encrypted sector store** on the untrusted host (`PersistentDisk`).
* **Smaller machines**: POSIX file handles (`HandleTable`), the enclave/host thread-start protocol (`ThreadStart`), the
  client's rollback detection (`Rollback`), the mmap region index (`MemoryRegions`).

`dafny verify dfyconfig.toml` checks everything.

## How the model is built

The engine's objects are classes with the engine's fields. A `Volume` carries a ghost `view`: the drive as the engine
sees it, the window where it lies and the disk elsewhere. A drive answers any request with failure unless it is
`reliable`; a failed write leaves that sector with anything in it. The second FAT and the FSInfo sector are *unchecked*:
the engine ignores the outcome of writing them, so the view says nothing about them. What the engine owes FSInfo is an
invariant of its own (`Told`): the sector tells the current free count and last cluster unless the engine knows that it
does not, or a write to it failed.

An open `File` carries the chain of its clusters and the `image` of its sectors, buffered changes included. While it is
open, the rest of the volume is *frozen* (`FileState.Setting`): every sector outside the FAT, the file's own and free
clusters and its directory entry keeps its contents, and every FAT entry of another chain its value. This is part of the
invariant every operation keeps.

Exits of the engine that report an internal error and that the invariant rules out are asserted never to be taken.

## What turned out false of the code

Each of these has a lemma or method with a concrete case and a statement of exactly when the property does hold.

* The tables of the sector store do not reach all of the drive: of 1000 sectors only 512 (`HalfCovered`, `FullyCovered`).
* A sector store that is opened over existing contents and first asked to read or sync overwrites host sector 0, and some
  sector is stored there (`LostAtZero`, `SyncJustOpened`, `ZeroIsSomeones`).
* A boot sector can mount with its FAT beyond its data, or with its FSInfo sector in its FAT (`WrappedFatMounts`,
  `FsInfoInFat`, `MountedIsWf`).
* UTF-8 sequences longer than needed are read, though not written back (`LongerForm`, `StandardOnly`).
* A long name with the character U+FFFF is stored without what comes after it in its part (`FillerCuts`,
  `WrittenIsPart`).
* A path opened twice and closed once is no longer known, though one handle is still open
  (`OpenTwiceCloseOnce`, `CloseKeepsFound`).
* A task that has completed can be set back to started, and a joiner then waits for ever
  (`CompletionLost`, `StateForGood`).
* After a host thread failed to attach, a task whose start was reported as successful can stay in the queue with nobody to
  run it (`WrongTaskStarts`, `LeftBehind`).
* The bounds test of the region index accepts a range that wraps around the address space, and a request of almost all of
  it is rounded to nothing (`WrappedRange`, `TestIsRight`, `RoundedHolds`).
* A page freed twice counts twice, so a region can be erased while other pages of it are in use (`FreedTwice`,
  `ErasedWhenFreed`).
* A client whose constraint has no valid criteria can be saved but not restored (`EmptyConstraint`, `SaveThenRestore`).

## Model

| member | source | states |
|---|---|---|
| Bytes.LdStDword | cpp/fatfs/common/src/ff.cpp:614-665 | a stored double word is loaded back, reduced to 32 bits |
| FatEntries.PutEntryIsMapUpdate | cpp/fatfs/common/src/ff.cpp:1209-1258 | storing an entry is updating a map from cluster to value, for all three sub-types: the cluster reads the value cut to entry width and every other cluster is unchanged, also when two 12-bit entries share a byte or straddle sectors |
| FatEntries.PutEntryKeepsReservedBits | cpp/fatfs/common/src/ff.cpp:1243-1254 | a FAT32 store keeps the four reserved bits of the entry |
| FatEntries.PutHalf12KeepsOthers | cpp/fatfs/common/src/ff.cpp:1222-1234 | a 12-bit entry half stored when the disk fails in between leaves every other entry as it was |
| FatEntries.EntryIsBits | cpp/fatfs/common/src/ff.cpp:1146-1169 | entry c of a FAT is its bits from 12c, 16c or 32c on, the lowest first, over the bytes of the FAT in order; of a FAT32 entry the lowest 28 |
| Volumes.Volume.SyncWindow | cpp/fatfs/common/src/ff.cpp:1025-1043 | writing the window back never changes the drive as the engine sees it, whether it fails or not; after a success the sector is on the disk and, if it is one of the FAT, in the second FAT too unless that one write failed |
| Volumes.Volume.MoveWindow | cpp/fatfs/common/src/ff.cpp:1047-1068 | moving the window never changes the view; on success the window holds the sector; a failed write-back keeps the dirty window |
| WindowRuns.Run | cpp/fatfs/common/src/ff.cpp:1025-1068 | over every run of moves, flushes, edits and stored entries, failures included, the view changes by explicit edits and stored entries only, each at the place and with the outcome the step names, and of the FAT by the entries named, each stored or spoiled; a flush that succeeds leaves the view on the disk and, if the two FATs were equal at the start and no write to the second one failed, leaves them equal |
| Volumes.Volume.GetFat | cpp/fatfs/common/src/ff.cpp:1131-1203 | reads the entry of the map, 1 for a cluster out of range, all ones on a disk error |
| Volumes.Volume.PutFat | cpp/fatfs/common/src/ff.cpp:1209-1258 | updates the map at one cluster; a disk error spoils at most that entry |
| Chains.ReleaseChain | cpp/fatfs/common/src/ff.cpp:1399-1485 | releasing from the head of a chain frees exactly its clusters |
| Volumes.Volume.ReleaseFrom | cpp/fatfs/common/src/ff.cpp:1424-1483 | the release loop ends on any table, cyclic ones included, because each step uses up a used entry, and computes the reference walk |
| Volumes.Volume.RemoveChain | cpp/fatfs/common/src/ff.cpp:1399-1485 | ends the chain at the previous cluster and releases the rest; keeps the free count exact, or unknown |
| Chains.TrimHeap | cpp/fatfs/common/src/ff.cpp:1399-1485 | removing a suffix of one chain keeps the table a set of disjoint chains with just that chain cut |
| Chains.TrimFrees | cpp/fatfs/common/src/ff.cpp:1433-1436 | it frees exactly the suffix and changes no entry outside the chain |
| Chains.NewChainHeap | cpp/fatfs/common/src/ff.cpp:1570-1574 | a new chain is a fresh singleton beside the others |
| Chains.StretchHeap | cpp/fatfs/common/src/ff.cpp:1570-1574 | stretching extends exactly one tail |
| Chains.ChainUnique | cpp/fatfs/common/src/ff.cpp:1131-1203 | a start cluster determines its chain |
| Volumes.Volume.FindFree | cpp/fatfs/common/src/ff.cpp:1556-1569 | the circular search finds the first free cluster after the hint and around, reports none only if there is none, and looks at each cluster at most once |
| Volumes.Volume.CreateChain | cpp/fatfs/common/src/ff.cpp:1494-1585 | allocation links exactly one free cluster; with an exact or unknown count and no entry of 1 it returns 0 if and only if no cluster is free, from any hint |
| Volumes.Volume.GetFree | cpp/fatfs/common/src/ff.cpp:4769-4830 | a scan counts the zero entries of the table |
| Chains.ZeroCountIsFree | cpp/fatfs/common/src/ff.cpp:4804-4822 | counting zero entries one after the other counts the free clusters |
| Allocation.Take | cpp/fatfs/common/src/ff.cpp:1494-1585 | on a sound volume, taking a cluster gives a sound volume and fails if and only if none is free |
| Allocation.Drop | cpp/fatfs/common/src/ff.cpp:1399-1485 | on a sound volume, cutting a chain gives a sound volume and adds the clusters cut off to a known free count |
| Allocation.Count | cpp/fatfs/common/src/ff.cpp:4769-4830 | looking the count up makes it known and exact |
| Allocation.RunIsSound | cpp/fatfs/common/src/ff.cpp:1576-1579 | over every run the table stays a heap of disjoint chains, a known count is the number of free clusters, an unknown one stays unknown until looked up, a known one stays known |
| Volumes.Volume.SyncFs | cpp/fatfs/common/src/ff.cpp:1078-1104 | after it succeeds the disk holds the view and nothing is left to tell FSInfo; on a drive that does not fail FSInfo tells the free count and the last cluster |
| Volumes.Volume.WriteFsInfo | cpp/fatfs/common/src/ff.cpp:1087-1099 | the FSInfo sector holds the free count and the last cluster |
| InfoSectors.FsInfoReads | cpp/fatfs/common/src/ff.cpp:3511-3534 | what the engine writes to FSInfo is what a mount reads |
| InfoSectors.FsInfoBytes | cpp/fatfs/common/src/ff.cpp:1087-1099 | byte for byte it is the FSInfo sector of the FAT standard: three signatures, count, last cluster, zeros |
| Mounting.SyncedMounts | cpp/fatfs/common/src/ff.cpp:3511-3534 | mounted again after a sync that could write all it wanted, a FAT32 volume has the free count and the last cluster it had |
| Volumes.Volume.ClearCluster | cpp/fatfs/common/src/ff.cpp:1627-1655 | the cluster is all zeros, in the view and on the disk, and nothing else changed |
| OpenFiles.File.constructor | cpp/fatfs/common/src/ff.cpp:3790-3806 | a file opened on a sound entry is in a good state with the cursor at 0 |
| OpenFiles.File.SeekToEnd | cpp/fatfs/common/src/ff.cpp:3807-3834 | opening for append leaves the cursor at the end, in a good state |
| OpenFiles.File.Stretch | cpp/fatfs/common/src/ff.cpp:3979-3992 | following a chain past its end adds exactly one free cluster, or reports that none is free |
| OpenFiles.File.Flush | cpp/fatfs/common/src/ff.cpp:3919-3922 | writing the buffer back changes neither the contents nor the FAT |
| OpenFiles.File.Read | cpp/fatfs/common/src/ff.cpp:3850-3940 | returns exactly the bytes of the file at the cursor, short only at its end, and keeps the cursor invariant |
| OpenFiles.File.Write | cpp/fatfs/common/src/ff.cpp:3950-4062 | splices exactly the bytes it reports at the cursor; on a drive that does not fail their number is the least of what was asked for, the size limit and the room from the cursor on, which is that of the clusters of the file and the free ones |
| OpenFiles.File.Lseek | cpp/fatfs/common/src/ff.cpp:4367-4522 | reaches the target, clipped to the size in read mode and to the room in write mode; there it lengthens the file; earlier bytes stay |
| OpenFiles.File.Truncate | cpp/fatfs/common/src/ff.cpp:4842-4883 | cuts the file at the cursor and its chain to the clusters that size needs, and frees exactly the others |
| OpenFiles.File.Sync | cpp/fatfs/common/src/ff.cpp:4071-4141 | after it the disk itself holds chain, data and directory entry, the entry marked as written, FSInfo is up to date, and every other entry of the sector is untouched |
| DirEntries.RecordedReads | cpp/fatfs/common/src/ff.cpp:4124-4134 | the start cluster and size that a sync records are those that an open reads, at bytes 26, 20 and 28 of the entry |
| DirEntries.RecordedElsewhere | cpp/fatfs/common/src/ff.cpp:4124-4134 | recording changes no byte outside the entry |
| DirEntries.RecordedMarks | cpp/fatfs/common/src/ff.cpp:4127-4131 | recording sets the archive bit and no other attribute bit, the time of the change and an unknown day of access |
| FileRuns.Do | cpp/fatfs/common/src/ff.cpp:3850-4522 | one operation on a good file is a step of the byte sequence with a cursor, in which every count and every place is determined, and leaves a good file |
| FileRuns.Run | cpp/fatfs/common/src/ff.cpp:3850-4522 | every run of reads, writes, seeks, truncations and syncs is a run of the byte sequence with a cursor in a room that stays the same: a write in the middle of a run is short only where that room, or the size limit, ends |
| FileRuns.BytesAreStable | cpp/fatfs/common/src/ff.cpp:4452-4518 | a byte of the file, also one that a seek opened up, stays until written over or cut off |
| FileRuns.ReadsBackWrites | cpp/fatfs/common/src/ff.cpp:3850-4062 | a read at the place of an earlier write returns what was written there, whatever happened elsewhere |
| FileRuns.Open | cpp/fatfs/common/src/ff.cpp:3790-3806 | opening from a directory entry gives a file with the entry's size and the chain's data |
| FileRuns.CloseAndReopen | cpp/fatfs/common/src/ff.cpp:4152-4178 | a file closed and opened again has the same contents and the same frozen rest of the volume; its entry keeps its names |
| FileRuns.Session | cpp/fatfs/common/src/ff.cpp:3653-4178 | open, any run, close, open again: the file holds what the reference ends with, in the room of its own and the free clusters, the entry records its size, the rest of the volume holds what it held, and the directory sector the same names |
| FormatPlans.ChooseSize | cpp/fatfs/common/src/ff.cpp:6115-6118 | the cluster size is doubled once for each boundary the volume reaches |
| FormatPlans.Round | cpp/fatfs/common/src/ff.cpp:6101-6173 | no round of the search aborts and each retry is nearer to the end |
| FormatPlans.Search | cpp/fatfs/common/src/ff.cpp:6101-6173 | the search ends, and finds a valid configuration if and only if the volume has at least 128 sectors: FAT12 or FAT16 with the cluster size of a fixed table of volume sizes, or twice that if the cluster count does not do, or FAT32 if the clusters cannot be larger |
| FormatPlans.KnownPlans | cpp/fatfs/common/src/ff.cpp:6101-6173 | the plans for volumes of four sizes, one of which needs a second round |
| FormatPlans.PlanMounts | cpp/fatfs/common/src/ff.cpp:3460-3509 | a mount counts the same clusters, derives the same sub-type, finds the FAT large enough and every cluster inside the drive |
| BootSectors.BuildVbr | cpp/fatfs/common/src/ff.cpp:6179-6213 | the boot sector holds, at the places of the FAT standard, the plan's sizes, the media and drive bytes, both signatures and the names, and zeros elsewhere |
| BootSectors.VbrDescribes | cpp/fatfs/common/src/ff.cpp:3460-3509 | a mount reads the plan from it |
| Formatting.Fill | cpp/fatfs/common/src/ff.cpp:6228-6254 | a region is written in pieces as its first sector and zeros, and nothing else is touched |
| Formatting.CreatePartitions | cpp/fatfs/common/src/ff.cpp:5759-5798 | the boot record has one partition, at sector 63, of the given size and system id, and its signature |
| Formatting.Mkfs | cpp/fatfs/common/src/ff.cpp:5802-6290 | formatting aborts, leaving the drive alone, if and only if it has fewer than 191 sectors; when it reports success the drive holds boot record, boot sector, empty FAT and empty root of the plan chosen, with the system id of its sub-type, and on a drive that does not fail FSInfo and the backups of both |
| Mounting.MountedIsWf | cpp/fatfs/common/src/ff.cpp:3461-3509 | whatever a boot sector says, the volume that mounts has its regions in order, a FAT large enough and every cluster on the drive if and only if its system area and clusters, summed without wrap-around, fit the drive and a FAT32 volume reserves a sector for its FSInfo |
| Mounting.MountedSectorIsWf | cpp/fatfs/common/src/ff.cpp:3461-3509 | the same of every sector a volume is mounted from |
| Mounting.KindIs | cpp/fatfs/common/src/ff.cpp:3238-3272 | byte for byte, which sectors are taken for the start of a FAT volume, which for a boot sector of another kind and which for none |
| Mounting.MountedRegions | cpp/fatfs/common/src/ff.cpp:3461-3509 | and then the regions follow each other: all FATs behind the reserved sectors, on FAT12 and FAT16 the root directory behind all FATs and the data behind it, on FAT32 the root at the cluster the sector names; counts and sizes are those of the sector |
| Mounting.MountsExactly | cpp/fatfs/common/src/ff.cpp:3460-3496 | a boot sector whose system area does not wrap around mounts if and only if it passes the standard's bounds and has room for a cluster, and then with the sub-type of its cluster count |
| Mounting.TwoFats | cpp/fatfs/common/src/ff.cpp:3500-3509 | the root directory of an ordinary FAT16 volume with two FATs is behind the second |
| Mounting.WrappedFatMounts | cpp/fatfs/common/src/ff.cpp:3468-3486 | a boot sector whose FAT size wraps around when doubled mounts, with its FAT beyond its data |
| Mounting.FsInfoInFat | cpp/fatfs/common/src/ff.cpp:3478-3520 | a FAT32 boot sector with one reserved sector mounts, with its FSInfo sector in the FAT |
| Mounting.PlanAnalyzed | cpp/fatfs/common/src/ff.cpp:3460-3509 | mounting the boot sector of a plan gives back the plan |
| Mounting.FindVolume | cpp/fatfs/common/src/ff.cpp:3278-3322 | finds the volume that is the whole drive, or else the first of the four partitions that holds one, and none if there is none |
| Mounting.LoadFsInfo | cpp/fatfs/common/src/ff.cpp:3511-3534 | free count and last cluster from FSInfo when it can be used, unknown otherwise |
| Mounting.MountDrive | cpp/fatfs/common/src/ff.cpp:3332-3564 | mounts that volume, with the geometry, hints and window its boot sector and FSInfo give; mounts nothing if there is none |
| Formatting.FormattedMounts | cpp/fatfs/common/src/ff.cpp:3332-3550 | a formatted drive mounts with the very geometry the format chose, and a free count that is exact on FAT32 and unknown otherwise |
| Formatting.FreshTable | cpp/fatfs/common/src/ff.cpp:6228-6254 | in a fresh table every cluster but the FAT32 root's is free, the reserved entries are in use, and the mounted count is exact or unknown |
| Formatting.StartFormatted | cpp/fatfs/common/src/diskio.cpp:105-143 | formatting and mounting succeeds if and only if the drive has at least 191 sectors, and gives an empty well-formed volume |
| FreshVolumes.FormatAndOpenRoot | cpp/fatfs/common/src/diskio.cpp:105-143 | its root directory is a valid, well-formed, empty table and its allocation state is sound |
| PersistentDisks.ShuffledTable | cpp/fatfs/enclave/src/persistent_disk.cpp:121-130 | whatever places the random engine picks, the table is the numbers in the order of those swaps, a permutation |
| PersistentDisks.PersistentDisk.DiskStart | cpp/fatfs/enclave/src/persistent_disk.cpp:99-130 | starting the disk sets up two permutation tables: the size of the first is the multiple of 512 next above the rounded-up square root of the number of sectors, the second holds as many entries as tables of that size fit, but at least one |
| PersistentDisks.OneSize | cpp/fatfs/enclave/src/persistent_disk.cpp:99-108 | these are the only two sizes with that property |
| PersistentDisks.MillionSectors | cpp/fatfs/enclave/src/persistent_disk.cpp:99-108 | for a million sectors they are 1024 and 976, and 999424 sectors are in reach |
| PersistentDisks.Coverage | cpp/fatfs/enclave/src/persistent_disk.cpp:99-108 | the sectors out of reach are exactly the last n mod the first table's size, or none on a small drive |
| PersistentDisks.FullyCovered | cpp/fatfs/enclave/src/persistent_disk.cpp:99-108 | the whole drive is in reach if and only if it is smaller than the first table or a multiple of it |
| PersistentDisks.HalfCovered | cpp/fatfs/enclave/src/persistent_disk.cpp:99-108 | of 1000 sectors 512 are in reach |
| PersistentDisks.InRange | cpp/fatfs/enclave/src/persistent_disk.cpp:133-139 | the first table is indexed in range if and only if the id is below the product of the sizes |
| PersistentDisks.MapInjective | cpp/fatfs/enclave/src/persistent_disk.cpp:133-139 | two sectors never share a host sector |
| PersistentDisks.MapOnto | cpp/fatfs/enclave/src/persistent_disk.cpp:133-139 | every host sector in reach belongs to a sector |
| PersistentDisks.MapInRange | cpp/fatfs/enclave/src/persistent_disk.cpp:133-139 | the mapping stays in reach |
| PersistentDisks.PersistentDisk.DiskRead | cpp/fatfs/enclave/src/persistent_disk.cpp:158-217 | sectors come back as last written; the flush that goes first changes nothing |
| PersistentDisks.PersistentDisk.DiskWrite | cpp/fatfs/enclave/src/persistent_disk.cpp:220-255 | the sectors are stored; on failure a known prefix is, the next is pending at best, the rest is as before |
| PersistentDisks.PersistentDisk.Sync | cpp/fatfs/enclave/src/persistent_disk.cpp:143-155 | a sync leaves the contents as they were |
| PersistentDisks.PersistentDisk.SyncJustOpened | cpp/fatfs/enclave/include/persistent_disk.hpp:44-48 | a sync of a store just opened loses, of the contents from an earlier run, exactly those stored in host sector 0 |
| PersistentDisks.PersistentDisk.ZeroIsSomeones | cpp/fatfs/enclave/src/persistent_disk.cpp:133-139 | some sector is stored there, whatever the tables |
| PersistentDisks.LostAtZero | cpp/fatfs/enclave/src/persistent_disk.cpp:143-255 | that sector is read back in the run that wrote it, and cannot be read after the store was opened again, whether it is synced first or not |
| PersistentDisks.Run | cpp/fatfs/enclave/src/persistent_disk.cpp:143-265 | every run that starts with a write is a run of a map from sector to the last data written |
| PersistentDisks.LastWriteWins | cpp/fatfs/enclave/src/persistent_disk.cpp:143-265 | over a run, the map holds for each sector the data of the latest write to it |
| Utf.ReadsUtf8 | cpp/fatfs/common/src/ff.cpp:749-771 | the standard UTF-8 of a character (section 3 of RFC 3629) is read as its UTF-16 (section 2 of RFC 2781) |
| Utf.WritesUtf8 | cpp/fatfs/common/src/ff.cpp:822-853 | a character is written in standard UTF-8, or not at all if it does not fit |
| Utf.KnownText | cpp/fatfs/common/src/ff.cpp:822-853 | three characters in UTF-8 and UTF-16 |
| Utf.ReadIsScalar | cpp/fatfs/common/src/ff.cpp:749-771 | whatever is read is a Unicode scalar value, and what is written back is its shortest form |
| Utf.StandardOnly | cpp/fatfs/common/src/ff.cpp:749-769 | what is read at a place is the standard encoding of the character if and only if the bytes there are not 0xE0 and one below 0xA0, nor 0xF0 and one below 0x90 |
| Utf.LongerForm | cpp/fatfs/common/src/ff.cpp:769-769 | a three-byte form of U+0080 is read |
| LongNames.PutLfn | cpp/fatfs/common/src/ff.cpp:1928-1953 | the entry is the given part of the name: its 13 units, terminator and fillers, order, mark and checksum; a unit U+FFFF ends it |
| Directories.KnownName | cpp/fatfs/common/src/ff.cpp:1928-1953 | The quick brown.fox, the example of the FAT standard, is stored in its two entries byte for byte |
| LongNames.WrittenIsPart | cpp/fatfs/common/src/ff.cpp:1942-1949 | the part is whole if and only if it holds no U+FFFF, or ends the name without a terminator and holds nothing else after it |
| LongNames.FillerCuts | cpp/fatfs/common/src/ff.cpp:1942-1949 | a character behind U+FFFF is not stored |
| LongNames.PickLfn | cpp/fatfs/common/src/ff.cpp:1890-1919 | an entry is refused if and only if it names a cluster, its units do not fit the buffer or anything but fillers follows its terminator; else its units go to the place its order says and nothing else in the buffer changes |
| LongNames.PartHeld | cpp/fatfs/common/src/ff.cpp:1890-1919 | picked from the last part down, the parts of a name give the name and its terminator |
| NameSegments.ReadSegment | cpp/fatfs/common/src/ff.cpp:2814-2825 | a segment is read as its characters, and rejected only for a malformed or illegal character or too long a name |
| NameSegments.StandardSegment | cpp/fatfs/common/src/ff.cpp:2814-2825 | a segment in standard UTF-8 is read as its characters |
| NameSegments.Strip | cpp/fatfs/common/src/ff.cpp:2846-2852 | exactly the trailing spaces and dots are removed |
| Listing.StandardCharacters | cpp/fatfs/common/src/ff.cpp:2814-2898 | of the characters of ASCII, a short name can have those the FAT standard gives it, a long name six more with space and dot, and eight are rejected |
| NameSegments.LongText | cpp/fatfs/common/src/ff.cpp:2636-2653 | a long name in the buffer is shown in standard UTF-8, and not at all if and only if its units are not those of a text or it is longer than 255 bytes |
| Utf.WrittenIsScalar | cpp/fatfs/common/src/ff.cpp:822-853 | whatever is written is one character, of one unit that is no surrogate or of a pair |
| ShortNames.MakeShort | cpp/fatfs/common/src/ff.cpp:2854-2929 | the two fields are what fits of the name, in capitals and the code page; it is lossy if and only if the name, with what the code page makes of it, is not 8.3 or loses a character; it needs no long form if and only if it is an 8.3 name of ASCII characters, each field of one case, and then the flags are those cases |
| ShortNames.AsciiLoss | cpp/fatfs/common/src/ff.cpp:2854-2929 | an ASCII name is not lossy if and only if it is 8.3 but for its cases |
| ShortNames.LongBody | cpp/fatfs/common/src/ff.cpp:2868-2876 | a name of nine characters before the dot keeps eight, and is lossy |
| ShortNames.NumberedName | cpp/fatfs/common/src/ff.cpp:1965-2012 | the name is the one numbered form: the body cut short for the tail with the attempt number, or from the sixth attempt on the hash of the long name, in hexadecimal; the extension stays |
| ShortNames.HashDivides | cpp/fatfs/common/src/ff.cpp:1980-1991 | the hash is the remainder of the bits of the attempt number and the name after division by the polynomial x^16 + x^12 + x^5 + 1 |
| ShortNames.StreamBits | cpp/fatfs/common/src/ff.cpp:1982-1989 | these bits are those of the number and then of each unit, the lowest first |
| ShortNames.DigitsBack | cpp/fatfs/common/src/ff.cpp:1993-1999 | the hexadecimal digits of a number stand for it, and none leads that is not needed |
| ShortNames.AltText | cpp/fatfs/common/src/ff.cpp:2655-2674 | the text is the bytes of the short name in UTF-8 with the dot put in and the padding left out, and empty if one has no character or it does not fit |
| ShortNames.ShownName | cpp/fatfs/common/src/ff.cpp:2676-2689 | without a long name the short one is shown, each letter of body and extension in the case of its flag, or a question mark if it has no text |
| ShortNames.ShownInCases | cpp/fatfs/common/src/ff.cpp:2655-2689 | so an 8.3 name is shown exactly as it was given |
| Directories.CmpLfn | cpp/fatfs/common/src/ff.cpp:1854-1882 | a part matches if and only if its units up to the terminator are the name's, case aside, the rest are fillers and a last part ends the name |
| Directories.SumSfn | cpp/fatfs/common/src/ff.cpp:2022-2033 | the checksum is the rotating sum of the eleven bytes |
| Directories.SumRotates | cpp/fatfs/common/src/ff.cpp:2022-2033 | with each byte the sum so far is rotated to the right by one bit, and the byte is added in eight bits |
| Directories.KnownSum | cpp/fatfs/common/src/ff.cpp:2022-2033 | the checksum of THEQUI~1.FOX, the example of the FAT standard, is 7 |
| DirTables.Dir.Sdi | cpp/fatfs/common/src/ff.cpp:1666-1705 | reaches an entry if and only if the table has it |
| DirTables.Dir.Next | cpp/fatfs/common/src/ff.cpp:1714-1765 | moves to the next entry across sectors and clusters, or to none at the end; stretching adds a cleared cluster, or reports a full volume |
| DirTables.Dir.Load | cpp/fatfs/common/src/ff.cpp:2391-2392 | the window holds the sector of the entry under the cursor |
| DirTables.Dir.Store | cpp/fatfs/common/src/ff.cpp:2516-2526 | changes one entry and no other, and nothing outside the table |
| DirOps.DirFind | cpp/fatfs/common/src/ff.cpp:2353-2424 | finds what the reference scan of the whole table finds |
| Searches.FindIsFirst | cpp/fatfs/common/src/ff.cpp:2353-2424 | in any directory, well-formed or not, a search finds the first entry before the end mark whose short name is the one asked for, if it may be compared, or before which stand all parts of the long name asked for, in order and with its checksum, and nothing if there is none; and it reports where the long name before that entry begins |
| Searches.OneFirst | cpp/fatfs/common/src/ff.cpp:2353-2424 | which is one finding only |
| DirOps.DirAlloc | cpp/fatfs/common/src/ff.cpp:1775-1806 | reserves the first long enough row of free entries, growing the table with zeros at most; refuses only if there is no such row and the table is fixed, of the greatest length or on a full volume |
| DirOps.ChooseShort | cpp/fatfs/common/src/ff.cpp:2480-2491 | takes the first of 99 numbered forms that no short name of the directory equals; refuses only if all are taken |
| DirOps.DirRegister | cpp/fatfs/common/src/ff.cpp:2434-2531 | the name's entries take the place of the first long enough row of free ones and nothing else changes; refused only if all numbered short forms are taken or there is no room |
| DirOps.DirRemove | cpp/fatfs/common/src/ff.cpp:2540-2575 | exactly the entries of the name are marked deleted |
| DirOps.Unlink | cpp/fatfs/common/src/ff.cpp:2540-2575 | the entries removed are those of the name found; in a well-formed directory they are one whole name, the directory stays well formed, and every search that found another name, or none, finds the same |
| WholeNames.FoundIsWhole | cpp/fatfs/common/src/ff.cpp:2353-2424 | what a search finds in a well-formed directory is one whole name: all parts of its long name, from the first on, and its short name |
| WholeNames.WholeRemoved | cpp/fatfs/common/src/ff.cpp:2540-2575 | without a whole name a directory is still well formed |
| WholeNames.OthersFound | cpp/fatfs/common/src/ff.cpp:2540-2575 | removing a whole name changes nothing for a search that does not find it |
| Directories.RegisteredIsFound | cpp/fatfs/common/src/ff.cpp:2353-2531 | in a well-formed directory a name that was not there is found, once registered, at exactly its own entry |
| Directories.RegisteredIsWellFormed | cpp/fatfs/common/src/ff.cpp:2434-2531 | registering keeps a directory well formed |
| Directories.LiveRestored | cpp/fatfs/common/src/ff.cpp:2540-2575 | after registering and removing a name the entries in use are bytewise those from before |
| Directories.FindRestored | cpp/fatfs/common/src/ff.cpp:2540-2575 | after registering and removing a name every search finds what it found before |
| DirOps.Create | cpp/fatfs/common/src/ff.cpp:3690-3708 | a name created took free entries and is found where it was registered, with the archive bit and the times and no data; every other entry in use is unchanged; the table grew no further than the name needs; an existing name is refused, and else only one whose short forms are all taken or that has no room |
| DirOps.NewEntryBytes | cpp/fatfs/common/src/ff.cpp:3726-3738 | all 32 bytes of a new entry: its name, the archive bit, its cases, the clock, no cluster and no size |
| DirOps.CreateAndUnlink | cpp/fatfs/common/src/ff.cpp:2434-2575 | creating a name and unlinking it, whatever becomes of it, leaves the directory well formed, every entry in use bytewise as it was and no other, and every search finding what it found before |
| Listing.DirRead | cpp/fatfs/common/src/ff.cpp:2275-2342 | in any directory, well-formed or not, the next object from an entry on is read, and none only if there is none before the end mark; it has a long name if and only if the entries right before it are all the parts of one, in order, with its checksum, and then their units are in the buffer |
| Listing.NameRead | cpp/fatfs/common/src/ff.cpp:2275-2342 | for the entries of a registered name that is the case exactly if it has a long form |
| Listing.FileName | cpp/fatfs/common/src/ff.cpp:2586-2707 | the name shown is the long one if there is one that is a text and fits, else the short name in its cases |
| Listing.CreateName | cpp/fatfs/common/src/ff.cpp:2801-2929 | the name of a segment is its characters without trailing spaces and dots; one and two dots are special names; it is rejected if and only if it is no segment for the reasons above or nothing is left |
| NameLists.ListAll | cpp/fatfs/common/src/ff.cpp:4627-4654 | a listing from the first entry on shows every object in use once, in order, each with its own entry and its own name, and nothing else |
| NameLists.TiledRegistered | cpp/fatfs/common/src/ff.cpp:2434-2531 | a name registered is one object more, the others being what they were |
| NameLists.TiledRemoved | cpp/fatfs/common/src/ff.cpp:2540-2575 | a name removed is one object less |
| NameLists.CreateAndList | cpp/fatfs/common/src/ff.cpp:2586-2707 | a name is created from a path segment and the whole directory listed: each name once, the new one as the caller's characters, without trailing spaces and dots, in standard UTF-8; on a drive that does not fail a segment that spells a name is created unless the name is there, its short forms are taken or there is no room |
| NameMatching.PartCompared | cpp/fatfs/common/src/ff.cpp:1854-1882 | comparing a stored part of any name says whether the units of that part, and the end of the name in it, are those asked for but for case |
| NameMatching.AllAgree | cpp/fatfs/common/src/ff.cpp:1854-1882 | all parts of a name compare equal if and only if the two names are equal but for case, whatever the buffer holds behind the name |
| NameMatching.FindsTheMeant | cpp/fatfs/common/src/ff.cpp:2353-2424 | in any well-formed directory a search finds the first object whose long name is the one asked for but for case, or whose short name is, at its own entries, and nothing if there is none |
| NameRuns.AskFor | cpp/fatfs/common/src/ff.cpp:2801-2929 | a path segment that names something gives such a query, which compares the short name if and only if the short form is not lossy |
| NameRuns.Run | cpp/fatfs/common/src/ff.cpp:1775-2575 | every run of adding, removing, looking up and listing names is a run of a list of names: an add is refused as existing if and only if some name is meant, and else if and only if no short form is left or the table at its longest has no row of free entries; else it takes the first row and the first short form; a removal takes out exactly the first name meant |
| NameRuns.FoldedFits | cpp/fatfs/common/src/ff.cpp:2854-2929 | a name equal to an 8.3 name but for case is 8.3 with the same short form |
| NameRuns.NamesStayDistinct | cpp/fatfs/common/src/ff.cpp:2353-2531 | over every run no two names of a directory become equal but for case, and no two short names equal |
| NameRuns.NamesAreStable | cpp/fatfs/common/src/ff.cpp:2434-2575 | over every run a name stays, with its entries as they are, until it is removed |
| NameRuns.AddedIsFound | cpp/fatfs/common/src/ff.cpp:2353-2575 | a name added and not removed since is found at its own entries, whatever else was added and removed, and adding it again is refused |
| NameRuns.FoundWasAdded | cpp/fatfs/common/src/ff.cpp:2353-2575 | in a directory that started empty a name is found only if it was added, but for case, or if it is 8.3 and the short name of one that was |
| Lifecycles.RenewedFinds | cpp/fatfs/common/src/ff.cpp:4117-4134 | writing a file changes nothing for any search of its directory |
| Lifecycles.RenewedIsWellFormed | cpp/fatfs/common/src/ff.cpp:4117-4134 | nor whether the directory is well formed |
| Lifecycles.NotRefused | cpp/fatfs/common/src/ff.cpp:2434-2531 | in the root directory of a volume just formatted no name is refused, however small the clusters |
| Lifecycles.FormatWriteAndList | cpp/fatfs/common/src/ff.cpp:3653-4178 | on every drive of at least 191 sectors: format, mount, create a file by name, any operations on it, close, open, read to the end, find and list; the file has the room of the planned clusters without the root directory's, what is read is what the reference ends with, and the listing is one name, the caller's, with the size of the file |
| HandleTables.FileManager.GetNewHandle | cpp/fatfs/common/src/fatfs_file_manager.cpp:410-437 | the handle is the next one not in use after the last given out, around the range; -1 if and only if all are in use |
| HandleTables.FileManager.Open | cpp/fatfs/common/src/fatfs_file_manager.cpp:440-498 | the four maps stay consistent and gain exactly the new handle's entries, no lookup misses, and opening fails for want of handles if and only if all are in use |
| HandleTables.FileManager.Close | cpp/fatfs/common/src/fatfs_file_manager.cpp:868-893 | exactly the handle is removed; the path entry goes with it; no lookup misses |
| HandleTables.OpenKeepsFound | cpp/fatfs/common/src/fatfs_file_manager.cpp:440-448 | opening keeps every open file known by its path |
| HandleTables.CloseKeepsFound | cpp/fatfs/common/src/fatfs_file_manager.cpp:199-212 | closing keeps every open file known by its path if and only if no other handle has the same path |
| HandleTables.OpenTwiceCloseOnce | cpp/fatfs/common/src/fatfs_file_manager.cpp:207-207 | a path opened twice and closed once is not known although it is open |
| ThreadStart.StepInv | cpp/jvm-enclave-common/src/enclave_thread.cpp:95-161 | every step of every thread keeps the invariant: enough tasks queued, each task in one place, the counter exact, promises one-shot |
| ThreadStart.EnoughKept | cpp/jvm-enclave-common/src/enclave_thread.cpp:108-119 | as many tasks are queued as there are host threads to attach, requests to make and failed starts, so taking a task never finds the queue empty |
| ThreadStart.LeftBehind | cpp/jvm-enclave-common/src/enclave_thread.cpp:95-119 | with no host thread to come, the tasks that stay queued are the last ones created, as many as starts failed; a task whose start did not fail is among them if and only if a start failed that is not among the last |
| ThreadStart.WrongTaskStarts | cpp/jvm-enclave-common/src/enclave_thread.cpp:95-119 | a run in which a task whose start succeeded is left in the queue |
| ThreadStart.RunIsSafe | cpp/jvm-enclave-common/src/enclave_thread.cpp:95-161 | over every interleaving an attaching thread finds a task, the counter never underflows, shutdown returns with no live checkpoint, no task runs twice and no promise is fulfilled twice |
| ThreadStart.WaiterIsServed | cpp/jvm-host/src/host_start_thread.cpp:14-44 | a creator that waits has a host thread that can take its next step towards answering it |
| ThreadStart.OneShotKept | cpp/jvm-host/src/ecall_context.cpp:37-42 | a start promise is held until it is fulfilled, and then let go |
| ThreadStart.StateForGood | cpp/jvm-enclave-common/src/enclave_thread.cpp:38-61 | once a task is finished and its creator went on, by an answer or a failed request, it is completed for good if and only if the creator went on before or was told of a failure |
| ThreadStart.CompletionLost | cpp/jvm-enclave-common/src/enclave_thread.cpp:95-106 | a run in which a finished task ends as started |
| Rollback.Client.ProcessMail | conclave-client/src/main/kotlin/com/r3/conclave/client/EnclaveClient.kt:464-505 | throws if and only if a new state does not follow the one last seen, and takes the state up in any case |
| Rollback.Client.ProcessAll | conclave-client/src/main/kotlin/com/r3/conclave/client/EnclaveClient.kt:464-505 | the same over a whole history, going on after exceptions |
| Rollback.QuietIsLinked | conclave-client/src/main/kotlin/com/r3/conclave/client/EnclaveClient.kt:464-505 | no exception is thrown if and only if the states, repeats collapsed, follow the enclave's links from the state first remembered |
| Rollback.RollbackIsDetected | conclave-client/src/main/kotlin/com/r3/conclave/client/EnclaveClient.kt:464-505 | whatever mails of the enclave, restarted from old states as it may be, the host delivers in whatever order, the client throws exactly at those that go back, change to another branch or leave a state out |
| Rollback.QuietDescends | conclave-client/src/main/kotlin/com/r3/conclave/client/EnclaveClient.kt:464-505 | as long as the client does not throw, each state it sees descends from those it saw before |
| Rollback.ConstraintRoundTrip | conclave-common/src/main/kotlin/com/r3/conclave/common/EnclaveConstraint.kt:195-285 | a printed constraint is read back as itself if and only if its criteria are valid |
| Rollback.ParseMeans | conclave-common/src/main/kotlin/com/r3/conclave/common/EnclaveConstraint.kt:84-285 | any words are refused if and only if a key that may stand once stands twice, or they name a signer without a product, a product without a signer, or neither signer nor code hash; else the constraint is what they say in whatever order, and its level stale machines if they name none |
| Rollback.SaveThenRestore | conclave-client/src/main/kotlin/com/r3/conclave/client/EnclaveClient.kt:425-448 | a saved client is restored without loss if and only if its constraint is valid |
| Rollback.EmptyConstraint | conclave-client/src/main/kotlin/com/r3/conclave/client/EnclaveClient.kt:425-448 | a client without a code hash or signer is saved and cannot be restored |
| Rollback.QuietAcrossRestore | conclave-client/src/main/kotlin/com/r3/conclave/client/EnclaveClient.kt:159-185 | a client saved and restored between two mails detects rollbacks as if it had never stopped |
| MemoryRegions.NearestDecides | cpp/jvm-enclave-common/src/memory_manager.cpp:153-162 | looking at the nearest region agrees with searching all regions for the range |
| MemoryRegions.TestIsRight | cpp/jvm-enclave-common/src/memory_manager.cpp:129-131 | the bounds test is right if and only if the range does not wrap around the address space into reach |
| MemoryRegions.WrappedRange | cpp/jvm-enclave-common/src/memory_manager.cpp:129-169 | a range that wraps and is accepted, and a request that is rounded to nothing |
| MemoryRegions.RoundedHolds | cpp/jvm-enclave-common/src/memory_manager.cpp:168-169 | requests are rounded up to pages, but the largest ones to nothing |
| MemoryRegions.MemoryManager.Lookup | cpp/jvm-enclave-common/src/memory_manager.cpp:153-162 | finds the last region that starts at or before the address |
| MemoryRegions.MemoryManager.Check | cpp/jvm-enclave-common/src/memory_manager.cpp:119-163 | accepts a range if and only if some region holds it or, for one that wraps around the address space, if and only if it wraps into the nearest region |
| MemoryRegions.MemoryManager.Alloc | cpp/jvm-enclave-common/src/memory_manager.cpp:164-188 | adds one fully committed region and keeps the index ordered and disjoint |
| MemoryRegions.MemoryManager.Free | cpp/jvm-enclave-common/src/memory_manager.cpp:203-265 | takes the bytes off if and only if a region, or for a range that wraps or is empty the nearest one, is found to hold it with that many committed, and notes the range freed; each region's initial size stays its committed bytes plus all freed ones; a region is erased exactly when none are left |
| MemoryRegions.ErasedWhenFreed | cpp/jvm-enclave-common/src/memory_manager.cpp:228-262 | when a region is erased, all of it was freed if and only if the ranges freed in it did not overlap and lay in it |
| MemoryRegions.FreedTwice | cpp/jvm-enclave-common/src/memory_manager.cpp:228-262 | a region of two pages of which the first is freed twice is erased, though the second is in use |

## Left out

- exFAT, GPT, fast seek, file locks, re-entrancy, trimming, code pages other than 437: compiled out by the configuration.
- Walking a path through sub-directories, and making, renaming, stating and re-dating objects: the operations on one
  directory and one segment are modelled, not their composition into paths.
- Opening modes that create over an existing file, and the read-only attribute: a file is opened on an entry that is there.
- The mount identity check of every API call, and mounting the same drive again while files are open.
- Operations on a file after an error: the model says that they report the error again, not what the volume then holds.
- FileRuns.Run: is stated for a drive that does not fail; for a failing drive each operation's own contract says what a
  success means and that an error is remembered.
- Volumes.Volume.ClearCluster: says nothing about a volume after a failed write, because the window then differs from the disk.
- Several files open at once: for each open file the rest of the volume is frozen.
- Time stamps: the clock of the enclave is a constant.
- Durability: a drive asked to settle may refuse, which is reported; what it loses otherwise is not modelled.
- The cylinder, head and sector bytes of the boot record may be anything.
- Mounting.FindVolume: says nothing of a boot record with an entry that names sector 0xFFFFFFFF, the engine's mark of an
  invalid window, before the partition that holds the volume.
- Lifecycles.FormatWriteAndList: is stated for one file in the root directory; names with U+FFFF are left aside as below.
- Upper-casing and the code page are parameters: any functions, with ASCII kept by the code page's decoder and no character
  encoded as a dot.
- NameRuns.Run: is stated for a drive that does not fail, and for one directory on a volume whose other files stay as they
  are.
- NameRuns.NamesStayDistinct: is stated for a case table that upper-cases ASCII as usual and takes nothing else into it.
- Unlinking a file: removing its name and releasing its chain are proved each on its own (`DirOps.Unlink`,
  `Volumes.Volume.RemoveChain`), and not that the engine then does one after the other.
- NameLists.CreateAndList: leaves names with U+FFFF aside, because that is the filler of long names, and texts of more than
  255 bytes, which are shown by their short name.
- AES-GCM, SHA-256 and the seeded random engine: sealing is a constructor that only the same sector id opens, a shuffle any
  sequence of swaps, and encryption itself does not fail.
- The engine does not run on the sector store in this model: it has an ideal drive, so the reach of the store's tables is
  not carried into it. `inmemory_disk.cpp` and drive registration are not part of this model.
- dup2, directory handles and the null-pointer branch of close in the file manager; fopen and fclose are open and close with
  the file object as the result.
- ThreadStart.RunIsSafe: is about safety; that a waiting thread is eventually scheduled and notified is not modelled, nor is the
  stack of contexts beyond the one that holds the promise.
- The client's mail encryption, post offices, retries and transport; the constraint is read from words, not from characters.
- MemoryRegions.MemoryManager.Alloc: where the allocator puts memory is a parameter, apart from every region as memalign promises.
