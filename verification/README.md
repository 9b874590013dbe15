# Verified model of the Vector-06C firmware's file engine and library routines

The project models two parts of the firmware in Dafny and proves what they promise.

**The FAT engine and the virtual floppy.** `tff.c` keeps one sector of the disk in a window, `fddimage.c` puts a
floppy on top of a file. The model follows the layers of the code, and each layer is proved to refine a simpler
thing:

| file | layer | refines |
|---|---|---|
| `Volume.dfy` | the window with write-back and FAT mirroring, packed link entries | a flat array of sectors, and a map from cluster to link |
| `ChainOps.dfy`, `Allocation.dfy` | allocation and removal of cluster chains, free counter | disjoint sequences of clusters |
| `Transfer.dfy`, `Reading.dfy`, `Seeking.dfy`, `FlatFile.dfy`, `Stale.dfy` | file cursors for reading, in-place writing and seeking | a flat byte sequence |
| `Append.dfy`, `Overrun.dfy`, `Sync.dfy`, `Appending.dfy`, `EndToEnd.dfy` | growing files, writing their directory entries, and reading them back | concatenation |
| `Directory.dfy`, `Names.dfy` | directory walk, path lookup, 8.3 names | lists of 32-byte slots |
| `Floppy.dfy` | track, side and sector addresses | an array of 1024-byte blocks |

`Layout.dfy`, `PackedFat.dfy`, `Chains.dfy`, `FileLayout.dfy` and `Files.dfy` hold the definitions these share, and
`FailingCalls.dfy` holds concrete calls of the engine that do not do what their functions promise.
Where method and specification share a function or a constant, lemmas state apart from it what it means on the disk:
which bits of the FAT a link is, in which order an image holds its sectors, which bytes an entry has.
`Volume.Image()` is the central notion: the content the disk has once the window is written back, FAT copies
included. `Volume.Links()` is the map of links in that content. Every operation is specified by these two.

**Library routines.** `QuickSort.dfy`, `BSearch.dfy` and `Calendar.dfy` model `qsort`, `bsearch`, `mktime` and
`localtime` with the 16-bit integers of the compiler (`ShortInts.dfy`).

## Assumptions

- A disk is a sequence of sectors of 512 bytes. A transfer fails exactly when it addresses a sector that does not
  exist; there are no other medium errors. Time stamps are parameters.
- Mounting has produced a consistent layout: the areas follow each other, the FAT has room for all links, and the
  FAT copies agree (`Geometry.Valid`, `Volume.Valid`).
- The build options are `_FAT32=0`, `_USE_SJIS=0`, `_USE_NTFLAG=0`, `_USE_FSINFO=0`. Reading, seeking and the
  floppy follow the read-only build; window write-back, allocation and appending follow the branches for
  `_FS_READONLY=0`.
- Bit operations on bytes and words are stated as quotients and remainders; the masks of the directory walk are
  related to them by a lemma.

## Where the code falls short, and exactly when

- `f_write` on a full volume leaves the sector counter at 0. The cursor is usable after a write if and only if all
  bytes found room (`Append.Write`; one byte to a new file is enough, `FailingCalls.WriteWhenFull`). Otherwise the
  next write goes on in the sectors behind the current one and counts all its bytes into the file
  (`Overrun.WriteStuck`). The first of these sectors is the file's own, another chain's, behind the data area, or, for
  an empty file, undefined (`Overrun.HitExactly`).
- `f_write_inplace` copies from the window into the caller's buffer for a partial sector. It is a write if and only
  if position and length are multiples of 512 (`Reading.InPlaceExact`).
- `f_lseek` does not validate the start cluster before it computes a sector from it. With a start cluster that is
  neither 0 nor valid a non-trivial seek that succeeds leaves a meaningless cursor (`Seeking.LSeek`,
  `FailingCalls.SeekFromOne`).
- Whole sectors bypass the window. A direct read sees the content if and only if no dirty window holds other bytes
  for one of its sectors (`Volume.DirectReadExact`). After a direct write a clean window is up to date if and only if
  it is outside the run or holds the written bytes already (`Volume.WriteThrough`, and for the whole of
  `f_write_inplace` `Reading.WriteInPlace`). After
  `f_write_inplace` has overwritten a sector, seeking back and reading n bytes of it returns the old bytes if and only
  if the window showed the sector, it lies in the first cluster of the file, and n < 512 (`Stale.WriteThenRead`).
  The floppy only moves whole sectors, apart from the sector in which its image ends, and is right under every window
  that is up to date on that one (`Floppy.FddImage.RunSectors`).
- `remove_chain` raises the free counter by one too much if and only if the clusters met from its start end with a
  free one or repeat (`Allocation.RunsIntoFreeExactly`).
- `create_chain` gives up if and only if an entry 1 stands in its scan before any free cluster
  (`Chains.PickGivesUpExactly`), although clusters behind it may be free (`Chains.HiddenByOne`). No state reached by
  allocation and removal has such an entry.
- `f_getfree` on FAT16 counts the reserved entries 0 and 1 too. Its result is right if and only if both are
  non-zero (`ChainOps.GetFree`, `FailingCalls.CountOfZeros`).
- `fdd_load` computes `(blocks / 2) * 5` tracks, cut to a byte, and `fdd_seek` only notes an error. When its check
  raises false alarms (`Floppy.NoFalseAlarmExactly`) and which missing addresses it lets pass
  (`Floppy.MissedExactly`) is stated exactly, and so is what these addresses stand for (`Floppy.MissedAliases`).
- `make_dirfile` accepts characters above 127 as they are, although the
  comment at `tff.h:45-47` admits only 7-bit names without S-JIS. The round trip holds for these too.
- `qsort` keeps byte offsets in ints. It sorts all arrays of n blocks if and only if n <= 1 or n * size <= 32767
  (`QuickSort.SortsExactly`). When the last offset does not fit, nothing is sorted; when only the end of the array is
  beyond the limit, equal elements make the scan wrap and compare below the array.
- `bsearch` adds two ints for its midpoint. It is right for all sorted arrays of n elements if and only if
  n <= 16384 (`BSearch.WorksExactly`).
- `mktime` divides with truncation, so negative seconds that are no multiple of 60 survive, a day 0 survives, and
  it counts every fourth year as a leap year. Its result is the instant if and only if the carried seconds are not
  negative, the instant is not before 1970 and the carried date is before 2101 (`Calendar.MkTime`,
  `Calendar.MkTimeLate`). A carried minute below -32768 wraps, and the fields then name an instant 65536 minutes later
  (`Calendar.CarryKeepsInstant`).

## Model

| member | source | states |
|---|---|---|
| FatVolume.Volume.constructor | u8_vector/firmware/floppysrc/tff.c:700-737 | a mounted volume is valid: nothing cached, the logical image is the disk, the free count unknown |
| FatVolume.Volume.FatInWindow | u8_vector/firmware/floppysrc/tff.c:140-173 | a clean window on a FAT sector is up to date even when whole-sector transfers have passed it by |
| FatVolume.Volume.DirectReadExact | u8_vector/firmware/floppysrc/tff.c:949-951 | a direct read sees the logical content if and only if no dirty window holds other bytes for one of the sectors |
| FatVolume.Volume.DiskRead | u8_vector/firmware/floppysrc/tff.c:950-951 | reading sectors copies exactly the addressed sectors and fails exactly when they do not exist |
| FatVolume.Volume.DiskWrite | u8_vector/firmware/floppysrc/tff.c:947-948 | writing sectors replaces exactly the addressed sectors and fails exactly when they do not exist |
| FatVolume.Volume.WriteCopies | u8_vector/firmware/floppysrc/tff.c:80-85 | the mirroring loop stores the window in its home sector and in the corresponding sector of every FAT copy, nowhere else |
| FatVolume.Volume.WriteBack | u8_vector/firmware/floppysrc/tff.c:76-86 | writing the window back makes the disk equal to the logical image, mirrors included, and cannot fail |
| FatVolume.Volume.MoveWindow | u8_vector/firmware/floppysrc/tff.c:63-95 | the logical image (disk as it would be with the window written back) never changes; a non-zero existing target ends up in the window with its logical content; target 0 only flushes; it fails exactly for a sector that does not exist; an unchanged target is no operation |
| FatVolume.Volume.ImageMirrored | u8_vector/firmware/floppysrc/tff.c:63-95 | at every moment all FAT copies of the logical image equal the primary FAT, hence those of the disk whenever the window is clean |
| Layout.StoreKeepsMirrors | u8_vector/firmware/floppysrc/tff.c:80-85 | storing one sector with its mirrors keeps all FAT copies equal and changes no other sector outside the FATs |
| Layout.HomeFacts | u8_vector/firmware/floppysrc/tff.c:80-85 | every sector of a FAT copy has one home in the primary FAT, every other sector is its own home |
| Layout.HomeOffset | u8_vector/firmware/floppysrc/tff.c:80-85 | a sector of any FAT copy mirrors the sector at the same place in the primary FAT |
| PackedFat.PackedLink | u8_vector/firmware/floppysrc/tff.c:183-224 | the two bytes that put_cluster forms decode to the value modulo 2^12 or 2^16 |
| PackedFat.PackThenLinkAt | u8_vector/firmware/floppysrc/tff.c:183-224 | storing a link in the FAT bytes makes that link the value modulo the link width and leaves every other link as it was, also a neighbour in the shared byte |
| PackedFat.SharedByteKept | u8_vector/firmware/floppysrc/tff.c:183-224 | the half byte of the neighbouring FAT12 link survives |
| PackedFat.PairLayout | u8_vector/firmware/floppysrc/tff.c:158-168 | two 12-bit links fill three bytes, lowest bits first: the even link plus 4096 times the odd one is the little-endian number of the three bytes |
| PackedFat.WordLayout | u8_vector/firmware/floppysrc/tff.c:161-170 | a 16-bit link is a little-endian word |
| Layout.StoreLinkMeaning | u8_vector/firmware/floppysrc/tff.c:183-224 | on disk images: the map from clusters to links is updated at one cluster, sectors outside the FATs stay, FAT copies stay equal |
| Layout.PairsOnDisk | u8_vector/firmware/floppysrc/tff.c:158-168 | the same for the link map and the bytes of the disk, also when a sector ends inside the pair |
| Layout.SingleOnDisk | u8_vector/firmware/floppysrc/tff.c:158-168 | an even last link takes one byte and the low half of the next |
| Layout.WordsOnDisk | u8_vector/firmware/floppysrc/tff.c:161-170 | link c of a FAT16 volume is the word at byte 2c of the FAT |
| FatVolume.Volume.GetCluster12 | u8_vector/firmware/floppysrc/tff.c:140-173 | a FAT12 entry is decoded from the logical image, also when its two bytes lie in different sectors |
| FatVolume.Volume.GetCluster16 | u8_vector/firmware/floppysrc/tff.c:140-173 | a FAT16 entry is decoded from the logical image |
| FatVolume.Volume.GetCluster | u8_vector/firmware/floppysrc/tff.c:140-173 | the result is the link of the cluster in the logical image, or 1 for a number that is no cluster; the image does not change |
| FatVolume.Volume.PutCluster12 | u8_vector/firmware/floppysrc/tff.c:183-224 | the image takes exactly the packed FAT12 entry, through one or two sectors of the window |
| FatVolume.Volume.PutCluster16 | u8_vector/firmware/floppysrc/tff.c:183-224 | the image takes exactly the packed FAT16 entry |
| FatVolume.Volume.PutCluster | u8_vector/firmware/floppysrc/tff.c:183-224 | the link map is updated at the cluster with the value modulo 2^12 or 2^16, nothing outside the FATs changes, all copies stay equal |
| FatVolume.Volume.WriteThrough | u8_vector/firmware/floppysrc/tff.c:1051-1052 | a direct transfer changes exactly the addressed sectors of the image except one that a dirty window shadows, and no link; a clean window stays up to date if and only if it is outside the run or already holds the written bytes |
| FatVolume.Volume.PutBytes | u8_vector/firmware/floppysrc/tff.c:1065-1068 | bytes put into the window change that sector of the image at that offset and nothing else, in particular no link |
| Layout.ClusterRange | u8_vector/firmware/floppysrc/tff.c:324-335 | the sectors of a cluster lie in the data area |
| Layout.ClustersDisjoint | u8_vector/firmware/floppysrc/tff.c:324-335 | different clusters share no sector |
| Layout.ClusterOrder | u8_vector/firmware/floppysrc/tff.c:324-335 | the data area holds the clusters from 2 on one after the other: cluster c begins (c - 2) clusters behind its start |
| Chains.ChainDistinct | u8_vector/firmware/floppysrc/tff.c:235-257 | a chain that ends visits no cluster twice |
| Chains.FollowChain | u8_vector/firmware/floppysrc/tff.c:934-938 | following the links from the start of a chain yields the chain |
| Chains.FollowWhole | u8_vector/firmware/floppysrc/tff.c:1087-1117 | following a complete chain at least as long as it is yields the whole chain |
| Chains.FreeCountUpdate | u8_vector/firmware/floppysrc/tff.c:268-314 | how one link update changes the number of free clusters |
| Chains.FreeAreZeros | u8_vector/firmware/floppysrc/tff.c:1370-1376 | the number of free clusters is that of the zero links from 2 on |
| Chains.PickMeaning | u8_vector/firmware/floppysrc/tff.c:289-300 | the scan stops at the first free entry or the first entry 1 of its order, and finds nothing exactly when there is neither |
| Chains.PickComplete | u8_vector/firmware/floppysrc/tff.c:289-300 | on a FAT without an entry 1 the scan reports a full volume exactly when no cluster is free, and otherwise finds a free cluster |
| Chains.PickGivesUpExactly | u8_vector/firmware/floppysrc/tff.c:289-300 | for every table the scan gives up with 1 if and only if an entry 1 stands in its order before any free cluster |
| Chains.HiddenByOne | u8_vector/firmware/floppysrc/tff.c:289-300 | the input: an entry 1 in cluster 2 makes the scan give up although cluster 3 is free |
| Allocation.UnlinkCounts | u8_vector/firmware/floppysrc/tff.c:244-255 | the number of entries counted as freed is the growth of the free count, plus one exactly when the walk runs into a free entry |
| Allocation.RunsIntoFreeExactly | u8_vector/firmware/floppysrc/tff.c:244-255 | read off the table before the call, the count is one too high if and only if the clusters met from the start end with a free one or repeat |
| Allocation.CycleOvercounted | u8_vector/firmware/floppysrc/tff.c:244-255 | the input 2 to 3 to 2: two clusters freed, three counted |
| Allocation.UnlinkChain | u8_vector/firmware/floppysrc/tff.c:235-257 | on a well-formed chain removal zeroes exactly the clusters of the chain, counts each once, and succeeds |
| Allocation.UnlinkExactly | u8_vector/firmware/floppysrc/tff.c:235-257 | on every table exactly the clusters met from the start become free, except one with an entry 1, and removal fails if and only if there is such a one |
| Allocation.CreateFinds | u8_vector/firmware/floppysrc/tff.c:268-314 | in a sound state create_chain returns 0 exactly when no cluster is free; otherwise it takes a free cluster, end-marks it, links it, and adjusts last_clust and free_clust |
| Allocation.CreateFollows | u8_vector/firmware/floppysrc/tff.c:282-287 | a cluster that has a successor on its chain keeps it: the answer is the successor, and nothing changes |
| Allocation.CreateRefuses | u8_vector/firmware/floppysrc/tff.c:282-287 | a number that is no cluster, a free cluster and an entry 1 give 1, and nothing changes |
| Allocation.CreateTakes | u8_vector/firmware/floppysrc/tff.c:268-314 | the allocated cluster is free, end-marked, linked to its predecessor, and the nearest in cyclic order: every cluster between it and the stretched one, for a new chain the one allocated last, is in use; a known counter falls by one; without a cluster nothing changes |
| Allocation.NewChainKeeps | u8_vector/firmware/floppysrc/tff.c:268-314 | a new chain of one free cluster keeps the chains complete, disjoint, and covering all occupied clusters |
| Allocation.StretchKeeps | u8_vector/firmware/floppysrc/tff.c:268-314 | stretching one chain by a free cluster keeps all chains complete, disjoint, and covering |
| Allocation.RemoveKeeps | u8_vector/firmware/floppysrc/tff.c:235-257 | removing one chain leaves the others complete, disjoint, and covering |
| Allocation.ChainFreed | u8_vector/firmware/floppysrc/tff.c:244-255 | a removed chain adds exactly its length to the free clusters |
| Allocation.AllocatedCount | u8_vector/firmware/floppysrc/tff.c:302-311 | an allocation takes exactly one free cluster |
| Allocation.Conservation | u8_vector/firmware/floppysrc/tff.c:302-311 | free clusters plus the lengths of all chains are all clusters of the volume |
| Allocation.StepKeeps | u8_vector/firmware/floppysrc/tff.c:235-314 | each allocation or removal keeps the state sound: chains partition the occupied clusters and free_clust is unknown or exact |
| Allocation.RunConserves | u8_vector/firmware/floppysrc/tff.c:235-314 | after any run of allocations and removals the chains partition the occupied clusters, and a free_clust that was known is the exact number of free clusters |
| Allocation.RunKnows | u8_vector/firmware/floppysrc/tff.c:235-314 | over any run a known free counter stays known and an unknown one unknown |
| ChainOps.RemoveChain | u8_vector/firmware/floppysrc/tff.c:235-257 | the operation on the volume computes exactly the removal function, adds the count to a known free_clust, changes nothing but the FATs, and terminates on every FAT |
| ChainOps.FindFree | u8_vector/firmware/floppysrc/tff.c:289-300 | the loop finds the first free or bad entry in cyclic order after its start |
| ChainOps.CreateChain | u8_vector/firmware/floppysrc/tff.c:268-314 | the operation on the volume computes exactly the allocation function on links, last_clust and free_clust and changes nothing but the FATs; at a cluster that is not the last of its chain the result is its successor and nothing changes; a new cluster gets the link 0xFFF or 0xFFFF |
| ChainOps.RunAllocator | u8_vector/firmware/floppysrc/tff.c:235-314 | any run of create_chain and remove_chain on a volume, through the one window, computes the run on the link map: no cluster is lost or owned twice, a known free count is exact, nothing outside the FATs changes |
| ChainOps.CountByCluster | u8_vector/firmware/floppysrc/tff.c:1372-1376 | the scan by clusters counts the zero entries from 2 to max_clust |
| ChainOps.CountBySector | u8_vector/firmware/floppysrc/tff.c:1377-1394 | the FAT16 scan by sectors, with its byte counter wrapping at 256, counts the zero entries from 0 to max_clust |
| ChainOps.GetFree | u8_vector/firmware/floppysrc/tff.c:1345-1402 | a known free count is returned; otherwise the FAT12 scan is exact, and the FAT16 scan is exact if and only if the reserved entries 0 and 1 are non-zero |
| Chains.ZerosAndFree | u8_vector/firmware/floppysrc/tff.c:1377-1394 | the two counts differ by the zero entries among the two reserved ones |
| FailingCalls.CountOfZeros | u8_vector/firmware/floppysrc/tff.c:1345-1402 | the input: f_getfree on a FAT16 volume with zero reserved entries returns a wrong number |
| FileLayout.FileSectInData | u8_vector/firmware/floppysrc/tff.c:930-942 | every sector of a file lies in the data area and is its own home |
| FileLayout.FileSectInjective | u8_vector/firmware/floppysrc/tff.c:930-942 | on a chain without repetition different sector numbers of a file are different sectors |
| FileLayout.FileSectRun | u8_vector/firmware/floppysrc/tff.c:943-956 | inside a cluster the sectors of a file are contiguous |
| FileLayout.FileSectIs | u8_vector/firmware/floppysrc/tff.c:930-942 | sector k of a file is sector k % n of the cluster k / n of its chain, for n sectors per cluster |
| Files.NextSector | u8_vector/firmware/floppysrc/tff.c:930-942 | the step over a sector boundary succeeds exactly when the chain has that sector, and then the cursor names it; the window moves to the FAT exactly at a cluster boundary behind the first cluster |
| Transfer.WholeSectors | u8_vector/firmware/floppysrc/tff.c:943-956 | a direct transfer moves exactly the contiguous sectors of the file at the cursor, which stays at its last sector |
| Files.File.constructor | u8_vector/firmware/floppysrc/tff.c:884-893 | an opened file stands at its start, and the cursor invariant holds on every valid volume |
| Transfer.ReadOrWrite | u8_vector/firmware/floppysrc/tff.c:904-970 | for every fragmentation, size, position and clean window: transfers min(request, bytes left in file and chain), reports an error exactly when the chain ends early, keeps the cursor invariant, and says which bytes pass through a window that may be stale |
| Reading.Read | u8_vector/firmware/floppysrc/tff.c:988-996 | the buffer receives exactly the slice of the file content at fptr, under a stale window too, except for a piece of a sector that the window stands for already when it is reached (`Transfer.Piece`), which comes as the window shows it; the rest of the buffer and the volume stay, fptr advances by the count, and the error cases are exact |
| Reading.WriteInPlace | u8_vector/firmware/floppysrc/tff.c:978-986 | for every clean window, the content and the buffer after the call are the in-place functions of those before; no sector outside the chain changes; errors are exact; an up-to-date window stays so if and only if it is not on a sector whose bytes change |
| Reading.InPlaceExact | u8_vector/firmware/floppysrc/tff.c:959-962 | in-place writing overwrites the requested range and keeps the buffer if and only if position and length are multiples of 512; otherwise bytes flow from the disk into the caller's buffer |
| Reading.InPlaceSectors | u8_vector/firmware/floppysrc/tff.c:943-962 | byte by byte: a requested byte is written if its whole sector of 512 bytes is requested, otherwise it is read; all others stay |
| Seeking.SkipClusters | u8_vector/firmware/floppysrc/tff.c:1188-1205 | the walk over whole clusters ends at the cluster of the target, or where the chain ends |
| Seeking.LSeek | u8_vector/firmware/floppysrc/tff.c:1154-1224 | f_lseek succeeds exactly when the target is reachable or the chain is cut by a 0 link; fptr is the smaller of target and reachable bytes and the cursor invariant holds, unless the start cluster is neither 0 nor valid, in which case it never does; the window moves to the FAT exactly if the target is beyond the first cluster |
| FailingCalls.SeekFromOne | u8_vector/firmware/floppysrc/tff.c:1154-1224 | the input: f_lseek to offset 1 of a file that starts at cluster 1 succeeds and leaves a cursor that stands for no sector of the file |
| FlatFile.RunRequests | u8_vector/firmware/floppysrc/tff.c:904-1224 | every run of reads and seeks returns what the same run on a plain byte sequence returns, ends at the same position, and changes nothing on the volume |
| FlatFile.CursorDetermined | u8_vector/firmware/floppysrc/tff.c:928-1209 | the cursor is a function of the position: seeking and reading to the same offset leave the same sector counter, cluster and sector |
| FlatFile.SeekMatchesRun | u8_vector/firmware/floppysrc/tff.c:904-1224 | of two open objects of a file one is moved by any run of reads and seeks, the other by a single seek to the same place: position, sector counter, cluster and sector are the same |
| Stale.WriteThenRead | u8_vector/firmware/floppysrc/tff.c:943-962 | after f_write_inplace of a sector, a seek to any offset in it and a read of any n of its bytes return the old bytes if and only if the window showed the sector, it lies in the first cluster of the file, and n < 512; the disk has the new ones |
| Floppy.NoFalseAlarmExactly | u8_vector/firmware/floppysrc/fddimage.c:51-67 | the check of fdd_seek flags no existing address if and only if the last track is not above the computed limit |
| Floppy.MissedExactly | u8_vector/firmware/floppysrc/fddimage.c:62-70 | per address: the check of fdd_seek lets it pass although it does not exist if and only if the track is within the limit and the sector is 0, the side is 2, or the block is beyond the image |
| Floppy.MissedAliases | u8_vector/firmware/floppysrc/fddimage.c:65-83 | what those addresses stand for: sector 0 the last sector of the side before, side 2 the other side of the track before |
| Floppy.SlotFacts | u8_vector/firmware/floppysrc/fddimage.c:76-83 | the 32-bit offset of any address is 1024 times a block number, which for an existing address is its own block |
| Floppy.FddImage.CalcOffset | u8_vector/firmware/floppysrc/fddimage.c:76-83 | for every address the eight-bit parameters can express, the result is the wrapped 1024 times the block number |
| Floppy.BlockInjective | u8_vector/firmware/floppysrc/fddimage.c:76-83 | different existing track, side and sector addresses name different blocks |
| Floppy.BlocksInOrder | u8_vector/firmware/floppysrc/fddimage.c:76-83 | the order of an image: it begins with side 1 of track 0, sectors 1 to 5 of a side follow each other, then come side 0 and the next track |
| Floppy.BlockCounts | u8_vector/firmware/floppysrc/fddimage.c:76-83 | the block of an address is the number of addresses before it in that order |
| Floppy.LimitOfTracks | u8_vector/firmware/floppysrc/fddimage.c:51-67 | for an image of t whole tracks the limit is 25 t, cut to a byte |
| Floppy.BlockWritten | u8_vector/firmware/floppysrc/fddimage.c:103-113 | overwriting the 1024 bytes of a block is one update of the block array |
| Floppy.LoadIs | u8_vector/firmware/floppysrc/fddimage.c:85-101 | the slice of the image at a block, of at most 1024 bytes, is the block of the array, or what the image has of it |
| Floppy.SaveIs | u8_vector/firmware/floppysrc/fddimage.c:103-113 | the in-place functions of a byte sequence, at a block, are one update of the block array, or of the whole sectors behind it |
| Floppy.FddImage.ReadSector | u8_vector/firmware/floppysrc/fddimage.c:85-101 | for every address, existing or not, and an image of any size: the buffer becomes the block it stands for, or stays when that is beyond the image; of a block that the end of the image cuts in two the front of the buffer becomes the bytes there are; image and volume stay; the window may be stale; for an existing address the buffer is the image from 1024 times the number of addresses before it on |
| Floppy.FddImage.WriteSector | u8_vector/firmware/floppysrc/fddimage.c:103-113 | for every address and an image of any size: the block it stands for becomes the buffer, every other block stays, no FAT, directory or foreign sector changes; beyond the image nothing changes; of a block cut in two only whole sectors of 512 bytes are written, and the rest of it goes into the buffer; for an existing address the image changes from 1024 times the number of addresses before it on |
| Floppy.FddImage.RunSectors | u8_vector/firmware/floppysrc/fddimage.c:62-113 | every run of sector reads and writes with any addresses returns what the same run on an array of blocks, the bytes behind them and a buffer returns, for every image size, cluster size, fragmentation and window, and touches nothing outside the image file |
| Floppy.ReadBack | u8_vector/firmware/floppysrc/fddimage.c:85-113 | on that array: a written sector reads back as written, every other existing sector as before |
| Append.NextToWrite | u8_vector/firmware/floppysrc/tff.c:1030-1047 | at a sector boundary the write cursor moves to the next sector of the file, allocating a cluster when the chain is used up, or the volume is full |
| Append.CreateForFile | u8_vector/firmware/floppysrc/tff.c:1034-1040 | the cluster that create_chain gives a growing file is free, extends its chain by one, and changes no other link |
| Append.WriteRun | u8_vector/firmware/floppysrc/tff.c:1048-1056 | a direct transfer of whole sectors appends exactly those bytes to the content |
| Append.WritePart | u8_vector/firmware/floppysrc/tff.c:1058-1068 | a partial sector through the window appends exactly those bytes |
| Append.WriteRound | u8_vector/firmware/floppysrc/tff.c:1028-1069 | one round of the loop appends a non-empty piece or finds the volume full |
| Append.GrewTrans | u8_vector/firmware/floppysrc/tff.c:1006-1078 | growing is transitive: the chain only grows by free clusters, foreign links and sectors stay, and no cluster is lost |
| Append.Write | u8_vector/firmware/floppysrc/tff.c:1006-1078 | f_write after writes only: it stores min(request, room on the volume) bytes behind the content, keeps the buffer and everything foreign, and leaves a usable cursor if and only if all bytes found room |
| FailingCalls.WriteWhenFull | u8_vector/firmware/floppysrc/tff.c:1006-1078 | the input: f_write of one byte to a new file on a full volume succeeds with 0 bytes and leaves the sector counter at 0 |
| Overrun.NextRound | u8_vector/firmware/floppysrc/tff.c:1028-1069 | one round of the loop of f_write on a file that has filled the volume: exactly which sectors of the disk or which window take the bytes, and when it fails |
| Overrun.WriteStuck | u8_vector/firmware/floppysrc/tff.c:1006-1078 | a whole f_write on such a file: if the sectors behind the current one exist, all bytes are reported as written and counted into the file size, which its chain cannot hold; whole sectors are on the disk behind the current one, and the rest is in the window for the sector after them; otherwise nothing is written and the error is set |
| Overrun.HitExactly | u8_vector/firmware/floppysrc/tff.c:1031-1047 | whose sector that is: the file's own, when the neighbouring cluster is on its chain, that of another occupied cluster, the first one behind the data area, or, for an empty file, the one behind a field that was never set |
| Overrun.OwnOverwritten | u8_vector/firmware/floppysrc/tff.c:1048-1056 | in the first case the earlier bytes of the file are overwritten |
| Overrun.AnotherOwned | u8_vector/firmware/floppysrc/tff.c:1048-1056 | in the second case some other chain of the volume owns the cluster |
| Sync.HeldContent | u8_vector/firmware/floppysrc/tff.c:1087-1117 | the bytes a file holds are the bytes read back through the chain from its start cluster |
| Sync.FSync | u8_vector/firmware/floppysrc/tff.c:1087-1117 | a written file: afterwards the window is clean, only the sector of the directory entry has changed, in it only attribute, time, start cluster and size of the entry, and the entry on disk names exactly the content; byte by byte, the archive bit 0x20 is set and no other attribute bit changes, and time, start cluster and size stand at 22, 26 and 28, lowest byte first; a file that has not been written is left alone; a file that could grow still can |
| Appending.OthersKept | u8_vector/firmware/floppysrc/tff.c:1006-1078 | every other chain keeps its links and all its sectors while a file grows |
| Appending.WriteAndSync | u8_vector/firmware/floppysrc/tff.c:1006-1117 | from an empty file, any run of writes of any sizes that fits the volume, with f_sync calls between them, and a last f_sync: the file named by the directory entry on the disk is the concatenation of the buffers, all FAT copies agree, every other chain stays; outside the FATs and the new chain nothing but the fields of that entry changes, and outside the chain no link; its time is that of the first f_sync behind the last write; the window is clean and up to date, and the file can go on growing |
| EndToEnd.WriteOpenRead | u8_vector/firmware/floppysrc/tff.c:884-1224 | any run of f_write and f_sync that begins with f_write on an empty file, then opening it by its directory entry, then any run of f_read and f_lseek returns what the same reads and seeks on the concatenation of the written data return |
| Names.MakeDirFile | u8_vector/firmware/floppysrc/tff.c:425-480 | a segment is refused exactly when it is no 8.3 name; otherwise the 11-byte field, the terminator and the next position are those of the parsed name |
| Names.GetFileName | u8_vector/firmware/floppysrc/tff.c:391-409 | the buffer of 13 bytes receives the printed name and a zero byte |
| Names.NameRoundTrip | u8_vector/firmware/floppysrc/tff.c:381-480 | the field of every accepted segment is in upper case; its printed form has at most 12 characters, is accepted, and parses to the same field |
| Names.CaseInsensitive | u8_vector/firmware/floppysrc/tff.c:425-480 | segments equal up to letter case are accepted together and give the same field |
| Names.RefusedSet | u8_vector/firmware/floppysrc/tff.c:425-480 | the refused characters, as a literal set |
| Names.FormAccepted | u8_vector/firmware/floppysrc/tff.c:425-480 | a body of one to eight allowed characters, any dots and an extension of up to three is accepted, and its field is body and extension in capitals, filled up with spaces |
| Names.AcceptedForm | u8_vector/firmware/floppysrc/tff.c:425-480 | nothing else is accepted |
| Names.PrintedForm | u8_vector/firmware/floppysrc/tff.c:391-409 | body and extension of a field are printed with a dot between, and 5 in the body as 229 |
| Directory.MaskIsRem | u8_vector/firmware/floppysrc/tff.c:354-361 | the bit masks of the walk are remainders when the cluster size is a power of two |
| Directory.BitIs | u8_vector/firmware/floppysrc/tff.c:523-535 | masking with a power of two tests that bit |
| Directory.SlotIsContent | u8_vector/firmware/floppysrc/tff.c:523-524 | the slots of a cluster directory are 32 bytes each of its content, in order |
| Directory.SlotOfRoot | u8_vector/firmware/floppysrc/tff.c:523-524 | those of the fixed root are 32 bytes each from dirbase on |
| Directory.NextTableSector | u8_vector/firmware/floppysrc/tff.c:355-368 | the successor of a sector of a directory table, inside a cluster and across clusters |
| Directory.DirObject.Root | u8_vector/firmware/floppysrc/tff.c:509-513 | trace_path starts at slot 0 of the fixed root |
| Directory.NextDirEntry | u8_vector/firmware/floppysrc/tff.c:344-371 | for a fixed root or a cluster directory the object moves from slot i to slot i + 1, and reports the end exactly after the last slot; a window that is up to date stays so, and one that is stale on a data sector does no harm |
| Directory.FirstHitMeaning | u8_vector/firmware/floppysrc/tff.c:523-533 | the search finds a slot if and only if it is the first match before any end mark |
| Directory.HitsExactly | u8_vector/firmware/floppysrc/tff.c:523-533 | the first match is the first slot with that name that is in use, not deleted (0xE5) and without attribute bit 0x08 |
| Directory.SearchDir | u8_vector/firmware/floppysrc/tff.c:523-533 | the search loop returns exactly the first match from its starting slot, if the window is not stale on the sector of that slot |
| Directory.TracePath | u8_vector/firmware/floppysrc/tff.c:488-545 | for every path the result, including the error code, is that of the recursive first-match lookup over the slot lists of the directories; the object names the start cluster of the directory that was searched last, and fn holds the field of the last segment, also when it is missing there |
| Directory.SegmentLeads | u8_vector/firmware/floppysrc/tff.c:488-545 | each segment leads to the first match, in a directory (attribute bit 0x10) to the chain that starts at byte 26 of its entry, searched from the third slot on; all error codes |
| Directory.ReadSlot | u8_vector/firmware/floppysrc/tff.c:1288-1300 | one round of f_readdir prints the entry if it is to be listed and steps on |
| Directory.ReadAll | u8_vector/firmware/floppysrc/tff.c:1275-1302 | repeated f_readdir lists the names of all live entries up to the end mark, in order, each once |
| Directory.ListingMeaning | u8_vector/firmware/floppysrc/tff.c:1275-1302 | a listing names exactly the slots before the first end mark that are live and have a name to print, in order, each once |
| QuickSort.ForwardMeaning | u8_vector/firmware/cc65libsrc/libsrc/common/qsort.c:29-31 | the forward scan passes elements not greater than the pivot, and leaves the array only when its end is the last offset that an int can hold |
| QuickSort.ScanForward | u8_vector/firmware/cc65libsrc/libsrc/common/qsort.c:29-31 | on 16-bit byte offsets the loop computes that scan, and detects the wrapped offset exactly when the scan leaves the array |
| QuickSort.ScanBackward | u8_vector/firmware/cc65libsrc/libsrc/common/qsort.c:32-34 | on 16-bit byte offsets the loop computes the backward scan |
| QuickSort.PartMeaning | u8_vector/firmware/cc65libsrc/libsrc/common/qsort.c:26-43 | the partition is a permutation of the stretch and puts the pivot at its final place; it can stray only at the 32 KB limit |
| QuickSort.Partition | u8_vector/firmware/cc65libsrc/libsrc/common/qsort.c:26-43 | the in-place partition on byte offsets computes the partition on block numbers, straying included |
| QuickSort.SideTest | u8_vector/firmware/cc65libsrc/libsrc/common/qsort.c:44 | the unsigned 16-bit test for the larger side is the test on block numbers |
| QuickSort.SortMeaning | u8_vector/firmware/cc65libsrc/libsrc/common/qsort.c:13-52 | whenever it stays inside the array, QuickSort leaves the stretch sorted, a permutation of itself, nothing outside it touched, with calls nested at most floor(log2 n) deep |
| QuickSort.QuickSort | u8_vector/firmware/cc65libsrc/libsrc/common/qsort.c:13-52 | the in-place sort on 16-bit byte offsets, loop and recursion, computes the sort on block numbers and its depth |
| QuickSort.QsortSorts | u8_vector/firmware/cc65libsrc/libsrc/common/qsort.c:56-63 | an array below 32 KB is sorted, for every total preorder, every element count and size |
| QuickSort.EqualStrays | u8_vector/firmware/cc65libsrc/libsrc/common/qsort.c:26-31 | when only the end of the array is beyond 32 KB, equal elements drive the forward scan below the array |
| QuickSort.SortsExactly | u8_vector/firmware/cc65libsrc/libsrc/common/qsort.c:13-63 | for every preorder that tells elements apart, all arrays of n blocks of a size are sorted if and only if n <= 1 or n * size <= 32767 |
| QuickSort.FailingInputs | u8_vector/firmware/cc65libsrc/libsrc/common/qsort.c:13-63 | 32769 descending bytes stay unsorted, and 16384 equal words are compared below the array |
| QuickSort.QSort | u8_vector/firmware/cc65libsrc/libsrc/common/qsort.c:56-63 | qsort with the last offset cut to 16 bits computes the sort function, and below 32 KB leaves a sorted permutation of the array |
| BSearch.SearchIsLeftmost | u8_vector/firmware/cc65libsrc/libsrc/common/bsearch.c:22-45 | from every state of the loop on a sorted array of at most 16384 elements the search ends with the first equal element, or with none exactly when none is equal |
| BSearch.BSearch | u8_vector/firmware/cc65libsrc/libsrc/common/bsearch.c:13-46 | the method computes the search function and returns the leftmost equal element |
| BSearch.Overruns | u8_vector/firmware/cc65libsrc/libsrc/common/bsearch.c:23-26 | above 16384 elements a search for a key above all elements reads below the array |
| BSearch.WorksExactly | u8_vector/firmware/cc65libsrc/libsrc/common/bsearch.c:16-45 | the search is right for all sorted arrays of n elements if and only if n is at most 16384 |
| BSearch.SortAndFind | u8_vector/firmware/cc65libsrc/libsrc/common/bsearch.c:13-46 | after qsort, bsearch finds an element if and only if the original array held one equal to the key, for at most 16384 elements in less than 32 KB |
| Calendar.MonthStartTable | u8_vector/firmware/cc65libsrc/libsrc/common/mktime.c:58-60 | the table of days before each month agrees with the sum of the month lengths |
| Calendar.ThirtyDays | u8_vector/firmware/cc65libsrc/libsrc/common/mktime.c:52-60 | the length of each month, apart from the tables |
| Calendar.MonthsOf1970 | u8_vector/firmware/cc65libsrc/libsrc/common/mktime.c:52-60 | the instants at which the twelve months of 1970 begin |
| Calendar.March2000 | u8_vector/firmware/cc65libsrc/libsrc/common/mktime.c:164-183 | the instant and the weekday of the first of March 2000, and the weekday of the epoch |
| ShortInts.CutTo16 | u8_vector/firmware/cc65libsrc/libsrc/common/mktime.c:94-118 | a stored int is the one 16-bit value that differs by a multiple of 2^16 |
| ShortInts.Truncating | u8_vector/firmware/cc65libsrc/libsrc/common/mktime.c:94-118 | quotient and remainder make up the number, and the remainder has its sign |
| Calendar.AdjustTime | u8_vector/firmware/cc65libsrc/libsrc/common/mktime.c:94-118 | the carries of seconds, minutes and hours succeed exactly when every sum, the first one cut to 16 bits, is from 0 to 32767 |
| Calendar.CarryKeepsInstant | u8_vector/firmware/cc65libsrc/libsrc/common/mktime.c:94-118 | the carries keep the instant, except that a carried minute below -32768 wraps and adds 65536 minutes |
| Calendar.DaysCarried | u8_vector/firmware/cc65libsrc/libsrc/common/mktime.c:141-149 | moving days beyond a month into the next month names the same Gregorian day |
| Calendar.AdjustDate | u8_vector/firmware/cc65libsrc/libsrc/common/mktime.c:123-154 | the loop ends, keeps the Gregorian day number, brings month and day into range, and fails exactly when the year cannot be held |
| Calendar.LeapCount | u8_vector/firmware/cc65libsrc/libsrc/common/mktime.c:164-171 | the first of January of a year is where dividing by four puts it, up to the year 2100, and a day earlier afterwards |
| Calendar.SecondsExact | u8_vector/firmware/cc65libsrc/libsrc/common/mktime.c:169-183 | the returned seconds are the instant of the corrected fields if and only if seconds are not negative, the instant is not before 1970 and the year is at most 2100 |
| Calendar.LastGoodYear | u8_vector/firmware/cc65libsrc/libsrc/common/mktime.c:123-171 | that the corrected year is at most 2100, read off the day number of the date before the correction |
| Calendar.DayLate | u8_vector/firmware/cc65libsrc/libsrc/common/mktime.c:164-183 | the first failing input: midnight of the first of January 2101 comes out 86400 seconds late |
| Calendar.MkTimeLate | u8_vector/firmware/cc65libsrc/libsrc/common/mktime.c:78-188 | the call of mktime with that date |
| Calendar.MkTime | u8_vector/firmware/cc65libsrc/libsrc/common/mktime.c:78-188 | refused times yield -1; all others keep their instant (unless the first carry wraps) and come out in range, except that negative seconds and a day 0 remain; day of year is right; the seconds are the instant if and only if the carried seconds are not negative, the instant is not before 1970 and the carried date is before 2101; the weekday is right from 1970 to 2100 |
| Calendar.InstantDetermines | u8_vector/firmware/cc65libsrc/libsrc/common/mktime.c:78-188 | fields in range are determined by the instant |
| Calendar.LocalTime | u8_vector/firmware/cc65libsrc/libsrc/common/localtime.c:46-73 | refused exactly when the time is negative as a long; otherwise the fields are in range and name that instant, with the right weekday and day of year |
| Calendar.MkTimeOfLocalTime | u8_vector/firmware/cc65libsrc/libsrc/common/localtime.c:46-73 | mktime(localtime(t)) = t for 0 <= t < 2^31 |
| Calendar.LocalTimeOfMkTime | u8_vector/firmware/cc65libsrc/libsrc/common/localtime.c:46-73 | localtime(mktime(f)) gives the fields of f as mktime leaves them, for non-negative seconds, a carried day of at least 1 and an instant below 2^31 |
| Calendar.MkTimeTwice | u8_vector/firmware/cc65libsrc/libsrc/common/mktime.c:78-188 | mktime is idempotent on the fields and on its result, for every accepted time |

## Left out

- FatVolume.Volume.DiskRead: models no medium errors; only a transfer beyond the disk fails.
- FatVolume.Volume.MoveWindow: models write-back with FAT copies that agree at mount time; a volume mounted with differing copies is not modelled.
- Transfer.ReadOrWrite: takes a window that is not dirty, as in the read-only build; a stale window on a file whose chain repeats a cluster is not modelled.
- Reading.Read: like `Transfer.ReadOrWrite`.
- Reading.WriteInPlace: takes a window that is not dirty, and a chain without repetition.
- Append.Write: appends to a file written from its start without a seek; writing after `f_lseek` and the growth of a file by `f_lseek` in write mode are not modelled.
- Append.WriteRun: takes at least one whole sector at a sector boundary, the branch in which the source calls `disk_write` directly.
- Appending.WriteAndSync: takes pieces that fit the volume together; single writes on a full volume are covered by `Append.Write`.
- Directory.TracePath: says nothing about paths that lead through a directory entry without a complete chain of clusters.
- Directory.NextDirEntry: takes directories of at most 65536 slots and clusters of a power of two sectors, as the 16-bit index and the mask of the code need.
- Names.GetFileName: models the name part of `get_fileinfo`; size, date and attribute are plain copies.
- QuickSort.QSort: one array element stands for a block of `size` bytes, and `_swap`, which is 6502 assembler (`_swap.s`), exchanges two elements; blocks of size 0 and arrays beyond the address space are left out. What an array holds after the scan has left it is not modelled.
- BSearch.BSearch: one array element stands for a block of `size` bytes; the address arithmetic on the result is not modelled.
- Calendar.MkTime: takes a month that is not negative; for a negative one the source indexes its table with a negative remainder.
- Calendar.AdjustDate: takes a month that is not negative, for the same reason.
- Overrun.WriteStuck: for an empty file, whose current sector was never set and may point into the FATs, a request of whole sectors and a rest is modelled by its first round only (`Overrun.NextRound`).
- Mounting (`auto_mount`, `check_fs`), `validate` and mount identifiers: they would add a layout parser and a guard.
- `f_open`, `f_close`, `f_mkdir`, `f_unlink`, `f_rename`, `f_chmod`, `f_stat`, `f_opendir`: mostly field copies over the layers above.
- `reserve_direntry`: the search for a free slot, and the stretching of a directory by a cluster of zeros.
- FAT32, FSInfo, Shift-JIS and NT-flag branches: switched off in the build.
- `mmc.c` and the card protocol, timers and DMA: hardware registers; disk transfers are modelled as updates of the sector sequence.
- `slave.c`, `menu.c`, `osd.c`, `serial.c`, `philes.c`, `main.c`: request loop over volatile ports and user interface.
- `fdd_readadr` and the data port state of the floppy (`ready`, `offset`): bookkeeping over the sector operations.
- The other library routines of cc65 (`realloc`, `strtok`, the stdio wrappers, `_scanf`).
