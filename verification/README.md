# A verified model of a FAT12/16/32 file system

This project models the FAT library in `source/` in Dafny and proves what its layers promise each
other and their callers. `dafny verify dfyconfig.toml` checks everything.

The layers, bottom up:

| files | what they model |
|---|---|
| Bytes, Pages, Recency, PageOrder, Cache | the write-back LRU page cache over a disc (`cache.c`, `bit_ops.h`) |
| Layout, Mount, FatEntries, Chains, Fat | the geometry of a volume and the allocation table (`partition.c`, `file_allocation_table.c/.h`) |
| FileBytes, FileSpec, Handles, Truncation, Cursors, Calls, Files, Runs | files as bytes over cluster chains, the cursor, the flags, all file operations (`fatfile.c`) |
| Names, NumericTails, Slots, LongNames, Listings, NewEntries, DirBytes, RootAreas, Gaps, Directories, Additions | directories: names, aliases, slots, enumerator, adding and removing (`directory.c`) |
| ClusterRuns, Transcoding | the run-length chain and the UTF-8 transcoding of `wcfat.c` |

Each layer sees the one below through one abstraction. The cache is a flat `view` of the disc: reads
return it, evictions and flushes leave it, writes splice it. The table is a map `chains` of disjoint
acyclic cluster chains. A file is the content its chain holds, cut to its size. A directory is a
list of items (entries and slots that show nothing) with an end behind it.

Code that changes state is imperative here too: `Disc`, `Cache`, `Partition`, `File` and `FatReader`
are classes with the fields of the original's structures, and loops are loops. Their methods are
proved against predicates on values (`Snap`, `Handle`, slots), and the properties that span
operations are lemmas on those. Private steps of the long C functions are methods of their own.

## Main results

* Cache: for every interleaving of operations the view changes only where a write says so, and after
  a successful flush the disc is the view. A page is resident exactly while fewer than N other pages
  were touched since (`Recency.ResidentIffRecent`).
* Table: every allocation, clearing and trimming keeps the table a set of disjoint chains, changes
  one chain in exactly the intended way, and keeps the free count exact.
* Files: `Runs.RunIsPlain` — any run of writes (complete, cut short or refused), reads, seeks and
  resizes does to the file what it would do to plain bytes with a position, keeps the chain at exactly
  the clusters the size needs, and leaves every other file alone, and with them every byte of the volume
  outside the table in use and the clusters. Each call reports what the plain one would; the file stays
  open as it was, so that every call is accepted, and ends up marked as modified exactly if it was before
  or some call wrote data or resized it. A write is complete exactly when the disc has room. The steps such a run
  has to leave out are named by exact conditions, see below.
* Directories: the enumerator shows exactly the listing; adding succeeds exactly for a good name that
  nothing has yet, with an alias and room for it, and inserts one entry at the first gap or at the end;
  removing takes one entry out; what lies behind the end never shows. A long name of up to 247 units
  comes back as it was stored. The alias is a function of the name and of what the directory holds, and
  below 500,000 entries there always is one.
* Mounting: without 32-bit overflow a boot sector gives a usable geometry exactly when it is
  consistent, and the type thresholds keep cluster numbers clear of the end-of-chain values. The tables,
  the root directory area and the first cluster lie directly one behind the other
  (`RootAreas.RootSlotsAre`, `RootAreas.FirstClusterIs`).

## Where the code falls short

The code is modelled as it is. Where a promised property fails, an input is given and the exact
condition is proved.

* After an unsuccessful search the allocator's hint points past the last cluster. If the entry slot
  there reads free (`Fat.FailedSearch`), the next allocation hands out a cluster that does not exist;
  once a tail names it no set of chains explains the table any more, and an exact count is lowered
  (`Fat.PhantomBreaksTable`, on a full volume in `Fat.PhantomHandedOut`). File and directory operations
  that allocate require that the hint is not in that state, and keep it out of it as long as they
  succeed.
* A read that starts with the cursor due behind a full cluster and asks for less than a sector reads
  behind that cluster; it is right only if the next cluster of the file is also the next on the disc
  (`Handles.ReadRightExactly`; `Cursors.StretchThenRead` shows how it comes about). A read right after a
  seek is never of that kind (`Cursors.SeekThenRead`). Behind the last cluster of the partition such a
  read also makes the cache load a page it may hold already (`Pages.PastTheEnd`).
* A seek beyond the end leaves the read/write cursor where it was, and an append leaves it alone too.
  If the append takes the end to the position or past it, the cursor is not at the position
  (`Cursors.CursorAfterAppend`, with an example in `Cursors.AppendPastPosition`).
* Resizing puts the old cursor back; it is still right exactly under `Cursors.CursorSafe`, or if a
  cursor whose cluster a cut had taken away is given that very cluster back
  (`Cursors.CursorAfterTruncate`, with examples in `Cursors.CutAtCursor` and `Cursors.ClusterComesBack`).
  While the cursor stands in a cluster of the file the second case cannot arise, and only a cut in
  front of it ends that (`Runs.StepAnchored`).
* Stretching a file on a full disc fails but still sets the size, so that the file claims more bytes
  than its chain holds (`Truncation.FailedResizeIsUnsound`, an example in
  `Truncation.StretchOnFullVolume`). A write whose gap could not be filled keeps the clusters it took, so
  that the chain is too long unless nothing was free (`Handles.AfterRefusal`).
* Removing the entry in the last slot of a directory removes it and returns false
  (`Directories.RemoveEntry`).
* An added entry can share its alias with another one exactly for short names that end in a period
  and long ones whose extension starts with three spaces (`NewEntries.UniqueExactly`, the second kind
  in `NewEntries.DoubledAlias`). A name of which nothing is left for an alias is reported as added but
  never shown (`Additions.AddEntry`, for three periods `Additions.ThreePeriods`).
* Names of 248 to 255 units pass the length check, but their last slot reads behind the 256-unit
  buffer (`LongNames.PartsInBuffer`).
* The root directory area of a 12- or 16-bit volume has as many slots as the boot sector says exactly if
  they fill whole sectors; otherwise it has fewer (`RootAreas.RootSlotsAre`).
* A refused write to an empty file may have given it its first cluster without marking the file as
  modified, so that closing it loses that cluster (`Calls.LostStart`).
* `build_cluster_chain` compares cluster numbers with the number of clusters and so takes a jump to
  one of the last two clusters for damage (`ClusterRuns.FatReader.LastTwo`).
* The mount code uses the active-table number when bit 7 of the flags says that all tables are
  mirrored, the opposite of the "FAT Data Structure" section of Microsoft's FAT32 File System
  Specification; the model follows the code. `Mount.ActiveIsUpToDate` says when the table it uses is one
  that is kept up to date, `Mount.StaleTable` gives a block for which it is not.

## Model

| member | source | states |
|---|---|---|
| `Bytes.U16ToU8Array` | source/bit_ops.h:45-48 | stores two bytes, lowest first, and touches no other byte |
| `Bytes.U32ToU8Array` | source/bit_ops.h:50-55 | the same for four bytes |
| `Bytes.LoadStore16` | source/bit_ops.h:37-48 | a 16-bit load undoes a store, modulo 2^16 |
| `Bytes.LoadStore32` | source/bit_ops.h:41-55 | a 32-bit load undoes a store, modulo 2^32 |
| `Bytes.FourBytes` | source/bit_ops.h:50-55 | the four bytes stored are the digits of the value to base 256, lowest first |
| `Recency.ResidentIffRecent` | source/cache.c:107-155 | with n pages, a page touched before is resident exactly if fewer than n other pages were touched since |
| `Recency.RunIsPrefix` | source/cache.c:107-155 | the bounded recency list is the front of the unbounded one, over every run of touches |
| `Recency.RunOn` | source/cache.c:107-155 | the touches of an operation continue the run of all touches before it |
| `PageOrder.OrderHit` | source/cache.c:126-130 | a hit moves the page to the front of the access order and keeps the others in order |
| `PageOrder.OrderFill` | source/cache.c:132-152 | taking a free entry puts the page in front and drops none |
| `PageOrder.OrderEvict` | source/cache.c:132-152 | with no free entry the least recently used page goes, and only that one |
| `Pages.WrittenBack` | source/cache.c:139-142 | writing a dirty page back keeps cache and disc coherent with the view, and makes the page clean |
| `Pages.Scrambled` | source/cache.c:139-142 | a failed disc write over the page's own sectors does not change the view while the page stays dirty |
| `Pages.Replaced` | source/cache.c:144-154 | loading another page into a clean entry keeps the view |
| `Pages.Overwritten` | source/cache.c:217-232 | a store into a page changes the view at those bytes and nowhere else |
| `Pages.CleanMeansSynced` | source/cache.c:299-312 | when no page is dirty the disc is the view |
| `Pages.PastTheEnd` | source/cache.c:125-154 | a sector behind the end of the partition is in no page, and loading its page keeps the table in order exactly if no entry has that page |
| `Pages.PageAligned` | source/cache.c:115-121 | a page starts at a multiple of the page size, for every sector |
| `SectorCache.Disc.WriteSectors` | source/disc.h:70-72 | success stores the sectors; failure may leave anything in those sectors and nothing elsewhere |
| `SectorCache.Cache.constructor` | source/cache.c:49-91 | a new cache shows the disc, holds no page, and has the pages asked for, at least two, of the sectors asked for, at least eight |
| `SectorCache.Cache.GetPage` | source/cache.c:115-155 | the page of the sector, showing the view; the view stays, residency is the touched recency list; fails only with the disc |
| `SectorCache.Cache.WriteBack` | source/cache.c:139-142 | the view stays; on success the entry is clean |
| `SectorCache.Cache.LoadPage` | source/cache.c:144-154 | a failed read leaves the view and every page coherent |
| `SectorCache.Cache.ReadSectors` | source/cache.c:157-180 | returns those sectors of the view, which stays; touches their pages in order |
| `SectorCache.Cache.ReadPartialSector` | source/cache.c:185-199 | returns the view's bytes inside one sector and touches its page; refuses ranges over its end |
| `SectorCache.Cache.ReadLittleEndianValue` | source/cache.c:201-212 | returns the number stored there in the view, 1, 2 or 4 bytes wide |
| `SectorCache.Cache.WritePartialSector` | source/cache.c:217-232 | splices the bytes into the view and touches the page |
| `SectorCache.Cache.WriteLittleEndianValue` | source/cache.c:234-245 | splices the little-endian bytes of the value into the view and touches the page |
| `SectorCache.Cache.EraseWritePartialSector` | source/cache.c:250-266 | replaces the sector in the view by zeros with the buffer in them and touches the page |
| `SectorCache.Cache.WriteSectors` | source/cache.c:269-294 | splices whole sectors into the view, over any number of pages, touched in order |
| `SectorCache.Cache.Flush` | source/cache.c:299-312 | the view stays; after success no page is dirty and the disc is the view |
| `SectorCache.Cache.Invalidate` | source/cache.c:314-323 | flushes and frees all pages |
| `Layout.ClusterPlace` | source/file_allocation_table.h:60-64 | the first cluster starts the data area; the clusters lie side by side in it, behind the table, inside the partition |
| `Layout.ClustersApart` | source/file_allocation_table.h:60-64 | different clusters do not overlap |
| `Mount.ReadGeometry` | source/partition.c:230-292 | with 32-bit wrap-around; when nothing wraps, all numbers are where the fields of the boot sector put them, stated by sums and bounds alone: table, root directory and data area one behind the other, as many clusters as fit, the type by the two thresholds; valid exactly for a consistent parameter block |
| `Mount.FieldsOfBlock` | source/partition.c:230-266 | the byte offsets of all fields of the boot sector and the choice between the 16-bit and the 32-bit ones |
| `Mount.ValidIsConsistent` | source/partition.c:239-292 | the geometry bounds of all other layers hold if and only if the block is consistent |
| `Mount.NumbersReadBack` | source/partition.c:265-277 | no cluster number reads as end of chain, always for 12 and 16 bits, for 32 bits exactly below 0x0FFFFFF7 |
| `Mount.ActiveIsUpToDate` | source/partition.c:279-289 | the table in use is one kept up to date if and only if bit 7 is clear and the number exists, or the number is 0 |
| `Mount.StaleTable` | source/partition.c:279-289 | an instance: a consistent block with two tables of which the code uses the stale one |
| `RootAreas.RootSlotsAre` | source/partition.c:241-246 | the root directory of a 12- or 16-bit volume lies directly behind the reserved sectors and all tables, slot after slot, and has the stated number of slots if and only if they fill whole sectors |
| `RootAreas.FirstClusterIs` | source/partition.c:241-246 | cluster 2 starts behind reserved sectors, tables and root directory sectors, rounded down |
| `FatEntries.LoadStored` | source/file_allocation_table.c:123-200 | an entry reads back as the value stored, cut to its width, for all three widths |
| `FatEntries.OthersKept` | source/file_allocation_table.c:123-200 | every other entry reads as before, also those sharing a byte |
| `FatEntries.SharedByte` | source/file_allocation_table.c:137-183 | storing a 12-bit entry keeps the neighbour's half of the shared byte |
| `FatEntries.LinkAfterStore` | source/file_allocation_table.c:40-200 | the link of c is the stored value, or EOF in the EOF range; all other links stay |
| `FatEntries.ValidLinkSurvives` | source/file_allocation_table.c:52-110 | valid cluster numbers and the end mark survive storing |
| `FatEntries.EntryBytes` | source/file_allocation_table.c:52-110 | an entry of each width as the half bytes or bytes of the table it is made of, from entry 0 on |
| `FatEntries.EndMarks` | source/file_allocation_table.c:52-110 | from which value on an entry of each width reads as end of chain |
| `Chains.StartChain` | source/file_allocation_table.c:250-260 | ending a free cluster adds a one-cluster chain and takes one free cluster |
| `Chains.ExtendChain` | source/file_allocation_table.c:250-260 | linking a free cluster behind a tail appends it to that chain and keeps the table well-formed |
| `Chains.DropChain` | source/file_allocation_table.c:303-330 | clearing at a head removes exactly that chain |
| `Chains.CutChain` | source/file_allocation_table.c:338-366 | trimming keeps exactly the first n clusters and frees the others |
| `Chains.FindOwner` | source/file_allocation_table.c:208-376 | in a well-formed table a used cluster is in exactly one chain |
| `Chains.ClearedCount` | source/file_allocation_table.c:313-325 | clearing s frees exactly the clusters of s, each counted once |
| `Fat.Partition.NextCluster` | source/file_allocation_table.c:40-117 | the link of the cluster; the view stays |
| `Fat.Partition.ReadEntry12` | source/file_allocation_table.c:52-80 | the 12-bit link, also across a sector boundary |
| `Fat.Partition.WriteFatEntry` | source/file_allocation_table.c:123-200 | changes that entry alone, no data, and nothing else before the data but the table in use; refuses clusters outside the volume |
| `Fat.Partition.FindFree` | source/file_allocation_table.c:226-249 | ends with the first free cluster from the hint on, else from the start, and fails only if none is free |
| `Fat.Partition.LinkFreeCluster` | source/file_allocation_table.c:208-263 | returns the existing link inside a chain; otherwise one free cluster is allocated as Fat.Allocated says |
| `Fat.Partition.LinkFreeClusterCleared` | source/file_allocation_table.c:271-296 | links like LinkFreeCluster, also a cluster that has a successor, and zeroes the cluster returned, and nothing else |
| `Fat.Partition.ClearLinks` | source/file_allocation_table.c:303-330 | frees the rest of a chain, lowers the hint, keeps the count exact |
| `Fat.Partition.ClearChain` | source/file_allocation_table.c:303-330 | removes one chain, keeps the rest of the table and the count exact |
| `Fat.Partition.TrimChain` | source/file_allocation_table.c:338-366 | keeps the first min(n, length) clusters; 0 removes the chain |
| `Fat.Partition.LastCluster` | source/file_allocation_table.c:371-377 | the last cluster of the chain |
| `Fat.Partition.FreeClusterCount` | source/file_allocation_table.c:382-393 | the number of free entries |
| `Fat.PhantomBreaksTable` | source/file_allocation_table.c:226-260 | the cluster returned exists if and only if the hint is sound; otherwise no chains explain the table once a tail names it, and an exact count stays exact only at 0 |
| `Fat.FailedSearch` | source/file_allocation_table.c:226-242 | a failed search leaves the hint unsound exactly if the slot past the end reads free |
| `Fat.PhantomHandedOut` | source/file_allocation_table.c:226-260 | an instance: two allocations on a full volume |
| `Fat.CapNotReached` | source/file_allocation_table.c:320-322 | while a cluster is in use an exact count is below the cap, so the cap never bites |
| `Fat.HintStays` | source/file_allocation_table.c:309-325 | clearing a chain never puts the hint on a free slot past the end |
| `FileBytes.RawInRun` | source/fatfile.c:526-549 | reading neighbouring clusters in one go is reading them one by one along the chain |
| `FileBytes.RawWrite` | source/fatfile.c:845-893 | writing into a run of neighbouring clusters overwrites exactly that stretch of the file |
| `FileBytes.OtherRawKept` | source/fatfile.c:797-923 | a chain that shares no cluster with the changed one keeps its bytes |
| `FileBytes.SplitOffset` | source/fatfile.c:1000-1020 | division and remainder give the cluster index, sector and byte of an offset |
| `FileBytes.AtUnique` | source/fatfile.c:427-597 | a cursor denotes one offset only |
| `FileSpec.ExactlyIsCeiling` | source/fatfile.c:599-634 | the exact chain length is the size over the cluster size, rounded up |
| `FileSpec.EndOfFile` | source/fatfile.c:299-312 | the computed end position denotes the size, in the due form on a cluster boundary |
| `FileSpec.ProgressStore` | source/fatfile.c:806-923 | one store of a write extends what was written and keeps everything before and outside |
| `FileSpec.RequestExact` | source/fatfile.c:797-923 | after a write, also one cut short by a full disc, the chain has exactly the clusters the size needs |
| `FileSpec.RequestRoom` | source/fatfile.c:603-634 | a write is carried out in full if and only if the chain and the free clusters have room |
| `FileSpec.RequestKeepsOthers` | source/fatfile.c:721-946 | a write keeps all other files and every byte outside the table in use and the clusters |
| `FileSpec.WroteContent` | source/fatfile.c:721-946 | the bytes after a write are the old content overlaid with the data |
| `FileSpec.GapThenWrite` | source/fatfile.c:780-786 | filling the gap with zeros and then writing is one overlay |
| `FileSpec.OverlayGap` | source/fatfile.c:780-786 | the same on contents |
| `Files.File.CheckPositionForNextCluster` | source/fatfile.c:603-634 | a due cursor moves to the next cluster of the chain, taking one only at its end; the cursor's offset stays |
| `Files.File.WriteAlignSector` | source/fatfile.c:800-821 | writes up to the end of the sector |
| `Files.File.WriteAlignCluster` | source/fatfile.c:823-842 | writes whole sectors up to the end of the cluster |
| `Files.File.GroupClusters` | source/fatfile.c:849-872 | collects consecutive clusters, allocated as needed, that lie side by side in the chain |
| `Files.File.WriteWholeClusters` | source/fatfile.c:844-893 | writes all whole clusters of the request, batch by batch |
| `Files.File.WriteLastSector` | source/fatfile.c:912-923 | writes the last part of a sector; when appending, what follows in the sector is beyond the file |
| `Files.File.WriteData` | source/fatfile.c:797-923 | carries a request out from the cursor on, or until the disc is full |
| `Files.File.Extend` | source/fatfile.c:639-719 | fills the gap up to the position with zeros and moves size and cursor there, or fails on a full disc |
| `Files.File.ZeroFill` | source/fatfile.c:669-714 | writes the zeros over sectors and clusters |
| `Files.File.FillGap` | source/fatfile.c:780-786 | the gap step as Handles.GapFilled says, with success exactly when there is room |
| `Files.File.Write` | source/fatfile.c:721-946 | content, size, cursors, other files, free count, flags and result of every call, refused ones included, as Calls.WriteCall says |
| `Calls.WriteAfterWrite` | source/fatfile.c:721-946 | a write of non-empty data with room, behind a successful one, reports its length and leaves the file open and marked as modified |
| `Calls.LostStart` | source/fatfile.c:756-786 | a refused write takes a first cluster, without marking the file, exactly if the file was empty and a cluster was free |
| `Handles.WriteToChain` | source/fatfile.c:776-946 | the outcome for a file that has clusters |
| `Handles.WriteToEmpty` | source/fatfile.c:756-946 | the outcome for an empty file, with its first cluster |
| `Handles.WriteRefused` | source/fatfile.c:756-763 | no cluster at all: nothing changed and -1 |
| `Files.File.ReadChunk` | source/fatfile.c:526-561 | one batch of neighbouring clusters delivers the file's bytes and leaves the cursor behind them |
| `Files.File.ReadWholeClusters` | source/fatfile.c:525-562 | all whole clusters of the request |
| `Files.File.ReadData` | source/fatfile.c:464-586 | delivers the wanted bytes; nothing on the volume changes |
| `Files.File.Read` | source/fatfile.c:427-597 | delivers min(len, rest of the file) bytes of the content and moves the position, unless misread; volume and flags stay; refused exactly when bytes are asked for and it is not open for reading |
| `Handles.AfterRefusal` | source/fatfile.c:780-784 | after -1 the chain has all clusters that were free; the file is as it should be if and only if there were none |
| `Handles.ReadRightExactly` | source/fatfile.c:468-523 | a read is right whatever the volume holds, if and only if it is no misread or the next cluster of the file follows on the disc |
| `Handles.LandingDenotes` | source/fatfile.c:998-1043 | the place a walk from the first cluster comes to denotes the offset |
| `Files.File.SeekInside` | source/fatfile.c:998-1039 | started from the current cluster or the first, the seek lands where the walk from the first would |
| `Files.File.Seek` | source/fatfile.c:949-1047 | position and cursor after a seek for all three origins, and when it is refused; nothing else changes |
| `Handles.SoughtCursor` | source/fatfile.c:949-1047 | after a seek the handle is valid and the cursor right |
| `Files.File.Open` | source/fatfile.c:193-317 | an opened file is valid, its cursors at the start and the end, with the flags asked for, and marked as modified exactly if just created or cut; truncation removes its chain and nothing else |
| `Files.File.AppendAtEnd` | source/fatfile.c:299-312 | the append cursor denotes the size |
| `Files.File.Truncate` | source/fatfile.c:1086-1196 | content, chain, cursors, flags and result of every call, as Calls.TruncateCall says |
| `Files.File.Stretch` | source/fatfile.c:1126-1153 | growing: zeros behind the old content, success exactly when there is room, the read cursor put back |
| `Files.File.CutTo` | source/fatfile.c:1165-1186 | shrinking: the first n bytes, with exactly the clusters they need |
| `Files.File.CutToNothing` | source/fatfile.c:1156-1163 | shrinking to nothing removes the chain |
| `Truncation.ShrinkThenGrow` | source/fatfile.c:1086-1196 | cutting and stretching again shows zeros, never old bytes |
| `Cursors.CursorAfterGrowth` | source/fatfile.c:931-934 | when the file grows under an unmoved cursor, the cursor denotes the position if and only if the end did not pass it, or the cursor stands there already, or got its cluster back |
| `Cursors.CursorAfterAppend` | source/fatfile.c:931-934 | the same for an append of n bytes; for a cursor in the file exactly if the end did not pass the position |
| `Cursors.AppendPastPosition` | source/fatfile.c:931-998 | an instance: 10 bytes, a seek to 100, an append of 200 |
| `Cursors.CursorAfterTruncate` | source/fatfile.c:1133-1153 | after a resize the cursor denotes the position if and only if CursorSafe held before, or the cursor's lost cluster came back; for a cursor in the file exactly under CursorSafe |
| `Cursors.ResizeAnchored` | source/fatfile.c:1165-1173 | a resize leaves the cursor in the file exactly if its cluster is among those kept |
| `Cursors.CutAtCursor` | source/fatfile.c:1165-1186 | an instance: cutting to the cluster boundary where the cursor stands loses it |
| `Cursors.ClusterComesBack` | source/fatfile.c:1133-1186 | an instance: cut below the cursor, then grown with the same cluster again |
| `Cursors.SeekThenRead` | source/fatfile.c:998-1039 | after a seek no read is a misread |
| `Cursors.StretchThenRead` | source/fatfile.c:468-523 | an instance of a misread: a seek to the end of full clusters, a stretch by a byte, a read of it |
| `Truncation.FailedResizeIsUnsound` | source/fatfile.c:1144-1191 | after a failed stretch the chain holds the size if and only if nothing was done at all |
| `Truncation.StretchOnFullDisc` | source/fatfile.c:1144-1191 | on a full disc a stretch beyond the clusters fails and leaves the file unsound |
| `Truncation.StretchOnFullVolume` | source/fatfile.c:1144-1191 | an instance on a volume of two clusters |
| `Truncation.ClustersFor` | source/fatfile.c:1169-1173 | the chain length computed for a cut is exact |
| `Runs.RunIsPlain` | source/fatfile.c:427-1196 | a run of calls, with writes also cut short or refused, refines the same run on plain bytes and a position; every call is accepted; other files, all outside table and clusters, and the free count stay; the modified mark is set exactly if some call set it |
| `Runs.OneStep` | source/fatfile.c:427-1196 | one operation does, for each kind |
| `Runs.StepAnchored` | source/fatfile.c:427-1196 | the cursor goes on standing in a cluster of the file, unless a cut takes that cluster |
| `Names.LfnLength` | source/directory.c:84-114 | the length of a valid name, -1 for any other |
| `Names.CreateAlias` | source/directory.c:793-900 | the alias is AliasOf the name, the result 0 exactly for a name in short form or with nothing left; a name in short form is its own alias, up to a final period |
| `Names.UpperCasedAlias` | source/directory.c:793-900 | a name that is in short form once upper-cased gets that as its alias, without a final period |
| `Names.SqueezedLetters` | source/directory.c:816-885 | of the characters of a part all but spaces are kept in order; & + , ; = [ ] become underscores, every other one is upper-cased |
| `Names.MappedCharacters` | source/directory.c:816-885 | for one character: the underscore for exactly those seven, else itself up to case |
| `Names.LetterCases` | source/directory.c:816-840 | upper and lower case, letter by letter; all other characters stay |
| `Names.RefusedCharacters` | source/directory.c:84-114 | the eight characters no name may have |
| `Names.HelloAlias` | source/directory.c:793-900 | an instance: the alias of hello.txt |
| `Names.AliasFacts` | source/directory.c:793-900 | that alias has the 8.3 shape; when it is empty, ends in a period or starts with one |
| `Names.CopyAlias` | source/directory.c:1004-1026 | the eleven padded characters of an alias |
| `Names.AliasRoundTrip` | source/directory.c:204-241 | an alias written to a slot reads back as the same name up to case, without a final period |
| `Names.AliasChecksum` | source/directory.c:1028-1032 | the checksum of the eleven characters |
| `Names.KnownSums` | source/directory.c:1028-1032 | the sum of one character is that character; the sum of README.TXT |
| `Names.Crc4Lfn` | source/wcfat.c:338-344 | the scaled 32-bit form computes the same checksum for every name |
| `NumericTails.WriteTail` | source/directory.c:981-990 | writes the numbered variant, also over an earlier one |
| `NumericTails.TwelfthVariant` | source/directory.c:966-990 | an instance: the primary part keeps its own characters and is filled with underscores, and the twelfth variant |
| `NumericTails.CandidatesDiffer` | source/directory.c:981-990 | the variants are pairwise different, up to case |
| `NumericTails.TwoEach` | source/directory.c:756-786 | every entry blocks at most two variants |
| `NumericTails.AllTaken` | source/directory.c:980-998 | if the first n variants are taken there are at least n / 2 entries |
| `Slots.EntryGetAlias` | source/directory.c:204-241 | the name in a slot with its case flags |
| `Slots.NamesByFlags` | source/directory.c:204-241 | which case bit of byte 12 is for the base and which for the extension, on one slot |
| `Slots.ScanGroup` | source/directory.c:286-390 | the enumerator takes a whole group, whatever its buffer held before |
| `Slots.SearchAtSlot` | source/directory.c:319-386 | what each attribute byte and each first byte make of a slot, in literal values: long-name part, passed over, end, or the entry reported |
| `Slots.NumbersOfNames` | source/directory.c:324-348 | which number bytes start a long name, go on with it, or break it off |
| `Slots.UnitBytes` | source/directory.c:50-76 | at which bytes of a slot the thirteen units of a part lie |
| `LongNames.WritePart` | source/directory.c:1050-1070 | fills a slot with one part of the name, its number and the checksum |
| `LongNames.BytesOfPart` | source/directory.c:1050-1070 | the bytes of a written part, by literal places |
| `LongNames.NumbersOfParts` | source/directory.c:1050-1056 | the parts are numbered downwards, the first one marked as the last of the name |
| `LongNames.LongNameRoundTrip` | source/directory.c:1037-1075 | a name of 1 to 247 units written to slots is the name the enumerator reads back |
| `LongNames.PartsInBuffer` | source/directory.c:1040-1056 | all parts lie in the buffer if and only if the name has at most 247 units |
| `Listings.ScanItems` | source/directory.c:286-390 | from a boundary the enumerator finds the next entry and nothing behind the end |
| `Listings.EnumeratesListing` | source/directory.c:286-400 | the enumerator shows exactly the listing, in order |
| `Listings.OneSlotShown` | source/directory.c:319-386 | which single slots the listing shows, under which name, and which it does not, by their bytes |
| `Listings.RemoveGroup` | source/directory.c:655-680 | freeing the slots of an entry takes that entry from the listing and keeps the others in order |
| `Listings.FreedBytes` | source/directory.c:663-671 | freeing a slot sets its first byte to 0xE5 and no other |
| `Listings.AddInGap` | source/directory.c:702-754 | an entry written over free slots is inserted into the listing |
| `Listings.AddAtEnd` | source/directory.c:733-748 | an entry written at the end is inserted, and stale slots behind the old end stay hidden |
| `NewEntries.UniqueExactly` | source/directory.c:940-1000 | an added entry never shares name or alias with another one, exactly for the names where what is looked up is what is stored |
| `NewEntries.DoubledAlias` | source/directory.c:940-1018 | such a name gets an alias that is there already, when the directory holds its first variant without the period |
| `NewEntries.AliasIsGood` | source/directory.c:949-1000 | the alias a long name gets is in 8.3 form, not taken, and ends in a period exactly for a blank extension |
| `NewEntries.StoredInUpperCase` | source/directory.c:949-1000 | a name that is in short form once upper-cased is stored with that as its alias, never a numbered one |
| `NewEntries.AliasAlwaysLeft` | source/directory.c:980-998 | below 500,000 entries every name gets an alias |
| `DirBytes.SlotRead` | source/directory.c:319-322 | a position addresses its slot on the volume |
| `DirBytes.SlotWrite` | source/directory.c:663-671 | writing at a position changes that slot and nothing else: neither another file, nor the system area, nor for the fixed root directory any cluster |
| `DirBytes.ExtendedDir` | source/directory.c:266-277 | a cleared cluster appended to a directory adds blank slots and changes nothing else |
| `DirBytes.CapacityKept` | source/directory.c:252-284 | directory operations lose no cluster: own and free ones together stay the same |
| `DirBytes.OnePosition` | source/directory.c:671-673 | equal positions mean equal slots |
| `Directories.IncrementDirEntryPosition` | source/directory.c:252-284 | the next slot, across sectors and clusters, or the end, or a directory one cluster longer |
| `Directories.TakeLfn` | source/directory.c:324-348 | the effect of a long-name slot on the search |
| `Directories.GetNextEntry` | source/directory.c:286-390 | reports what the search on slots finds (Slots.SearchAtSlot says what that is), for every directory on which it is defined |
| `Directories.GetFirstEntry` | source/directory.c:392-400 | the same from the start |
| `Directories.EntryExists` | source/directory.c:756-786 | true if and only if the name is that of an entry or of its alias, up to case |
| `Directories.RemoveEntry` | source/directory.c:655-680 | frees exactly the slots of the entry; the result is false if the last one was the directory's last |
| `Directories.ScanForGap` | source/directory.c:702-728 | finds the first free run of that length, else the end, with none before it; extends a directory that has no end mark |
| `Directories.MakeRoom` | source/directory.c:733-748 | blanks the slots behind the end, with one more as the new end; fails only when the directory has no further slot and cannot be extended |
| `Directories.FindEntryGap` | source/directory.c:682-754 | succeeds if and only if there is a free run before the end, or room for the entry and a new end mark at the end, counting free clusters; the place is the first run, else the end; before the end nothing changes either way |
| `Directories.ShownIsListing` | source/directory.c:286-400 | on the volume the enumerator shows exactly the listing |
| `Directories.RemovedListing` | source/directory.c:655-680 | on the volume the listing loses exactly the removed entry |
| `Additions.GenerateTail` | source/directory.c:966-998 | the first numbered variant of the filled-up alias that no entry has; fails exactly if all are taken |
| `Additions.ChooseAlias` | source/directory.c:949-1000 | the alias of a new entry as a function of its name and the listing, and the number of its slots |
| `Additions.WriteEntry` | source/directory.c:1037-1075 | writes the parts of the name and the alias into the found slots and nothing else |
| `Additions.AddEntry` | source/directory.c:902-1079 | succeeds if and only if the name is good and not taken and there is an alias and room; the listing then gets the new entry with its data behind the entries before the first gap, else it stays the same; all else on the volume stays |
| `Additions.ThreePeriods` | source/directory.c:793-900 | an instance: a good name of which nothing is shown |
| `ClusterRuns.FatReader.GetNextCluster` | source/wcfat.c:311-334 | the entry on the disc, whatever was read before |
| `ClusterRuns.FatReader.EntryIsRaw` | source/wcfat.c:311-334 | that entry is the raw entry of a 32-bit table with 512-byte sectors |
| `ClusterRuns.FatReader.EndIsEof` | source/wcfat.c:666-684 | the chain ends for it exactly where the table reads end of chain |
| `ClusterRuns.FatReader.BuildClusterChain` | source/wcfat.c:646-683 | the runs expand to the chain, no two could be merged, the result is their number less one; fails exactly for jumps past the limit |
| `ClusterRuns.FatReader.LastTwo` | source/wcfat.c:127-138 | on a volume of that many clusters the limit is passed exactly by jumps to one of the last two |
| `ClusterRuns.FewestRuns` | source/wcfat.c:666-682 | no list of runs for a chain is shorter |
| `Transcoding.Utf16To8` | source/wcfat.c:203-231 | the longest prefix whose encoding fits, never part of a unit, with a zero behind it; the bytes are UTF-8, unit by unit |
| `Transcoding.EncodeIsUtf8` | source/wcfat.c:203-231 | the encoding is well-formed character by character: lead byte in the range for its length, continuation bytes, and the payload bits are the unit |
| `Transcoding.UnitIsUtf8` | source/wcfat.c:203-231 | the same for one unit |
| `Transcoding.Utf8To16` | source/wcfat.c:280-300 | the units up to the separator and the bytes used, on every input with a defined outcome |
| `Transcoding.RoundTrip` | source/wcfat.c:203-300 | what was encoded decodes to itself, whatever follows the separator |

## Left out

* Disc failures above the cache: files, table and directories are modelled over a disc that does not
  fail, because those layers ignore most return codes; the cache itself is modelled with failures.
* Locks, errno values, time stamps, memory allocation and the optional LIMIT_SECTORS.
* Page buffers are values in an array of entries, not separately allocated memory; the access counter
  does not wrap.
* FSInfo reading and writing (`source/partition.c:427-514`): it goes past the cache.
* Path resolution, stat, statvfs, mkdir, rename and unlink (`source/fatdir.c`): they sequence the
  layers below. So does the directory update in `_FAT_syncToDisc` and `_FAT_close_r`.
* Locale conversion: names are ASCII with the identity mapping to 16-bit units, and comparison up to
  case is on ASCII letters.
* `_FAT_directory_entryFromPosition` (`source/directory.c:468-528`), `getRootEntry` and
  `getVolumeLabel`.
* `iterate_file`, `cache_set`, `cache_get`, `_WC_read_r`, `_WC_seek_r` and the path walking of
  `source/wcfat.c`: unfinished in the original.
* More than one open handle on a file.
* Transcoding.Utf8To16: inputs on which the C code shifts by a negative or too large amount or reads
  past the end are outside its precondition.
* Directories.GetNextEntry: directories with a long-name part numbered 0, or a name without end in
  the buffer, are outside its precondition; the C code leaves its buffer there.
* Additions.AddEntry: names of 248 to 255 units are outside its precondition, see above.
* Names.LfnLength: bytes from 0x80 on are outside its precondition; the code hands them to the locale.
* Files.File.Read: a misread behind the last cluster of the partition is outside its precondition,
  because the cache cannot be asked for a sector behind its end without losing its order, see above.
* Fat.Partition.LinkFreeClusterCleared: clearing the cluster past the end is outside its precondition
  when that cluster does not lie in the partition, for the same reason.
* Files.File.Write: requires that position plus length stay below the maximal file size, as the
  32-bit fields do, and that the allocator's hint is sound.
* Fat.Partition.LinkFreeCluster: the upper four bits of 32-bit entries are not masked, as in the code.
* Layout.Geometry.Valid: asks that the table has room for the entry after the last cluster's, which
  the allocator reads, and that sector sizes are multiples of 32.
