# Verified model of the d2x cIOS storage and RetroAchievements cores

This project models, in Dafny 4.11, six parts of the d2x custom IOS whose
correctness is not visible from any single function, and proves what their
documentation promises of them over all inputs and all runs.

* **FAT engine** (`FatGeometry`, `FatTable`, `FatChains`, `FatAllocator`,
  `FatVolume`, `FatLayout`, `FatFile`, `FatWrite`, `FatSession`, `FatMount`,
  `FatName`). A class `Volume` holds the disk and the one-sector write-back
  window; the *logical disk* is the disk overlaid with the dirty window (and its
  mirror in the second FAT). Entries of all three sub-types behave as an array
  over the logical disk, the allocator and chain removal are proved against
  functions on that array, and a class `File` reads, writes and seeks through
  the same window. The main result is `FatSession.Session`: any number of files on
  one volume, under any interleaving of `f_lseek`, `f_read` and `f_write`, give
  exactly the replies of byte sequences that share nothing but the free clusters;
  on a volume with a bad entry a write may break off and lose its own file only.
* **Chain walker and snapshots** (`ChainTable`, `ChainFetch`, `ChainWalk`,
  `Snapshot`, `Crc`). The table is fetched in checksummed chunks, walked once a
  frame with per-node history, and shipped in a packet under a byte budget. The
  walk is proved equal to a recursive definition over (walk, node) for every
  sequence of memories; the packet is proved to decode to exactly that meaning.
* **Watchlist** (`Watchlist`, `WatchlistFetch`). The list is fetched in checksummed
  chunks; from then on list and sequence number name the same point of the
  sender's log, whatever is lost, repeated or reordered, with queries in between.
* **USB exchange machine** (`UsbBus`, `UsbState`, `UsbTransfer`, `UsbRuns`,
  `UsbLink`, `UsbPipeline`). Host, bus and adapter step against a script of events.
  Every call is a function of the state and the script, each method of `Link` is
  proved to compute its function, and the theorems are about those functions:
  which request's reply an exchange gets, and what its buffer holds afterwards.
* **Fragmented disc reader** (`FragList`, `FragTrail`, `FragDisc`, `FragReader`).
  The virtual disc is a function of the fragment list and the device. Every read is
  proved to do what the trail of its searches says, whatever the device fails, and it
  is stated exactly when that is to deliver the bytes of the disc.
* **Small routines** (`Escape`, `WordMemory`): file-name escaping, and memory
  routines that may store only aligned words into MEM1.

`dafny verify dfyconfig.toml` checks everything.

## How to read the model

* Integers are unbounded. A 16- or 32-bit wrap that the code relies on or
  guards against is written out (`Word`, `Wrap`, `% U32`); masks and shifts by a
  power of two are quotients and remainders.
* `Quot`, `Rem` and `Product` are division and multiplication by repeated
  subtraction and addition (`Arithmetic.QuotIs`, `Arithmetic.ProductIs`).
* The environment is a parameter: disk sectors, game memory, device sectors,
  link answers and bus events are arbitrary functions or scripts, so a theorem
  holds for all of them.
* Error branches that cannot be reached from a sound state (most `ABORT`s, `-4`,
  `-5`) are kept as `assert false`; the `ABORT` of a write that meets a bad entry
  can, and is modelled.

## Where the code does not keep the expected promise

* **A failed read shifts the replies** (`ra-module/usb_link.c:202-241`). The adapter
  answers every request it gets once and in order, and a reply read that fails frees
  the wire without taking the answer. The next exchange returns 0 with the reply to
  the request before: `UsbRuns.FailedReadShifts`. An exchange that ends well gets its
  own reply if and only if as many requests were lost on the way before it as reads
  failed; on a wire that loses none, if and only if no read failed
  (`UsbRuns.OwnReplyExactly`, `UsbRuns.TransferOwnExactly`). Both show as negative
  results of their exchanges, but when an exchange had timed out, no call returns its
  result (`UsbRuns.LateFailureShifts`: the codes are -300 and 0).
* **A late reply can outlive its exchange** (`ra-module/usb_link.c:419-447`). A
  direct exchange (more than 128 bytes, no skip) times out, its caller clears the
  buffer and tries again, as `ra-module/main.c:795`, `1058` and `1739` do: the
  second call returns 0 with the late reply's bytes behind its own shorter reply
  (`UsbRuns.LateTailStays`). A direct exchange into a cleared buffer is exact in
  every run if and only if no unfinished exchange can still write into that buffer
  (`UsbRuns.ClearedExactly`); so it is when the wire is free, or the exchange on it
  reads into another buffer (`UsbRuns.ElsewhereExact`).
* **One chunk of the fragment index is read out of bounds**
  (`dip-plugin/frag.c:92`): the guard lets index 640 through. Over a device that
  works, `Frag_Read` does what it should for every content of the device if and only
  if none of the searches it makes skips a fragment that maps a sector of its request,
  or the request cannot be read anyway (`FragDisc.ReadExactly`). Only a search at
  index 640 can skip one (`FragTrail.StraightElsewhere`); any stray value above 0 has
  a failing list (`FragList.StrayMisses`).
* **Long names of 254 and 255 characters do not come back**
  (`fat-module/ff.c:1191-1218`): the round trip succeeds if and only if the
  length is at most 253 (`FatName.NameRoundTrip`).
* **Unsound volumes are mounted** (`fat-module/ff.c:2059-2106`): those whose system
  area wraps 32 bits (`FatMount.WrapAccepted`) and those with more clusters than
  FAT32 can number (`FatMount.LargeAccepted`); `FatMount.MountedIsValid` gives the
  exact condition on the boot sector.
* **A watchlist fetch can succeed with addresses missing**
  (`ra-module/main.c:823-831`): the list equals the concatenation of the accepted
  chunks if and only if their counts sum to at most 6144
  (`WatchlistChunk.CappedExactly`, `WatchlistFetch.List.Fetch`); seven full chunks
  are an input where it does not (`WatchlistFetch.OverlongSucceeds`).
* **A response can be parsed beyond the receive buffer**
  (`ra-module/main.c:1408-1484`): counts are checked against the list, not against
  the 2080 bytes received. Parsing depends on received bytes alone if and only if an
  append has at most 517 addresses and a removal is decided by its first 1035
  indices (`WatchlistBounds.ReceivedExactly`). An append of 518 addresses to an empty
  list (`WatchlistBounds.TooManyAddresses`) and the removal of the first 1036 entries
  (`WatchlistBounds.TooManyIndices`) are inputs where it does not.
* **Escaping is not always undone** (`cios-lib/fat_tools.c:30-95`): it is if and
  only if the string holds none of the seven sequences
  (`Escape.RoundTripExactly`).
* **Seeking never extends a file** in this build (`fat-module/ff.c:2854-2860`,
  `CIOS_D2X`): an offset behind the end is cut to the size
  (`FatFile.File.Seek`), where the stock library would extend the file.
* **History kind 3** (`ra-module/main.c:980-982`, `1624-1626`). The snapshot's
  history section is documented as the parent values the walker used
  (`ra-module/gc_ra_protocol.h:331-332`). For every node that asks for history the
  shipped value is the one its edge read if and only if the kind is not the unnamed
  third one or the parent's value has not changed (`SnapHistory.HistoryExactly`); a
  table that passes validation fails it after two walks
  (`SnapHistory.UnnamedDiffers`).
* **Byte stores after a MEM1 start** (`cios-lib/libc.c:27-145`): a range that starts
  in MEM1 and crosses its end may finish with byte stores behind MEM1
  (`WordMemory.CrossingStores`). `WordMemory.MemsetWordsExactly` and
  `WordMemory.MemcpyWordsExactly` say exactly when all stores are word stores; no
  byte store ever goes into MEM1.

## Model

| member | source | states |
|---|---|---|
| FatMount.MountedIsValid | source/fat-module/ff.c:2059-2106 | a volume `chk_mounted` accepts has a sound geometry iff, by its boot sector, the system area does not wrap 32 bits and the clusters behind it stay below the FAT32 limit; the FAT12/16 limits follow from the sub-type boundary |
| FatMount.MountedLayout | source/fat-module/ff.c:2059-2106 | when nothing wraps, the FATs start behind the reserved sectors, the root directory entries fill exactly the sectors between them and the data area, whole clusters follow it to the end, and their number decides the sub-type |
| FatMount.AcceptedExactly | source/fat-module/ff.c:2059-2106 | when nothing wraps and the clusters stay below the FAT32 limit, the boot sectors accepted are exactly those that describe a volume: sector size, one or two FATs, a power of two per cluster, root entries in whole sectors and none iff FAT32, room for a cluster, and FATs with room for every entry |
| FatMount.WrapAccepted | source/fat-module/ff.c:2059-2106 | a family of boot sectors passes every check although the data area starts before the FATs end |
| FatMount.LargeAccepted | source/fat-module/ff.c:2059-2106 | a FAT32 boot sector that wraps nowhere passes every check although its last clusters have numbers that are end marks |
| FatEntries.SetThenGet | source/fat-module/ff.c:795-890 | for each sub-type, writing an entry and reading any entry gives the value cut to 12/16/28 bits at that index and the old value elsewhere, shared FAT12 nibbles included |
| FatEntries.ReservedBitsSurvive | source/fat-module/ff.c:875-881 | a FAT32 write leaves in the reserved bits of its entry the or of the old ones and the value's; with any value below 2^28 they survive, and those of the other entries always |
| FatEntries.GetIsLittleEndian | source/fat-module/ff.c:795-828 | an entry is the little-endian value of its bytes on disk: all of it, its low 28 bits, or the upper or lower 12 bits of a shared pair |
| FatTable.TablePut | source/fat-module/ff.c:838-890 | writing an entry on disk updates exactly one element of the table of all entries |
| FatTable.TableFrame | source/fat-module/ff.c:838-890 | disks that agree on the first FAT have the same table |
| FatTable.FlatAt | source/fat-module/ff.c:808-825 | byte i of the table is byte i mod ss of the FAT sector i div ss |
| FatTable.PokeAllFlat | source/fat-module/ff.c:838-890 | byte stores into FAT sectors are stores into the flat table, across sector borders |
| FatVolume.Volume.WriteBack | source/fat-module/ff.c:695-721 | writing the window back leaves the logical disk as it is, makes the disk equal to it, and keeps equal FAT copies equal |
| FatVolume.Volume.MoveWindow | source/fat-module/ff.c:695-727 | moving the window never changes the logical disk; afterwards it shows the requested sector |
| FatVolume.Volume.Flush | source/fat-module/ff.c:695-727 | moving the window to sector 0 makes the disk the logical disk; FAT copies that were mirrored are equal on it |
| FatVolume.Volume.Store | source/fat-module/ff.c:855-886 | a store into the window is a store into the logical disk |
| FatVolume.Volume.GetFat | source/fat-module/ff.c:795-828 | the answer is the entry of the logical table, 1 outside the entry range |
| FatVolume.Volume.GetFat12 | source/fat-module/ff.c:808-814 | a FAT12 entry is read right also when it straddles two sectors |
| FatVolume.Volume.PutFat | source/fat-module/ff.c:838-890 | the logical table changes at the entry only, to the cut value; the rest of the disk is kept |
| FatVolume.Volume.PutFat12 | source/fat-module/ff.c:854-866 | the same for FAT12 entries, whose two bytes may lie in two sectors |
| FatVolume.Volume.PutFat32 | source/fat-module/ff.c:875-881 | the same for FAT32 entries with their reserved bits |
| FatVolume.Volume.FindFree | source/fat-module/ff.c:974-986 | the circular scan finds what the scan function over the table finds |
| FatChains.ScanSpec | source/fat-module/ff.c:974-986 | the scan visits every cluster once: its result is free, or no cluster is free |
| FatVolume.Volume.CreateChain | source/fat-module/ff.c:954-1003 | the new table is the allocation function of the old one; the entry of a cluster taken has every bit set, which is above every cluster number and not the bad-cluster mark; the next search starts there, an exact free count stays exact, and only the FAT copies change |
| FatVolume.EocIs | source/fat-module/ff.c:988 | the "last link" mark has every bit of an entry set: it is no cluster number and not the bad-cluster mark |
| FatChains.NearestTaken | source/fat-module/ff.c:960-986 | the cluster taken is the first free one behind the one the search starts at, going round behind the last cluster |
| FatChains.AllocateSpec | source/fat-module/ff.c:954-1003 | only a free cluster is taken, only behind a chain end; "full" means no cluster is free; "internal error" means a bad entry |
| FatChains.FullExactly | source/fat-module/ff.c:974-986 | without bad entries, allocation fails iff no cluster is free |
| FatChains.AllocConserves | source/fat-module/ff.c:988-997 | one free cluster less per cluster taken |
| FatChains.OtherChainKept | source/fat-module/ff.c:988-991 | every other chain is untouched and does not hold the new cluster |
| FatChains.CreateKeepsLive | source/fat-module/ff.c:954-1003 | a new chain joins the live ones, all still disjoint |
| FatChains.StretchKeepsLive | source/fat-module/ff.c:954-1003 | a stretched chain stays live with all others |
| FatChains.ChainAcyclic | source/fat-module/ff.c:912-940 | no chain repeats a cluster |
| FatChains.ChainUnique | source/fat-module/ff.c:912-940 | a first cluster determines its chain |
| FatChains.Remove | source/fat-module/ff.c:912-940 | removal terminates on every table, cyclic and cross-linked ones included, and frees exactly what it counts |
| FatVolume.Volume.RemoveChain | source/fat-module/ff.c:901-943 | the new table is the removal function of the old one, and an exact free count stays exact |
| FatChains.RemoveFreesChain | source/fat-module/ff.c:912-940 | removing a chain clears exactly its clusters |
| FatChains.RemoveKeepsLive | source/fat-module/ff.c:901-943 | the other live chains stay live |
| FatChains.ExactFreed | source/fat-module/ff.c:922-927 | the free counter stays exact when a cluster is freed, or unknown |
| FatChains.ExactTaken | source/fat-module/ff.c:988-997 | the free counter stays exact when a cluster is taken, or unknown |
| FatAllocator.StepConserves | source/fat-module/ff.c:901-1003 | each creation, extension and removal keeps chains live and free plus chained clusters constant |
| FatAllocator.RunConserves | source/fat-module/ff.c:901-1003 | over any run of such calls no cluster is lost or made |
| FatLayout.ClusterInData | source/fat-module/ff.c:777-787 | every cluster maps to sectors inside the data area |
| FatLayout.ClustersInRow | source/fat-module/ff.c:777-787 | cluster 2 starts the data area and every cluster stands right behind the one before it |
| FatLayout.FileByteAddress | source/fat-module/ff.c:777-787 | which byte of the device byte p of a file is: byte p mod m of the cluster p div m of its chain, clusters of m bytes lying in a row from the start of the data area |
| FatLayout.ClustersApart | source/fat-module/ff.c:777-787 | different clusters share no sector |
| FatLayout.FileSectorInjective | source/fat-module/ff.c:777-787 | different sectors of a file are different sectors of the disk |
| FatLayout.OtherFileUntouched | source/fat-module/ff.c:2450-2560 | a write keeps the chain and every byte of a file on a disjoint chain |
| FatPosition.RunMoves | source/fat-module/ff.c:2395-2411 | after a whole-sector run the position is seated in the right cluster and sector |
| FatPosition.PartMoves | source/fat-module/ff.c:2426-2433 | after a part of a sector the position is seated in the right cluster and sector |
| FatPosition.SeekLands | source/fat-module/ff.c:2864-2910 | the cluster a seek ends in is the one of the new position |
| FatFile.File.constructor | source/fat-module/ff.c:2327-2335 | a file opened on a chain that covers its size is valid at position 0 |
| FatFile.File.Read | source/fat-module/ff.c:2349-2439 | the buffer gets exactly the next bytes of the file, as many as asked or left; the logical disk is unchanged; an aborted file is refused |
| FatFile.File.ReadRun | source/fat-module/ff.c:2395-2411 | the direct multi-sector read delivers file bytes although the window may hold a newer copy of one of the sectors |
| FatFile.File.ReadPart | source/fat-module/ff.c:2426-2433 | the windowed read delivers file bytes |
| FatFile.File.Write | source/fat-module/ff.c:2450-2560 | the file becomes its old bytes with the first `*bw` bytes spliced in; `*bw` is all of them, or exactly what its own and the free clusters hold, or 0 when the size would pass 4 GB; the chain grows no further than they need; every other sector outside the FAT is kept; the file is aborted only when a search meets a bad entry, with what was written before in place and its size unchanged |
| FatFile.File.Stretch | source/fat-module/ff.c:2478-2495 | the next cluster is followed or allocated, at the cost of one free cluster; "full" only when none is free and the chain has no next one; "internal error" only on a table with a bad entry; both without effect |
| FatFile.File.PutRun | source/fat-module/ff.c:2509-2528 | the direct multi-sector write stores file bytes and keeps the window consistent |
| FatFile.File.PutPart | source/fat-module/ff.c:2530-2549 | the windowed write stores file bytes, without reading a sector behind the end of the file |
| FatFile.File.Seek | source/fat-module/ff.c:2850-2937 | the position becomes the offset, cut to the size of the file; nothing on the disk changes |
| FatFile.File.SeekForward | source/fat-module/ff.c:2864-2925 | the cluster walk ends in the cluster of the position it reached |
| FatWrite.WroteTwice | source/fat-module/ff.c:2474-2554 | two writes side by side are one write |
| FatWrite.WroteSplices | source/fat-module/ff.c:2474-2556 | byte-wise stores make the contents the spliced sequence |
| FatWrite.AllocForFile | source/fat-module/ff.c:2478-2491 | what `create_chain` answers behind the k-th cluster of a file, on any table |
| FatWrite.WroteAlloc | source/fat-module/ff.c:2478-2490 | a fresh cluster lengthens the file's chain and keeps its bytes |
| FatWrite.AllocSpends | source/fat-module/ff.c:954-1003 | the cluster behind the k-th one costs nothing when it is there and one free cluster when it is new |
| FatWrite.WriteIsExact | source/fat-module/ff.c:2474-2554 | a write that stops early without a bad entry has filled its own and all free clusters, so the count is exact |
| FatWrite.WriteIsWithin | source/fat-module/ff.c:2474-2554 | no write takes more than its own and the free clusters hold |
| FatWrite.DataKeeps | source/fat-module/ff.c:2509-2549 | stores behind the FATs leave the table and the equality of the FAT copies alone |
| FatSession.OtherKept | source/fat-module/ff.c:2450-2560 | a write to one file keeps every other one valid with the same bytes |
| FatSession.Perform | source/fat-module/ff.c:2349-2937 | one call has the outcome of the abstract call on its own byte sequence, cluster count and the free clusters, or is a write that broke off on a bad entry |
| FatSession.Serve | source/fat-module/ff.c:2349-2937 | beside any number of other open files, which all show what they showed before |
| FatSession.Session | source/fat-module/ff.c:2349-2937 | any interleaving of `f_lseek`, `f_read` and `f_write` on any number of files gets only legitimate replies and ends in the state they lead to; without bad entries that is exactly the run of the byte sequences; equal FAT copies stay equal and an exact free count exact |
| FatSession.CleanRun | source/fat-module/ff.c:2349-2937 | without bad entries legitimate replies and their end are those of the byte sequences |
| FatName.FitLfn | source/fat-module/ff.c:1224-1249 | an entry holds its thirteen characters, the terminator and the padding |
| FatName.FittedBytes | source/fat-module/ff.c:1156 | where each of the thirteen characters stands in an entry: from offsets 1, 14 and 28 on, low byte first |
| FatName.PickLfn | source/fat-module/ff.c:1191-1219 | an entry is accepted iff it is well formed for the buffer, and then its characters are stored |
| FatName.FittedAccepted | source/fat-module/ff.c:1191-1249 | which fitted entries are accepted back |
| FatName.StoreName | source/fat-module/ff.c:1500-1513 | the entries written for a name, last first |
| FatName.NameRoundTrip | source/fat-module/ff.c:1191-1249 | a name of 1 to 255 characters is reassembled unchanged iff it has at most 253 |
| Crc.Crc32 | source/ra-module/main.c:505-515 | the loop computes the CRC-32 of section 8 of RFC 1952 as a linear register fed byte by byte |
| Crc.KnownChecksums | source/ra-module/main.c:505-515 | the checksums of the empty message and of the letter a |
| Crc.RegisterPack | source/ra-module/main.c:505-515 | feeding up to four bytes is feeding their packed word and stepping |
| Crc.BurstDetected | source/ra-module/main.c:505-515 | payloads that differ only inside four consecutive bytes have different checksums |
| ChainChunk.CorruptionRejected | source/ra-module/main.c:1075-1082 | a genuine chunk corrupted inside four consecutive payload bytes, other than those of its node count, never passes the checksum test |
| ChainChunk.GenuineTable | source/ra-module/main.c:1091-1104 | joined genuine chunks fit the table, use known operations and have parents at earlier slots |
| ChainChunk.HeaderBytes | source/ra-module/main.c:1062-1069 | which bytes of a reply the header checks look at, as big-endian numbers, and when they pass |
| ChainChunk.NodeFields | source/ra-module/gc_ra_protocol.h:482-487 | a node is eight bytes: big-endian operand and parent, operation byte, edge byte |
| ChainChunk.FitIs | source/ra-module/main.c:1091-1103 | a node passes validation iff its parent is none or an earlier slot and its operation code is one of 6 to 17 |
| ChainChunk.KnownSeal | source/ra-module/main.c:1075-1082 | the trailer is the big-endian checksum: that of the letter a |
| ChainLists.ShipsExactly | source/ra-module/main.c:1147-1150 | the ship list is the flagged slots, in increasing order |
| ChainLists.PairsExactly | source/ra-module/main.c:1164-1184 | the verification list holds each (parent, kind) pair an edge asks for, once |
| ChainLists.AsksIs | source/ra-module/main.c:1164-1184 | an edge asks for history iff its kind is not 0 and it has a parent, and its pair is that parent and kind |
| ChainLists.PairsInOrder | source/ra-module/main.c:1164-1184 | pairs stand in the order they are first met |
| ChainFetch.Table.FetchChunk | source/ra-module/main.c:1041-1107 | accepted iff the reply is genuine; the accepted prefix is untouched either way |
| ChainFetch.Table.Validate | source/ra-module/main.c:1091-1104 | zero iff every node fits its slot |
| ChainFetch.Table.FetchRetrying | source/ra-module/main.c:1122-1133 | the chunk is the first acceptable answer of three; it fails only if none is, and then nothing that counts has changed |
| ChainFetch.Table.FetchNodes | source/ra-module/main.c:1111-1146 | the nodes are the concatenation of genuine chunks 0, 1, ..., each the first acceptable answer for its index, whatever retries occurred; the fetch fails only when a chunk is lost |
| ChainFetch.Table.BuildShips | source/ra-module/main.c:1147-1150 | the array holds the ship list |
| ChainFetch.Table.BuildPairs | source/ra-module/main.c:1164-1184 | the arrays hold the pair list, refused iff it has more than 128 entries |
| ChainFetch.Table.Fetch | source/ra-module/main.c:1111-1184 | the table is in use iff no chunk was lost and the pairs fit; then table and lists are as specified |
| ChainTable.XformBytes | source/ra-module/main.c:890-904 | in terms of memory bytes, a size code keeps the first 1 to 4, and the big-endian codes read them the other way round |
| ChainTable.NodeBytes | source/ra-module/gc_ra_protocol.h:482-486 | operation, read width, shipped flag, transform and history kind add up to the two bytes of a node |
| ChainTable.CombineMeans | source/ra-module/main.c:904-918 | each operation obeys its law: and/xor bit by bit, sums and differences up to one wrap, the product as a remainder of 2^32, quotient and remainder by their bounds with 0 for a zero divisor |
| ChainTable.BitWeighs | source/ra-module/main.c:904-918 | the bits those laws speak of are the binary digits |
| ChainTable.AddrOkExactly | source/ra-module/main.c:937-944 | a read is allowed iff each of its bytes is game memory, wrap-around excluded |
| ChainTable.SetBit | source/ra-module/main.c:1015-1018 | one bit of the bitmap changes, all others stay |
| ChainMeaning.PackedIsLittleEndian | source/ra-module/main.c:995-997 | a loaded value is the little-endian value of the bytes at the address |
| ChainMeaning.NodeMeans | source/ra-module/gc_ra_protocol.h:467-479 | what a node is worth, without naming the walker: its operand, the little-endian value at operand plus parent value on 32 bits, or the two combined by the law of its operation |
| ChainMeaning.RawAt | source/ra-module/gc_ra_protocol.h:469-473 | the bytes loaded are the consecutive bytes of memory from the address on |
| ChainMeaning.NodeReads | source/ra-module/main.c:989-1002 | a node reads game memory only, whatever address was computed |
| ChainMeaning.Logged | source/ra-module/main.c:957-1021 | so does a whole walk |
| ChainMeaning.InvalidDescends | source/ra-module/main.c:974-978 | below an invalid node everything is invalid, reads nothing, and is 0 unless an immediate |
| ChainMeaning.PriorIsLastDifferent | source/ra-module/main.c:1009-1012 | the prior value is the latest earlier value that differs from the current one |
| ChainMeaning.OnlyGameMatters | source/ra-module/main.c:957-1021 | bytes outside game memory never influence values, validity or history |
| ChainWalk.Walker.constructor | source/ra-module/main.c:1156-1163 | the state after a fetch is the meaning before the first walk, for every run |
| ChainWalk.Walker.ReadByte | source/ra-module/main.c:1332-1345 | a byte outside game memory reads as 0 and is not dereferenced |
| ChainWalk.Walker.ReadValue | source/ra-module/main.c:994-998 | the loop loads the value and dereferences exactly its bytes |
| ChainWalk.Walker.Follow | source/ra-module/main.c:974-985 | an edge resolves, and delivers, as the recursive meaning says, for current, previous and prior values |
| ChainWalk.Walker.Evaluate | source/ra-module/main.c:987-1006 | value and validity of a node are those of the recursive meaning |
| ChainWalk.Walker.Visit | source/ra-module/main.c:965-1019 | a node passes from walk n - 1 to walk n, all others stay |
| ChainWalk.Walker.Walk | source/ra-module/main.c:957-1021 | after the n-th walk of any run, values, previous values, prior values and both bitmaps are the recursive meaning of walk n |
| SnapWindow.WindowIsGreatest | source/ra-module/main.c:1571-1582 | the window fits the room left and could not be one slot longer |
| SnapWindow.WindowIsLong | source/ra-module/main.c:1566-1582 | a window that stops short of the end has at least 363 slots |
| SnapWindow.Room | source/ra-module/main.c:1566-1570 | the room never underflows and all sections together fill the budget exactly |
| SnapWindow.RoundEnds | source/ra-module/main.c:1566-1584 | from cursor 0 the windows reach the last slot and the cursor returns to 0 within nine snapshots, however list and budgets vary |
| SnapWindow.ShownOnce | source/ra-module/main.c:1566-1584 | in a round every shipped slot is in exactly one window |
| SnapPacket.RoundTrip | source/ra-module/main.c:1509-1641 | decoding the encoded packet with the documented layout returns the snapshot |
| SnapPacket.BeIsBig | source/ra-module/gc_ra_protocol.h:311-337 | the numbers of the packet are big-endian |
| Snapshot.FetchedIsSound | source/ra-module/main.c:1147-1184 | a fetched table with its lists meets what the snapshot code indexes |
| Snapshot.LowFits | source/ra-module/main.c:1600-1602 | the shipped bytes of a leaf are its low bytes, all of it when it fits its width |
| Snapshot.LowIsRemainder | source/ra-module/main.c:1600-1602 | the shipped bytes of a leaf are its value modulo 256 to the power of its width |
| Snapshot.DerefFits | source/ra-module/main.c:989-1002 | a dereferenced value always fits its width |
| Snapshot.SnapFits | source/ra-module/main.c:1509-1641 | every snapshot can be sent: fields fit, the packet stays within the budget |
| Snapshot.PacketDecodes | source/ra-module/main.c:1509-1641 | the packet of every state decodes to its snapshot |
| Snapshot.SnapMeans | source/ra-module/main.c:1509-1641 | after walk n the snapshot holds the frame and sequence numbers, the memory byte of each listed game address (0 for any other), and the validity, leaf, history and resolved values of the recursive meaning of walk n |
| Snapshot.FlatAllMeant | source/ra-module/main.c:1332-1345 | the flat section has a byte per listed address: what memory holds where that is game memory, 0 elsewhere |
| Snapshot.SnapShowsWindow | source/ra-module/main.c:1566-1584 | the k-th snapshot of a round shows the k-th window of the rotation and leaves the cursor at the next one |
| Snapshot.Sender.Choose | source/ra-module/main.c:1571-1584 | the greedy loop finds the window and moves the cursor behind it |
| Snapshot.Sender.WriteWindow | source/ra-module/main.c:1583-1604 | bitmap and leaf bytes are written, and nothing around them |
| Snapshot.Sender.WritePast | source/ra-module/main.c:1615-1633 | history values and their bitmap are written, and nothing around them |
| Snapshot.Sender.Build | source/ra-module/main.c:1509-1641 | the transmit buffer holds the encoded snapshot, within the budget, and the cursor is the next window's start; behind the header stands, for each listed address, the memory byte there, or 0 outside game memory |
| SnapHistory.HistoryExactly | source/ra-module/main.c:1612-1634 | every asking node has its pair in the section, and the shipped value is the one its edge read at that walk iff the kind is a named one or the parent has not changed |
| SnapHistory.UnnamedDiffers | source/ra-module/main.c:1612-1634 | two walks over a validated table after which the edge read 2 and the section ships 1 |
| WatchlistLog.KeptIsWithout | source/ra-module/main.c:1466-1480 | one pass over ascending indices removes exactly those entries and keeps the order of the others |
| WatchlistLog.ApplyFits | source/ra-module/main.c:1408-1484 | a mutation keeps the list within its capacity; a removal shortens it by the number of indices |
| WatchlistLog.FoldFits | source/ra-module/main.c:1408-1484 | no prefix of a sender's log overflows the list |
| WatchlistReplica.OutOfSequence | source/ra-module/main.c:1417-1419 | a mutation out of sequence changes nothing |
| WatchlistReplica.NextApplies | source/ra-module/main.c:1408-1484 | the mutation next in sequence is applied in full |
| WatchlistReplica.DeliveryKeeps | source/ra-module/main.c:1380-1484 | any delivery less than 65536 numbers off, queries included, keeps the replica what its history says: the next mutation is applied, every other one dropped |
| WatchlistReplica.RunKeeps | source/ra-module/main.c:1380-1484 | over any run with loss, repetition and reordering, from any base number, list and sequence number name the same point of the log: the list is the log up to that number, with the queries where they came |
| WatchlistReplica.AskingGrows | source/ra-module/main.c:1380-1407 | a query is kept for the answer and appended to the list if there is room |
| WatchlistReplica.PlayIsFold | source/ra-module/main.c:1408-1484 | without queries the list is the fold of the log |
| WatchlistReplica.Watchlist.Parse | source/ra-module/main.c:1357-1502 | the new state is the parse function of the old one and the received bytes, for every event |
| WatchlistReplica.ParsedElse | source/ra-module/main.c:1380-1501 | what a response does besides the list: an update sets the resync flag and takes the number in bytes 10 and 11, a query of 1 to 512 addresses replaces the pending ones, an achievement starts the celebration, nothing else touches these |
| WatchlistReplica.AppendBytes | source/ra-module/main.c:1415-1430 | the bytes of an append: event 11, big-endian number, count and addresses |
| WatchlistReplica.RemoveBytes | source/ra-module/main.c:1460-1482 | the bytes of a removal: event 14, big-endian number, count and indices |
| WatchlistReplica.QueryBytes | source/ra-module/main.c:1380-1388 | the bytes of a query: event 10, big-endian count and addresses |
| WatchlistReplica.CompactArray | source/ra-module/main.c:1466-1480 | the in-place pass leaves the kept entries at the front |
| WatchlistBounds.ReceivedExactly | source/ra-module/main.c:1357-1484 | a response is parsed from the 2080 received bytes alone iff an append fits them and a removal looks at no index behind them |
| WatchlistBounds.StaysDetermines | source/ra-module/main.c:1357-1484 | buffers that agree on the received bytes are parsed alike when the parser stays inside |
| WatchlistBounds.LongRemove | source/ra-module/main.c:1466-1480 | a removal that looks further depends on bytes that were not received |
| WatchlistBounds.TooManyAddresses | source/ra-module/main.c:1408-1431 | an append of 518 addresses is parsed from bytes that were not received |
| WatchlistBounds.TooManyIndices | source/ra-module/main.c:1452-1480 | so is a removal of the first 1036 entries |
| WatchlistChunk.CappedExactly | source/ra-module/main.c:821-829 | the list holds every address of its chunks iff their counts sum to at most 6144; otherwise the first 6144 |
| WatchlistChunk.CappedTwice | source/ra-module/main.c:821-829 | cutting the list chunk by chunk is cutting the concatenation once |
| WatchlistChunk.DamageRejected | source/ra-module/main.c:806-817 | a chunk corrupted inside four consecutive payload bytes, other than those of its count, never passes the checksum test |
| WatchlistChunk.ChunkBytes | source/ra-module/main.c:799-828 | which bytes of a reply the header checks look at and when they pass, and where its addresses stand |
| WatchlistFetch.List.FetchOnce | source/ra-module/main.c:776-832 | fails iff the answer is not a proven chunk of this index, and then list and count are untouched; otherwise it appends what there is room for |
| WatchlistFetch.List.FetchChunk | source/ra-module/main.c:837-849 | the chunk is the first acceptable answer of three; it fails only if none is, with list and count untouched |
| WatchlistFetch.List.Fetch | source/ra-module/main.c:852-875 | the list is the first 6144 addresses of the proven chunks 0, 1, ..., each the first acceptable answer for its index; 0 iff the last of them says so; otherwise a chunk was missed, or 32 came and the code is -200 |
| WatchlistFetch.OverlongSucceeds | source/ra-module/main.c:821-832 | a fetch of seven full chunks returns 0 and keeps 6144 of 7168 addresses |
| WatchlistFetch.Resync | source/ra-module/main.c:1753-1764 | the announced number is taken over with a complete list only; a failed fetch leaves what it got under the old number |
| UsbExchange.Framed | source/ra-module/usb_link.c:415-417 | no message is a multiple of 64 bytes, and the request is its prefix |
| UsbExchange.ResultIs | source/ra-module/usb_link.c:190-197 | an exchange ends well iff its request went out in full and its reply was read; otherwise the request's failure comes before the reply's |
| UsbExchange.WindowIs | source/ra-module/usb_link.c:438-446 | a window of len bytes behind the first skip: that part of the reply, byte by byte, and zeros behind its end |
| UsbBus.OverlayIs | source/ra-module/usb_link.c:22-25 | a reply lands in front of the old bytes of its buffer |
| UsbBus.LineKept | source/ra-module/usb_link.c:22-25 | whatever happens on the wire, a failed read included, the answers stay in a line: one per request the adapter got, in order |
| UsbBus.TrackedKept | source/ra-module/usb_link.c:22-25 | every request of the host was heard, was lost or is on its way, and the adapter numbers it by the requests lost before it |
| UsbBus.HistoryKept | source/ra-module/usb_link.c:22-25 | requests, answers and their numbers are never rewritten |
| UsbState.StepKept | source/ra-module/usb_link.c:202-280 | at most one read and one request are in flight, those of the current exchange, and every exchange so far has taken one answer or failed to |
| UsbState.EventKeeps | source/ra-module/usb_link.c:202-280 | no event disturbs the link's state or a reply that waits to be reaped |
| UsbState.CompletionKeeps | source/ra-module/usb_link.c:232-239 | a completed exchange leaves the wire with its result; it got the answer as many requests back as reads had failed before it |
| UsbState.DrainedKeeps | source/ra-module/usb_link.c:213-230 | the loop keeps the state sound and the same exchange on the wire; at most the next answer in line lands, in that exchange's buffer |
| UsbState.DrainedTakes | source/ra-module/usb_link.c:213-226 | the wait takes a prefix of the events, and only its own token, as the last one, ends it early |
| UsbState.StaleIgnored | source/ra-module/usb_link.c:222-225 | a token of an earlier wait makes no difference, wherever it comes |
| UsbState.WaitsKeeps | source/ra-module/usb_link.c:202-241 | a wait leaves the same exchange on the wire, or completed with its own result and the next answer in line |
| UsbState.TouchKeeps | source/ra-module/main.c:795 | the host may write into any buffer but that of an open post, one a timed-out exchange still reads into included |
| UsbTransfer.TransfersKeeps | source/ra-module/usb_link.c:394-448 | from any sound state and under any script: 0 only when this request was answered and the next answer in line was delivered, as the window or over stated contents; any other outcome is accounted for; a posted reply, other buffers and recorded results are kept |
| UsbTransfer.TransferHands | source/ra-module/usb_link.c:394-448 | an exchange that returns 0 leaves byte skip + j of the reply at place j of the caller's buffer: the whole part asked for when the reply is long enough, and zeros behind its end when it came through the bounce buffer |
| UsbTransfer.FitsExactly | source/ra-module/usb_link.c:407-427 | which buffers an exchange can use: the bounce buffers, or the caller's where alignment and page crossings allow |
| UsbTransfer.PostsKeeps | source/ra-module/usb_link.c:450-470 | the code is determined by link, buffers and bus; 0 means the request is in flight and the post open |
| UsbTransfer.ReapsKeeps | source/ra-module/usb_link.c:472-486 | an open post stays open, or ends once with the result of its own exchange and the answer that exchange got in its buffer |
| UsbRuns.OwnReplyExactly | source/ra-module/usb_link.c:22-25 | of all exchanges that ended well, exactly those got their own reply before which as many requests were lost as reads failed |
| UsbRuns.TransferOwnExactly | source/ra-module/usb_link.c:394-448 | a blocking exchange that returns 0 brought its own reply iff as many requests were lost so far as reads failed |
| UsbRuns.FailedReadShifts | source/ra-module/usb_link.c:202-241 | a call whose read fails returns that code, and the next one returns 0 with the reply to the request before |
| UsbRuns.LossMakesUp | source/ra-module/usb_link.c:202-241 | when the request was lost too, the next call gets its own reply |
| UsbRuns.LateFailureShifts | source/ra-module/usb_link.c:394-448 | the same after a timeout: the codes are -300 and 0 |
| UsbRuns.LateTailStays | source/ra-module/usb_link.c:394-448 | a direct exchange times out, the caller clears the buffer, and the second call returns 0 with bytes of the late reply behind its own |
| UsbRuns.ClearedExactly | source/ra-module/usb_link.c:394-448 | a direct exchange into a cleared buffer leaves the reply and nothing else in it in every run iff no unfinished exchange can still write into that buffer |
| UsbRuns.DirectExactly | source/ra-module/usb_link.c:419-447 | a direct delivery is the exact window iff the buffer held zeros behind the reply |
| UsbRuns.ServesCourse | source/ra-module/usb_link.c:407-447 | an exchange whose adapter answers returns 0 with the answer next in line |
| UsbRuns.ElsewhereExact | source/ra-module/usb_link.c:394-448 | over a free wire, or one whose exchange reads into another buffer, a direct exchange into a cleared buffer is exact in every run |
| UsbLink.Link.Drain | source/ra-module/usb_link.c:213-226 | the receive loop ends where the event function does: both completions, its own timer token, or no more messages |
| UsbLink.Link.Wait | source/ra-module/usb_link.c:202-241 | the outcome and the new state are those of the wait function; 0 exactly when the wire is free, a timeout leaves the exchange on the wire |
| UsbLink.Link.Start | source/ra-module/usb_link.c:246-280 | refused while dead or busy; otherwise one read and one request are in flight, or the link is dead |
| UsbLink.Link.Stage | source/ra-module/usb_link.c:407-417 | the request is the caller's bytes, framed, in the bounce buffer or in place |
| UsbLink.Link.CopyOut | source/ra-module/usb_link.c:438-446 | the caller gets bytes [skip, skip + rx_len) of what the bounce buffer received, zeros past its end: place j holds byte skip + j |
| UsbLink.Link.RoundTrip | source/ra-module/usb_link.c:429-437 | start, wait and result are those of the round-trip function |
| UsbLink.Link.Xfer | source/ra-module/usb_link.c:394-448 | new state, code and events left are those of the transfer function, with everything `TransfersKeeps` promises; a call that returns 0 leaves byte skip + j of the reply at place j of the caller's buffer |
| UsbLink.Link.Post | source/ra-module/usb_link.c:450-470 | new state and code are those of the post function, with everything `PostsKeeps` promises |
| UsbLink.Link.Reap | source/ra-module/usb_link.c:472-486 | new state and code are those of the reap function, with everything `ReapsKeeps` promises |
| UsbLink.Link.Elapse | source/ra-module/usb_link.c:22-25 | the wire may move between calls without breaking the state |
| UsbLink.Link.Fill | source/ra-module/main.c:795 | the host writes into a buffer, also one in flight, without breaking the state |
| UsbPipeline.Console.Collect | source/ra-module/main.c:1678-1692 | a successful snapshot reply is parsed once, in order, when its exchange ends: the answer that exchange got and zeros behind it, its own iff as many requests were lost before as reads failed |
| UsbPipeline.SucceededIs | source/ra-module/main.c:1678-1692 | the replies that were parsed are those of the posts whose result was 0, and no others |
| UsbPipeline.Console.Round | source/ra-module/main.c:1700-1747 | a blocking exchange between snapshots keeps the books; on 0 its request was sent and answered, and its cleared buffer is exact unless a timed-out exchange could still write into it |
| UsbPipeline.Console.Debug | source/ra-module/main.c:430-454 | a logged message may go out while a snapshot is open: the open post stays, completed if the message got through, and a reply that waits is untouched |
| UsbPipeline.Console.Snapshot | source/ra-module/main.c:1642-1656 | the next snapshot goes on the wire iff link, wire and bus allow it |
| UsbPipeline.Console.Answer | source/ra-module/main.c:2029-2034 | address rounds go out while addresses are pending, at most twelve, and stop early only when none is |
| UsbPipeline.Console.Resync | source/ra-module/main.c:1753-1764 | any number of chunk requests and log lines keep the books between two snapshots |
| UsbPipeline.Console.Fire | source/ra-module/main.c:2025-2037 | while the last snapshot is in flight the turn is skipped; a new one goes out only after every successful reply before it was parsed and the addresses asked for were sent or twelve rounds made |
| FragList.GetNumBits | source/dip-plugin/frag.c:51-60 | the least number of bits, at least one, that hold the value |
| FragList.BitsOfSize | source/dip-plugin/frag.c:51-60 | for a power of two minus one, the exponent |
| FragList.ScanSkips | source/dip-plugin/frag.c:91-97 | starting behind fragments that end before the offset changes nothing |
| FragList.ScanTells | source/dip-plugin/frag.c:97-133 | an answer gives the gap and the device run at the offset, moves forward, and "out of range" means nothing is mapped and the request leaves the disc |
| FragList.StartExactly | source/dip-plugin/frag.c:91-97 | a search from an entry is right iff it skips no fragment that bears on the request |
| FragList.StrayMisses | source/dip-plugin/frag.c:91-97 | at index 640 any stray value above 0 has a list on which a mapped sector reads as zeros |
| FragReader.Reader.constructor | source/dip-plugin/frag.c:62-76 | the index is filled so that fragments before an entry end before its chunk |
| FragTrail.StraightTrue | source/dip-plugin/frag.c:142-189 | when no search of a sector read is misled, success delivers every sector from its true place, whatever the device fails |
| FragTrail.CrookedWrong | source/dip-plugin/frag.c:142-189 | when one is, success delivers zeros for a mapped sector |
| FragTrail.SuccessReadable | source/dip-plugin/frag.c:123-133 | misled or not, a sector read succeeds only on a run that lies on the disc or ends on a mapped sector |
| FragTrail.TrailExactly | source/dip-plugin/frag.c:81-189 | over a working device a sector read of such a run is right iff none of its searches is misled |
| FragTrail.StraightElsewhere | source/dip-plugin/frag.c:91-97 | only searches in the one chunk right behind the index can be misled |
| FragDisc.TruthDelivered | source/dip-plugin/frag.c:142-189 | sectors from their true places are the bytes of the disc |
| FragDisc.DiscByteAddress | source/dip-plugin/frag.c:97-120 | which byte of the device a mapped byte of the disc is |
| FragDisc.OnDiscServed | source/dip-plugin/frag.c:300-341 | every request within the disc is cut into pieces that can be read |
| FragDisc.StraightRead | source/dip-plugin/frag.c:300-341 | a read that succeeds brings bytes [b, b+len) of the disc when its searches are straight, whatever the device fails |
| FragDisc.PiecesCode | source/dip-plugin/frag.c:300-341 | over a working device the code is 0 or -2 |
| FragDisc.PiecesLegible | source/dip-plugin/frag.c:300-341 | misled or not, a read succeeds only when each of its pieces can be read |
| FragDisc.ReadExactly | source/dip-plugin/frag.c:300-341 | over a working device, for every content of it, a read brings the bytes of the disc, or -2 where a piece cannot be read, iff no search it makes is misled or a piece cannot be read |
| FragReader.Reader.Get | source/dip-plugin/frag.c:81-139 | the search through the index is a scan of the whole list, but for the chunk behind the index, where it starts at the stray entry |
| FragReader.Reader.ReadSect | source/dip-plugin/frag.c:142-189 | code and buffer are those of the trail of its searches, for every offset and whatever the device fails; -4 is unreachable |
| FragReader.Reader.ReadPartial | source/dip-plugin/frag.c:192-227 | the piece up to the end of the sector at most, and nothing around it |
| FragReader.Reader.Read | source/dip-plugin/frag.c:300-341 | code and buffer are those of its three pieces one after the other, whatever the device fails, and nothing around them changes; -5 is unreachable |
| Escape.EscapedAllowed | source/cios-lib/fat_tools.c:30-57 | escaped names hold none of the seven forbidden characters |
| Escape.SequencesAre | source/cios-lib/fat_tools.c:39-48 | the sequence of each of the seven characters |
| Escape.EscapeIsInvisible | source/cios-lib/fat_tools.c:30-95 | unescaping an escaped string is unescaping the string |
| Escape.UnescapedExactly | source/cios-lib/fat_tools.c:62-95 | unescaping leaves a string alone iff it holds no sequence |
| Escape.RoundTripExactly | source/cios-lib/fat_tools.c:30-95 | unescape undoes escape iff the string holds none of the seven sequences |
| Escape.EscapeInjective | source/cios-lib/fat_tools.c:30-57 | on such strings escape is injective |
| Escape.FatEscape | source/cios-lib/fat_tools.c:30-57 | the buffer holds the escaped string and its terminator |
| Escape.FatUnescape | source/cios-lib/fat_tools.c:62-95 | the buffer holds the unescaped string in place, terminated, and its length is returned |
| WordMemory.Ram.PatchByte | source/cios-lib/libc.c:12-17 | the read-modify-write changes one byte by one aligned word store |
| WordMemory.Ram.MemsetInner | source/cios-lib/libc.c:7-25 | a byte-wise fill, and the stores it takes, in order: words around each byte for a start in MEM1, bytes otherwise |
| WordMemory.Ram.Memset | source/cios-lib/libc.c:27-62 | the byte-wise fill for every alignment and size, and the stores it takes, in order; word stores aligned, byte stores behind MEM1 only |
| WordMemory.Ram.Memcpy | source/cios-lib/libc.c:64-145 | the byte-wise copy of non-overlapping buffers for every alignment and size, and the stores it takes, in order; word stores aligned, byte stores behind MEM1 only |
| WordMemory.MemsetWordsExactly | source/cios-lib/libc.c:27-62 | memset stores whole words only iff its single bytes at either end, if any, start in MEM1 |
| WordMemory.MemcpyWordsExactly | source/cios-lib/libc.c:64-145 | memcpy does iff the bytes it stores singly, if any, start in MEM1: the last ones, or all of an unaligned copy |
| WordMemory.InsideMem1 | source/cios-lib/libc.c:7-145 | a range inside MEM1 is stored by words only |
| WordMemory.MemsetRises | source/cios-lib/libc.c:27-62 | the stores of memset go up through memory and stay inside the words of the range |
| WordMemory.MemcpyRises | source/cios-lib/libc.c:64-145 | so do those of memcpy |
| WordMemory.CrossingStores | source/cios-lib/libc.c:27-145 | five bytes from the last word of MEM1 on take a word store and a byte store |

## Left out

- Disk I/O errors: sector transfers always succeed; `create_chain` would read an error on the stretched cluster as the end of the chain (ff.c:968-971).
- Directories and paths of the FAT engine: `f_open`, `dir_find`, short names, `f_sync` and the FSInfo sector; a file starts from its chain and size.
- FatFile.File.Read: a single caller's buffer is filled round by round; the buffer may not be the window.
- FatVolume.Volume.GetFat: the value answered for a disk error (0xFFFFFFFF) does not occur.
- FatName.NameRoundTrip: code units are opaque 16-bit values; the short-name checksum, upper-casing and the directory slots are not modelled.
- FatSession.Session: at which byte a write meets a bad entry depends on the cluster numbers and is only bounded; what `f_sync` would do with a file aborted that way is not modelled.
- WatchlistReplica.RunKeeps: the sender's side of a query, which appends on receipt of the answer, and the resync that follows a count mismatch; a run starts from any list and number a resync left.
- ChainFetch.Table.Fetch: that the fetched nodes are all `total_nodes` of the table is not checked by the code and not claimed.
- ChainWalk.Walker.Walk: the table is loaded once; the code does not clear the validity bitmap on a second fetch.
- Snapshot.Sender.Build: the USB budget of 8191 bytes; the EXI build has one byte more. The frame and sequence numbers are parameters.
- UsbLink.Link.Xfer: a request is lost only when its transfer reports an error; a reply longer than its read never lands; link discovery (`ra_usb_init`) is a flag, cache maintenance has no effect.
- FragReader.Reader.Read: fragments are sorted and disjoint, the request stays within 32-bit word addresses, and what lies behind the index is one fixed value.
- UsbPipeline.Console.Fire: what a reply asks for, the text of each message and the chunk requests of a resync are parameters; the LED and timing code around the turn is not modelled.
- Escape.FatEscape: the caller provides room for the escaped string.
- WordMemory.Ram.Memcpy: overlapping buffers, which the C contract excludes.
- Firmware patches, IPC loops, EXI and SWI access, SD and USB storage drivers, ES/FFS/DIP command switches, LED and debug messages: plumbing without a property of its own.
