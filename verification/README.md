# DekOS, verified

A Dafny model of the parts of the DekOS kernel that do not depend on the hardware beneath them, with proofs of
what they promise.  Hardware is plain state: a disk is a sequence of sectors, memory an array of bytes, the screen
an array of pixels, an interrupt a step.  Code that updates state in place is modelled by classes, arrays and loops,
each method tied to a function of the state before the call; the laws are then proved about those functions, for all
inputs and for all runs.

* **FAT32 store** (`Fat*.dfy`, `Drive.dfy`, `Storage*.dfy`, `FormattedVolume.dfy`, `NamedVolume.dfy`): boot record
  geometry, mirrored table updates, chain building, directory scan and insertion, whole-file read, path walks. Main
  results: a file that is written under a new name reads back byte for byte (`StorageLaws.WriteReadRoundTrip`,
  `StorageLaws.WriteThenRead`), and every other chain, its data and every other name stay (`FatLaws.OtherFilesKept`,
  `FatLaws.OtherNamesLocated`), so that every other path still reads as it did (`StorageSeparation.OtherPathKept`).
  The format is that of Microsoft's "FAT: General Overview of On-Disk Format", sections "FAT Data Structure" and "FAT
  Type Determination".
* **Resource tree** (`ResourceTree.dfy`, `Resources.dfy`): a heap-linked tree under creation, unlinking, release and
  hand-over, and a depth-bounded search that is exact.
* **ELF relocator** (`Elf*.dfy`): System V gABI chapter 4 "Relocation" and the Intel386 psABI chapter 4 "Relocation
  Types".  Every site ends as S+A or S+A-P of the file's own words, and a load moves with its address.
* **Bounded formatter** (`Format.dfy`, `FormatSpelling.dfy`, `FormatStandard.dfy`, `Printf.dfy`): an imperative format
  interpreter that refines a pure renderer, a parser that undoes every spelling of a directive, and the exact set of
  directives on which the renderer keeps to section 7.21.6.1 of ISO/IEC 9899:2011.
* **Window compositor** (`Pictures.dfy`, `Gdi2.dfy`, `Background.dfy`, `Composition.dfy`, `Compositor.dfy`,
  `PrimaryProcess.dfy`): clipped save, blit, restore and commit; from the initial draw on, after any number of turns of
  the process, the front buffer shows the windows over the bare background (`PrimaryProcess.WM_2_PrimaryProc`).
  Blending is a parameter, any function of two pixels.
* **Scheduler and messages** (`Inbox.dfy`, `Scheduler*.dfy`, `ProcessTable.dfy`): the process table as a state machine
  with fairness, register isolation and first-in first-out messages over whole runs.  The number of slots and the
  inbox size are parameters.
* **Bitmap heap** (`HeapBits.dfy`, `Heap.dfy`): first fit, exact release, and disjoint live blocks over any run.
* **Font tool chain** (`Font*.dfy`): convert, print, search, parse, write, load and draw, across two languages,
  composed in `FontChain.BuildFont`.

`Arith.dfy` and `Bytes.dfy` hold the arithmetic and the little-endian words the rest uses.

## What the proofs found

Where a promise does not hold of the code, the code is modelled as it is and the exact condition is proved.

* A packed directory slot loses the cluster number's high half: unpacking gives it back if and only if the cluster is
  below 65536 (`FatLookup.PackFits`).  Above that the entry goes into the cluster that is left of the number, or, when
  nothing is left of the whole place, the write answers that the directory is full (`Storage.IDEWriteFile`,
  `Storage.PackedPlace`).
* The count of bytes left in `FatRead` is unsigned and keeps falling: copying passes the end of the block if and only
  if the file ends before the last sector of its last cluster (`FatRead.ReadChain`).  With one sector to a cluster it
  never does (`StorageLaws.SingleSectorClusters`); with two, a file of one byte is enough
  (`FormattedVolume.WideOverruns`).  An empty file, whose entry names cluster 0, is no exception: the
  loop reads one pseudo-cluster in front of the data area, and copies past the block if and only if a cluster has more
  than one sector (`FatRead.EmptyTrail`).
* A name with more than eight characters before its dot gets the ninth and the two after it as its extension, and what
  stands behind the dot is lost (`FatDirectory.LongName`).
* A path that ends at a directory is looked up inside that directory once more; when nothing is found there it reads as
  an empty file, not as a missing one (`Storage.DirectoryReadsEmpty`; on the volume of `FormattedVolume.DirectoryAsFile`
  the path `A` does).
* Writing a file of size 0 answers -2 and changes nothing; a write that runs out of space keeps the clusters it took,
  and they are all that were free (`FatLaws.WriteOutcome`, `Storage.IDEWriteFile`).
* `ResourceUnlinkK` does not tell the pool's old head that it has a predecessor.  The tree keeps "back link exact or
  null", but the next unlink of that old head answers that the tree is corrupted
  (`Resources.ResourceManager.UnlinkTwice`; `Resources.StaleBackLink` is a run to that point from an empty tree).
* A process that kills itself and, before the next tick, creates another in its own slot leaves its registers to the
  new one (`SchedulerLaws.ReusedSlotMixesRegisters`; `SchedulerLaws.ReuseHappens` is a run to that point from the
  kernel's start); in every other run each process finds its own registers (`SchedulerLaws.RegistersComeBack`).
* `vsnprintf` measures with size 0 and therefore returns the length written: that is the length of the whole text if
  and only if the text has at most `size` characters (`Printf.Vsnprintf`); it is 2 for `abc` and size 2
  (`Printf.ShortResult`).
* A directive gets the text of the C standard if and only if `FormatStandard.Agrees` holds of it
  (`FormatStandard.AgreesMeans`).  It fails for zeros in front of a sign (`%05d` of -3 gives `000-3`), zeros beside a
  precision, `%.0d` of 0, every negative `%x`, every `%X` with a letter digit, a negative width that has something to
  pad, and a negative precision other than -1 (`FormatStandard.ZerosBeforeSign`, `ZeroPrinted`, `NegativeVanishes`,
  `LowerCase`, `NegativeWidth`, `NegativePrecision`).
* Windows are restored in the order they were painted, so the background comes back for all contents if and only if no
  two windows lie over the same pixel (`Composition.DisjointUncovers`, `Composition.OverlapLeavesTrace`).  A
  registered window's save buffer is shown by the next repaint before anything was saved into it
  (`Composition.RegisterShowsBuffer`), and a deregistered window stays in the picture
  (`Composition.DeregisterLeavesPixels`).  Over a run, the background is exactly what those two leave behind
  (`Composition.RunComposes`).
* `kfree` gives back the block's last granule if and only if 16 divides the size (`HeapBits.FreeAfterAlloc`).
* A font file comes back from the loader if and only if its name is at most 256 bytes long and holds no zero byte, and
  its first and last character and its depth are below 256; with such a name but larger numbers it is loaded with each
  of them cut to a byte, and with any other name it is refused (`FontFile.LoadOfWritten`, `FontFile.LoadedIsKept`).  A
  font that the converter makes of more than 224 characters from the space on is such a case
  (`FontFile.LargeFontCutShort`).
* The compiler looks for the directives in the whole source, and the first comment holds the font's name: they come
  back if and only if the name is not empty, has no quotation mark and no carriage return, and the search for a number
  finds none in the name or the right one (`FontSource.SourceBack`).  A font called `BPP 2` is compiled at depth 2
  (`FontSource.NameMisread`), whatever white space stands in that name (`FontSource.DepthMisread`), and a carriage
  return in a name becomes a newline (`FontSource.ReturnMisread`).  The data section comes back if and only if no data
  section begins in the name, or the very same one (`FontSource.DataExact`); the one of a font called `FONTDATA=[1]` is
  `1` (`FontSource.DataMisread`).
* A symbol whose value is 0xFFFFFFFF is taken for an error: an object that loads at one address loads at another if and
  only if none of its own symbols lands there (`ElfLaws.SuccessMoves`, `ElfLaws.LoadsWhen`); the object of
  `ElfLaws.NamedObjectFails` loads at 0x100000 and not at 0xFFFFFF03.
* A relocation section without a symbol table takes every symbol for 0, whatever its index (`ElfLaws.NoTableIsZero`);
  the object of `ElfLaws.TablelessLoads`, whose one relocation names symbol 1, loads at every address.

## Model

| member | source | states |
|---|---|---|
| `FatVolume.GeometryExact` | src/drivers/fs/fat.c:12-46 | on a well-formed volume the 32-bit geometry words do not wrap: the data area begins after both tables and all clusters lie inside the disk |
| `FatVolume.BootFields` | src/drivers/fs/fat.h:38-81 | every field of the boot record from its own bytes, low byte first |
| `FatVolume.EntryPlace` | src/drivers/fs/fat.c:89-99 | a cluster's link is the word at byte 4 times its number of the table |
| `FatVolume.EntryInFat` | src/drivers/fs/fat.c:89-99 | the table slot of every cluster is one whole word inside one sector of the first table |
| `FatVolume.EntrySlotsDisjoint` | src/drivers/fs/fat.c:221-232 | different clusters have table slots that do not overlap |
| `FatVolume.ClusterRange` | src/drivers/fs/fat.c:75-78 | a cluster's sectors lie in the data area, off both tables, and the computed first sector is exact |
| `FatVolume.ClusterSectorInjective` | src/drivers/fs/fat.c:75-78 | the map from cluster and sector within it to disk sectors is injective |
| `FatTable.SetEntryEffect` | src/drivers/fs/fat.c:221-232 | one table update touches the two table copies only and keeps them equal |
| `FatTable.SetEntryNext` | src/drivers/fs/fat.c:221-232 | it sets the low 28 bits of that entry, keeps every top nibble, and keeps every other entry |
| `FatFiles.ChainUnique` | src/drivers/fs/fat.c:382-417 | the table determines the chain of a first cluster |
| `FatFiles.ChainLast` | src/drivers/fs/fat.c:382-417 | along a chain only the last link is an end mark, and none is zero |
| `Drives.Drive.ReadData` | src/drivers/fs/storage.c:14-19 | the buffer is cleared and then holds the addressed sector |
| `Drives.Drive.WriteData` | src/drivers/fs/storage.c:21-25 | exactly the addressed sector becomes the buffer's contents |
| `Drives.Drive.SMReadFrom` | src/drivers/fs/storage.c:201-213 | the buffer holds the sector asked for |
| `Drives.Drive.SMWriteTo` | src/drivers/fs/storage.c:231-245 | exactly that sector is replaced, by the transfer and, where it is short, by what the buffer held behind it; a transfer longer than the buffer is refused and changes nothing |
| `FatAllocate.FatNextCluster` | src/drivers/fs/fat.c:89-99 | the link read through the sector interface is the low 28 bits of the cluster's table word |
| `FatAllocate.FatFindFreeCluster` | src/drivers/fs/fat.c:196-219 | the lowest free cluster, or 0 exactly when none is free |
| `FatAllocate.FatSetCluster` | src/drivers/fs/fat.c:221-232 | the disk after the read-modify-write of both table copies |
| `FatAllocate.FatAllocateCluster` | src/drivers/fs/fat.c:234-244 | the lowest free cluster is claimed with an end mark; on failure nothing changes and nothing is free |
| `FatWrite.FatWriteData` | src/drivers/fs/fat.c:246-290 | a strictly increasing chain of formerly free, lowest clusters ending in 0x0FFFFFF8 holds the caller's sectors; tables stay mirrored, top nibbles and all other data stay; 0 for a positive size means nothing is free |
| `FatWrite.WriteCluster` | src/drivers/fs/fat.c:274-284 | filling one cluster writes the caller's sectors to its sectors and changes no other |
| `FatWrite.GrowTable` | src/drivers/fs/fat.c:256-272 | appending the lowest free cluster keeps the chain increasing, closed and made of formerly free clusters |
| `FatLaws.WriteOutcome` | src/drivers/fs/fat.c:246-290 | a write succeeds if and only if 0 < size and ceil(size / cluster bytes) clusters are free; it then takes exactly that many, and otherwise leaves none free |
| `FatLaws.FreeSetFalls` | src/drivers/fs/fat.c:246-290 | the free set loses exactly the chain, so the free count falls by its length |
| `FatDirectory.NcsMeaning` | src/memory/string.c:202-215 | the name comparison is equality up to letter case when the name sought holds no NUL |
| `FatDirectory.DottedName` | src/drivers/fs/fat.c:419-436 | character by character: a name of at most eight, a dot and an extension go to their own fields, the extension cut to three, spaces behind |
| `FatDirectory.PlainName` | src/drivers/fs/fat.c:419-436 | without a dot the extension is blank |
| `FatDirectory.LongName` | src/drivers/fs/fat.c:419-436 | past eight characters without a dot the next three are the extension |
| `FatDirectory.CreateEntryBytes` | src/drivers/fs/fat.c:340-357 | where each byte of an entry lies: name, extension, flags, the two halves of the cluster, the size |
| `FatDirectory.CreateEntryFields` | src/drivers/fs/fat.c:340-357 | a created entry carries the name, the first cluster split over its two halves, and the size |
| `FatDirectory.FindInSectorMeans` | src/drivers/fs/fat.c:165-187 | the scan of a sector returns slot k if and only if k is the first listed entry of that name and no end mark precedes it |
| `FatDirectory.FindInMeans` | src/drivers/fs/fat.c:143-194 | the scan of a directory returns the first match in sector order |
| `FatDirectory.NewNameFound` | src/drivers/fs/fat.c:292-338 | an entry stored into the first free slot is found under its name if the name was absent |
| `FatDirectory.OtherNamesKept` | src/drivers/fs/fat.c:323-338 | storing an entry hides and moves no other name in a sector that obeys the format's end rule |
| `FatLookup.FatLocateInDir` | src/drivers/fs/fat.c:143-194 | the location found in a directory's chain; an entry that is no directory is not searched |
| `FatLookup.PackFits` | src/drivers/fs/fat.c:310-329 | the packed slot unpacks to the same cluster if and only if the cluster is below 65536 |
| `FatLookup.FatFindFreeEntry` | src/drivers/fs/fat.c:292-321 | the packed place of the first free slot in directory order, 0 when the chain has none |
| `FatLookup.FatWriteDirectoryEntry` | src/drivers/fs/fat.c:323-338 | exactly the addressed slot of the addressed sector holds the entry |
| `FatRead.ReadChain` | src/drivers/fs/fat.c:392-416 | the block holds the bytes of what the first cluster leads to, a chain or cluster 0 alone, and a zero; copying passed its end if and only if the file ends before the last sector visited |
| `FatRead.ByteOfFile` | src/drivers/fs/fat.c:392-416 | where each byte of a file lies: clusters in chain order, their sectors in order |
| `FatRead.EmptyTrail` | src/drivers/fs/fat.c:392-416 | an empty file at cluster 0 reads as no bytes, and the copying passes its block if and only if a cluster has more than one sector |
| `FatLaws.OldChainKept` | src/drivers/fs/fat.c:246-290 | a write keeps every chain that existed: its links, its clusters apart from the new ones, its sectors |
| `FatLaws.DataReadsBack` | src/drivers/fs/fat.c:246-290 | the new chain's bytes are the caller's bytes |
| `FatLaws.NewFileLocated` | src/drivers/fs/storage.c:110-139 | after the write the new name leads to the stored entry, which carries the name, the archive flag, the first cluster and the size |
| `FatLaws.OtherNamesLocated` | src/drivers/fs/storage.c:110-139 | every other name, in every directory, leads to the same entry in the same slot |
| `FatLaws.OtherFilesKept` | src/drivers/fs/storage.c:110-139 | every other file keeps its chain and its bytes |
| `FatLaws.WrittenReadsBack` | src/drivers/fs/storage.c:110-139 | after data and entry are both stored the chain is in place and holds the caller's bytes |
| `FatPaths.SegmentsJoin` | src/memory/string.c:77-120 | the segments of a path are those of its directory part, then its file name |
| `FatPaths.PathSegments` | src/drivers/fs/storage.c:76-108 | splitting at the last slash and splitting at every slash agree |
| `FatPaths.SameFoundIn` | src/memory/string.c:202-215 | two spellings that differ in letter case only find the same entry |
| `FatPaths.DotsNeverNamed` | src/drivers/fs/fat.c:420-436 | no segment of a path names an entry whose name begins with a dot, so no walk steps through `..` |
| `FatPaths.ReadingLeads` | src/drivers/fs/storage.c:39-66 | a path whose segments name one directory after another and then a plain file: the reader's walk ends in the last directory and finds the file there |
| `FatPaths.SizingLeads` | src/drivers/fs/storage.c:141-177 | the sizer's walk ends at the last entry |
| `FatPaths.WritingLeads` | src/drivers/fs/storage.c:76-108 | a write goes into the last of a path of directories |
| `Storage.FatReadBootSector` | src/drivers/fs/fat.c:5-10 | the boot record of sector 0 |
| `Storage.WalkPath` | src/drivers/fs/storage.c:27-66 | the segment loop arrives where the walk over the directories does, for reading, sizing and writing |
| `Storage.IDEReadFile` | src/drivers/fs/storage.c:27-66 | null if and only if the walk stops early or the path is empty; otherwise the bytes of the entry its last segment gives, found or zero, and whether the copying passed their block |
| `Storage.PathLeads` | src/drivers/fs/storage.c:27-66 | such a path reads and sizes as that file |
| `NamedVolume.OuterFile` | src/drivers/fs/storage.c:27-66 | on a volume whose root holds A.TXT the path A.TXT reads as its two bytes |
| `NamedVolume.InnerFile` | src/drivers/fs/storage.c:27-66 | D/A.TXT reads as the other file of that name, in the directory D |
| `NamedVolume.LowerCaseFile` | src/drivers/fs/storage.c:27-66 | a.txt is the first one too |
| `Storage.DirectoryReadsEmpty` | src/drivers/fs/storage.c:44-66 | a path that arrives at a directory and finds nothing of that name inside reads as an empty file |
| `FormattedVolume.DirectoryAsFile` | src/drivers/fs/storage.c:44-66 | on a volume whose root holds one directory A the path A is such a path |
| `Storage.IDEFileSize` | src/drivers/fs/storage.c:141-177 | the size field of the entry the path leads to |
| `Storage.IDEWriteFile` | src/drivers/fs/storage.c:68-139 | each of the answers 0, -1, -2, -3 if and only if its cause, and the disk in each case, the packed place of the free slot included; -2 for size 0 changes nothing, for a positive size it leaves no cluster free |
| `Storage.PackedPlace` | src/drivers/fs/fat.c:310-329 | the packed place is the free slot's when its cluster is below 65536, and then 0 if and only if no slot is free; otherwise it is in another cluster, the number modulo 65536 |
| `StorageLaws.NewPathRead` | src/drivers/fs/storage.c:27-66 | on the disk after the write the reader's walk over the new path ends at the new entry |
| `StorageLaws.WriteReadRoundTrip` | src/drivers/fs/storage.c:27-177 | after a new file is written under a path, the path reads as its bytes and sizes as their number |
| `StorageLaws.WriteThenRead` | src/drivers/fs/storage.c:27-177 | the same on one drive: write, read, size |
| `StorageSeparation.LookupSame` | src/drivers/fs/storage.c:27-139 | a lookup in a directory apart from the new entry, or of another name, answers after the write as before |
| `StorageSeparation.WalkSame` | src/drivers/fs/storage.c:27-139 | so does the walk over a whole path |
| `StorageSeparation.OtherPathKept` | src/drivers/fs/storage.c:27-139 | after a new file is written under one path, every other path whose lookups and file are apart from it gives the same entry and the same bytes |
| `StorageSeparation.WriteBesides` | src/drivers/fs/storage.c:27-139 | the same on one drive: read another path, write, and read it again |
| `StorageLaws.SingleSectorClusters` | src/drivers/fs/fat.c:399-414 | with one sector to a cluster no read passes the end of its block |
| `FormattedVolume.WideOverruns` | src/drivers/fs/fat.c:399-414 | with two sectors to a cluster the read of a file of one byte does |
| `FormattedVolume.NewNameWritable` | src/drivers/fs/storage.c:68-139 | on a freshly formatted volume every name a scan can return meets the conditions of the round trip |
| `FormattedVolume.FormattedReadsEmpty` | src/drivers/fs/fat.c:392-416 | on that volume an empty file meets the conditions of a read |
| `ResourceTree.ClosedTree` | src/resource/main.c:467-479 | closing the gap around a leaf leaves the tree without that leaf |
| `ResourceTree.PushedTree` | src/resource/main.c:565-581 | putting a new node in front of a list leaves the tree with that node one level below its parent |
| `ResourceTree.MovedTree` | src/resource/main.c:467-487 | moving a leaf in front of the root's list keeps a finite acyclic tree with each node reached once |
| `ResourceTree.Reached` | src/resource/main.c:417-584 | every live node is reached from the root in as many steps as its level says |
| `Resources.CloseGap` | src/resource/main.c:467-479 | the pointer writes around a node are exactly the closed gap |
| `Resources.PushFront` | src/resource/main.c:481-487 | the pointer writes at the head are exactly the pushed node; only creation tells the old head |
| `Resources.ResourceManager.Unlink` | src/resource/main.c:417-490 | granted if and only if the node is the caller's own leaf, not the root, and its back link is there or not needed; a refused call changes nothing, a granted one moves the leaf to the pool |
| `Resources.MovedMeans` | src/resource/main.c:467-487 | the lists afterwards: the node first in the pool, gone from its own list, every other order kept |
| `Resources.ResourceManager.Release` | src/resource/main.c:185-233 | the same for release, which also hands the node to the kernel |
| `Resources.ResourceManager.Handover` | src/resource/main.c:238-303 | granted if and only if the destination lives and is another, and the node is the caller's own leaf with its region in the heap; no pointer changes; the owner changes only on success |
| `Resources.ResourceManager.Create` | src/resource/main.c:500-584 | the answer; a fresh identifier and a fresh node of the given owner in front of its parent's children, or no change |
| `Resources.ResourceManager.Search` | src/resource/main.c:12-55 | a node with this identifier that may be returned and lies within the depth left, or none such exists |
| `Resources.ResourceManager.GetFromRID` | src/resource/main.c:61-86 | exactly the node with that identifier at levels 1 to 33 that the caller owns or overrides; null if and only if there is none |
| `Resources.ResourceManager.UnlinkTwice` | src/resource/main.c:460-487 | whenever one leaf may be unlinked, unlinking after it the leaf that headed the pool answers that the tree is corrupted, to its own owner too |
| `Resources.StaleBackLink` | src/resource/main.c:460-584 | a run from an empty tree to that answer: three creations and two unlinks |
| `Resources.ResourceManager.Perform` | src/resource/main.c:589-612 | one call by identifier keeps the tree, its nodes and their identifiers |
| `Resources.ResourceManager.Run` | src/resource/main.c:185-612 | over any run of calls, each with its caller and the processes alive by then, the pointers stay one finite tree with distinct identifiers and no node is lost |
| `ElfImage.EntryInside` | src/programs/elf/elf.c:168-176 | every entry below size / entsize lies inside its section |
| `ElfImage.SameSection` | src/programs/elf/elf.c:109-114 | an image with the same table bytes has the same section headers |
| `ElfImage.SameSymbol` | src/programs/elf/elf.c:163-177 | and the same symbols |
| `ElfImage.SameName` | src/programs/elf/elf.c:139-147 | and the same symbol names |
| `ElfLoader.ElfLookupSymbol` | src/programs/elf/elf.c:529-539 | the address of the first registered symbol of that name, 0 when there is none |
| `ElfLoader.ElfGetSymbolExternal` | src/programs/elf/elf.c:139-158 | an undefined symbol's value by name, the error value when unregistered |
| `ElfLoader.ElfGetSymbolValue` | src/programs/elf/elf.c:163-194 | the symbol's value as the file states it, although tables are read from the image being patched |
| `ElfLoader.TablesKept` | src/programs/elf/elf.c:283-296 | relocations at disjoint sites outside the tables leave every table byte |
| `ElfLoader.Addend` | src/programs/elf/elf.c:222-258 | the word at a site is the file's own until its relocation |
| `ElfLoader.RelocateNext` | src/programs/elf/elf.c:240-252 | storing one word extends the relocated image by exactly that relocation |
| `ElfLoader.ElfDoRelocation` | src/programs/elf/elf.c:222-258 | it fails if and only if the symbol has no value or the type is unknown, changing nothing; otherwise the site holds S+A or S+A-P mod 2^32 |
| `ElfLoader.ElfApplyRelativeRelocation` | src/programs/elf/elf.c:263-278 | one section's relocations in order, up to the first that fails |
| `ElfLoader.ElfLoadStageTwo` | src/programs/elf/elf.c:283-296 | success if and only if every relocation resolves; then every site is relocated and no other byte changed; on failure exactly those before the first failing one are applied |
| `ElfLoader.StagedSections` | src/programs/elf/elf.c:199-217 | stage one changes the offset of allocated NOBITS sections only, to the distance to their space |
| `ElfLoader.SpaceGiven` | src/programs/elf/elf.c:199-217 | a section of zeros with a size and the allocation flag lies at the space it was given, every other where the file says |
| `ElfLoader.ElfLoadStageOne` | src/programs/elf/elf.c:199-217 | the image after stage one |
| `ElfLoader.ElfLoadRel` | src/programs/elf/elf.c:57-76 | both stages: the entry point and a fully relocated image, or the error value |
| `ElfLaws.LoadIsDetermined` | src/programs/elf/elf.c:283-296 | the relocated image is unique: two loads at one address agree byte for byte |
| `ElfLaws.SymbolMoves` | src/programs/elf/elf.c:163-194 | a symbol of the object moves with the load address, any other stays |
| `ElfLaws.BaseIndependence` | src/programs/elf/elf.c:163-296 | loading d higher: R_386_32 words to own symbols grow by d and PC32 words to them agree; to outside symbols R_386_32 words agree and PC32 words fall by d; no other byte depends on the address |
| `ElfWords.SymbolStands` | src/programs/elf/elf.c:139-194 | the value taken for a symbol: 0 for none, the address of the first registered entry of its name, its number, or its place in the loaded object |
| `ElfWords.LoadedWords` | src/programs/elf/elf.c:222-296 | after a load every R_386_32 word is S plus the file's own word, and every R_386_PC32 word plus its own address is, modulo 2^32 |
| `ElfWords.CallWord` | src/programs/elf/elf.h:36-37 | an object with one call: wherever it is loaded its word becomes -6 |
| `ElfLaws.LoadsWhen` | src/programs/elf/elf.c:163-258 | every relocation resolves if and only if its types and outside symbols are known and none of the object's own symbols lands on the error value |
| `ElfLaws.SuccessMoves` | src/programs/elf/elf.c:163-258 | an object that loads at one address loads at another if and only if none of its own symbols lands on the error value there |
| `ElfLaws.NoTableIsZero` | src/programs/elf/elf.c:163-167 | without a symbol table every relocation's symbol is 0, whatever its index |
| `ElfLaws.TablelessLoads` | src/programs/elf/elf.c:163-236 | an object whose relocation names symbol 1 of no table loads at every address, with 0 for that symbol |
| `ElfLaws.NamedObjectLoads` | src/programs/elf/elf.c:163-258 | an object with one own symbol loads if and only if that symbol does not land on the error value |
| `ElfLaws.NamedObjectFails` | src/programs/elf/elf.c:163-258 | it loads at 0x100000 and not at 0xFFFFFF03 |
| `ElfLaws.StagedMoves` | src/programs/elf/elf.c:199-217 | stage one stores the same offsets when the zeroed sections' space moves along |
| `ElfLaws.SmallObjectLoads` | src/programs/elf/elf.c:283-296 | an object with a relocation meets the loader's conditions and loads at every address |
| `Format.DigitsMean` | src/tty/printf.c:70-89 | the printed digits read back in their base as the number, without leading zeros |
| `Format.FilledMeans` | src/tty/printf.c:104-109 | zeros from a precision do not change the number read back |
| `Format.DigitsFit` | src/tty/printf.c:84-89 | every number printed fits the digit buffer |
| `FormatSpelling.ParseSpelled` | src/tty/printf.c:12-64 | parsing undoes spelling: for any flags, width, precision, stars and conversion, wherever they stand in a format, it gives exactly that directive and ends behind it |
| `FormatSpelling.DigitsDenote` | src/tty/printf.c:31-39 | the decimal digits of a number denote it |
| `FormatSpelling.DirectiveRenders` | src/tty/printf.c:9-350 | such a directive renders to its text, and the rest of the format follows with the arguments left |
| `FormatSpelling.PlainRenders` | src/tty/printf.c:329-336 | text without a percent sign renders to itself |
| `FormatStandard.DecimalStandard` | src/tty/printf.c:68-147 | d: the text is the one the C standard prescribes if and only if it is not zero with precision 0, no negative width has anything to pad, and padding zeros stand alone |
| `FormatStandard.HexStandard` | src/tty/printf.c:229-297 | x: the same, and the number must not be negative |
| `FormatStandard.UpperHexStandard` | src/tty/printf.c:229-297 | X: the same, and no digit may be a letter |
| `FormatStandard.TextStandard` | src/tty/printf.c:149-194 | s: precision at least -1, or nothing but spaces that the width covers; no negative width has anything to pad |
| `FormatStandard.AgreesMeans` | src/tty/printf.c:66-326 | every directive the standard defines gets its text exactly under one condition on its numbers and its argument |
| `FormatStandard.RenderStandard` | src/tty/printf.c:9-350 | so does a whole format all of whose directives meet it |
| `FormatStandard.ZerosBeforeSign` | src/tty/printf.c:113-130 | the format `%05d` renders -3 as 000-3, where the standard has -0003 |
| `FormatStandard.LeftJustified` | src/tty/printf.c:20-29 | `%-5d` renders 42 as 42 and three spaces |
| `FormatStandard.OtherConversions` | src/tty/printf.c:149-327 | `%c`, `%%`, an unknown conversion, and `%s` of a null string |
| `FormatStandard.ZeroPrinted` | src/tty/printf.c:79-102 | `%.0d` of 0 is 0, where the standard has nothing |
| `FormatStandard.NegativeVanishes` | src/tty/printf.c:232-244 | `%x` of -1 has no digits |
| `FormatStandard.LowerCase` | src/tty/printf.c:240-244 | `%X` of 10 is a |
| `FormatStandard.NegativePrecision` | src/tty/printf.c:155-180 | `%.*s` of -2 and ab is empty, where the standard has ab |
| `FormatStandard.NegativeWidth` | src/tty/printf.c:41-45 | `%*d` of -3 and 5 is not padded, where the standard pads on the right |
| `Printf.PutNumber` | src/tty/printf.c:111-147 | sign, digits and padding in their order, cut off at size |
| `Printf.PutDecimal` | src/tty/printf.c:68-147 | the d conversion writes the number's text |
| `Printf.PutHex` | src/tty/printf.c:229-297 | the x and X conversions write the number's text |
| `Printf.PutText` | src/tty/printf.c:149-194 | the s conversion writes the string, cut to the precision, or "(null)" |
| `Printf.PutCharacter` | src/tty/printf.c:196-227 | the c conversion writes one padded character |
| `Printf.PutDirective` | src/tty/printf.c:66-326 | the switch writes the text of the directive |
| `Printf.ReadNumber` | src/tty/printf.c:31-39 | the number a run of digits denotes and where it ends |
| `Printf.ReadDirective` | src/tty/printf.c:12-64 | flags, width, precision and conversion are those the format spells |
| `Printf.VsnprintfHelper` | src/tty/printf.c:3-350 | the array holds the first min(length, size-1) characters of the unbounded text, a NUL, and beyond it what was there; the result is min(length, size) |
| `Printf.Vsnprintf` | src/tty/printf.c:352-368 | the result is the length of the text cut off at size: that of the whole text if and only if it has at most size characters, and below size exactly when the text is complete with its terminator |
| `Printf.ShortResult` | src/tty/printf.c:352-368 | for `abc` and size 2 the text has three characters and the result is 2 |
| `Printf.LargerSizeExtends` | src/tty/printf.c:338-349 | a larger size shows everything a smaller one does before its terminator |
| `Gdi2.Clip` | src/wm2/wm.c:42-49 | the clipped part is exactly the rectangle's part on the screen |
| `Gdi2.GDI2BlitSurface` | src/wm/gdi2.c:184-227 | each covered pixel becomes the blend of the surface's pixel and itself; every other stays |
| `Pictures.LocalGlobal` | src/wm2/wm.c:50-55 | a covered pixel of the screen is found from its place in the surface |
| `Pictures.GlobalLocal` | src/wm2/wm.c:50-55 | and a pixel of the surface that is on the screen from its place there: the two addressings are inverse |
| `Pictures.DrawnAt` | src/wm/gdi2.c:184-299 | in rows and columns: a blit, a restore and a commit take, at each pixel of the screen, the pixel at the same distance from the rectangle's corner, and only inside it |
| `Pictures.SavedAt` | src/wm2/wm.c:40-56 | and a save buffer the screen's |
| `Background.SaveBackground` | src/wm2/wm.c:40-56 | the buffer holds the screen's pixels under the surface; what lies off screen stays |
| `Background.RestoreBackground` | src/wm2/wm.c:58-74 | each covered pixel takes the buffer's value; every other stays |
| `Background.GDI2PartialCommit` | src/wm/gdi2.c:278-299 | the front buffer takes the covered pixels and no other |
| `Background.GDI2Commit` | src/wm/gdi2.c:301-306 | the front buffer takes the whole picture |
| `Background.LagChange` | src/wm2/wm.c:115-144 | drawing inside a rectangle lets the front buffer lag there at most |
| `Background.LagCommit` | src/wm/gdi2.c:278-299 | committing a rectangle ends the lag there |
| `Pictures.SaveBlitRestore` | src/wm2/wm.c:40-74 | save, blit and restore at one position leave the picture as it was, even partly or wholly off screen |
| `Composition.PaintedComposes` | src/wm2/wm.c:127-143 | painting from any state gives the windows in list order and the mouse over the background, with every save buffer exact |
| `Composition.ComposedAt` | src/wm2/wm.c:127-143 | what a composed screen shows at a column and row with windows apart: the background, the window there over it, the mouse over both |
| `Composition.BareAt` | src/wm2/wm.c:116-122 | restoring everything uncovers, at each pixel, the picture below the last window over it |
| `Composition.DisjointUncovers` | src/wm2/wm.c:116-122 | with windows apart it uncovers the bare background |
| `Composition.OverlapLeavesTrace` | src/wm2/wm.c:116-122 | whenever two windows overlap on the screen some contents are not uncovered, so the condition is exact |
| `Composition.StartComposes` | src/wm2/wm.c:214-217 | after the initial draw the first mouse move gives the composed picture |
| `Composition.MouseMoveComposes` | src/wm2/wm.c:244-252 | a mouse move keeps the composed picture for any windows |
| `Composition.StepComposes` | src/wm2/wm.c:146-266 | each step, registering and deregistering among them, keeps the screen over its background, and says what it lays into it and whether the picture is composed |
| `Composition.RunComposes` | src/wm2/wm.c:146-266 | so does every run in which redraws, moves, arrivals and departures meet windows that are apart |
| `Composition.StartRunComposes` | src/wm2/wm.c:146-267 | from the initial draw on, any such run shows the windows and the mouse over black with the windows' first save buffers, those of later windows, and the pixels of windows that went |
| `Composition.BlackWhenSaved` | src/wm2/wm.c:214-239 | with windows apart that background is black if and only if their save buffers hold black where they are on the screen |
| `Composition.RegisterShowsBuffer` | src/wm2/wm.c:146-156 | after a registration the next repaint puts the new window's unsaved buffer into the background |
| `Composition.DeregisterLeavesPixels` | src/wm2/wm.c:158-172 | a deregistered window's pixels stay and join the background |
| `Composition.RegisterOver` | src/wm2/wm.c:146-156 | at any moment, a new window apart from the others lays its save buffer into the background |
| `Composition.DeregisterOver` | src/wm2/wm.c:158-172 | and a window that goes lays what the screen shows there into it |
| `Compositor.WindowManager.WM_2_RegisterDisplayObject` | src/wm2/wm.c:146-156 | the object goes to the front of the linked list |
| `Compositor.WindowManager.WM_2_DeRegisterDisplayObject` | src/wm2/wm.c:158-172 | the object leaves the linked list, the others keep their order |
| `Compositor.WindowManager.WM_2_HitTest` | src/wm2/wm.c:16-38 | of the objects under the point the highest, the first of several as high; null if and only if there is none |
| `Compositor.WindowManager.Start` | src/wm2/wm.c:214-217 | a black screen, saved under the mouse and committed, the windows as they were |
| `Compositor.WindowManager.Redraw` | src/wm2/wm.c:221-239 | the whole screen state after a redraw, and the front buffer shows it |
| `Compositor.WindowManager.MoveMouse` | src/wm2/wm.c:244-252 | the whole screen state after a mouse move, and the front buffer shows it |
| `Compositor.WindowManager.WM_2_MoveDisplayObject` | src/wm2/wm.c:115-144 | the whole screen state after a window moves, and the front buffer shows it |
| `Compositor.WindowManager.DragOrDrop` | src/wm2/wm.c:254-266 | the middle button takes hold of a window, or moves the one it held |
| `Compositor.WindowManager.Iterate` | src/wm2/wm.c:219-267 | the whole screen state after a redraw, the mouse and a drop; at the end of every iteration the front buffer equals the framebuffer pixel for pixel |
| `Compositor.WindowManager.DragWindow` | src/wm2/wm.c:254-266 | a window taken at one place and let go at another goes as far as the pointer went; it was the highest there, and no other window moves |
| `PrimaryProcess.WM_2_Draw` | src/wm2/wm.c:86-113 | exactly the windows marked dirty draw and are marked no longer; true if and only if there was one |
| `PrimaryProcess.TurnRuns` | src/wm2/wm.c:219-267 | a turn is the run of at most a redraw, a mouse move and a window move |
| `PrimaryProcess.TakeTurn` | src/wm2/wm.c:219-267 | one turn on the display: what is shown afterwards is the run of its events |
| `PrimaryProcess.NextTurn` | src/wm2/wm.c:219-267 | one more turn extends the run, and completes the picture when a window was marked |
| `PrimaryProcess.Arrive` | src/wm2/wm.c:146-156 | so does a registration between turns: the window is in front, marked, and the run has one step more |
| `PrimaryProcess.Leave` | src/wm2/wm.c:158-172 | and a deregistration |
| `PrimaryProcess.RunIs` | src/wm2/wm.c:146-267 | after any such run the front buffer shows the screen: once whole, the windows and the mouse over the background the run made |
| `PrimaryProcess.WM_2_PrimaryProc` | src/wm2/wm.c:214-267 | the initial draw and any number of turns: the front buffer shows the run of their events and, while windows are apart, the windows and the mouse over one background |
| `Inboxes.EnqueueAppends` | src/isr/system.c:25-43 | enqueueing appends to the queue the ring stands for; a full ring is unchanged; head = tail + count around the ring |
| `Inboxes.DequeueTakesFirst` | src/isr/system.c:45-54 | dequeueing takes the oldest message off, none if and only if the queue is empty |
| `Inboxes.Unread` | src/isr/system.c:271-287 | the scan of one inbox: true if and only if a message from that sender, or from any, is queued and not marked read |
| `Scheduler.StepGood` | src/programs/scheduler.c:28-203 | every step keeps every slot empty, running, suspended or zombie, slot 0 runnable, the inboxes rings and every queued message unread |
| `Scheduler.RunnableAfter` | src/programs/scheduler.c:66-203 | what each event does to who may run: exactly the suspended and killed stop, exactly the resumed and created start |
| `SchedulerLaws.SendArrives` | src/isr/system.c:216-248 | a send appends its message to the queue of a valid slot with room, and changes no other |
| `Scheduler.NextSlot` | src/programs/scheduler.c:278-296 | the slot picked is runnable and no runnable slot is nearer round the table |
| `SchedulerLaws.PickedInTime` | src/programs/scheduler.c:278-296 | a slot that stays runnable is picked within as many ticks as there are slots, whatever else happens |
| `SchedulerLaws.OneTurnEach` | src/programs/scheduler.c:278-296 | between two turns of a slot every other that stays runnable has exactly one |
| `SchedulerLaws.FirstInFirstOut` | src/isr/system.c:216-268 | over any run in which a slot lives, messages queued and accepted are exactly those fetched and those waiting, in order |
| `SchedulerLaws.MachineStepGood` | src/programs/scheduler.c:298-350 | each step keeps every waiting instance's registers as it is due them |
| `SchedulerLaws.StartMachineGood` | src/programs/scheduler.c:28-64 | every well-formed table is a start for the register law |
| `SchedulerLaws.RegistersComeBack` | src/programs/scheduler.c:278-350 | over any run the instance a tick picks finds in the scratch area the registers it is due |
| `SchedulerLaws.FirstTickStarts` | src/programs/scheduler.c:125-350 | the first tick that picks a new process puts it at program plus entry, on its own stack, with its caller's data |
| `SchedulerLaws.NextTickResumes` | src/programs/scheduler.c:278-350 | the tick that picks a process again finds every register as the CPU held it, but for the interrupt flag, which is set |
| `SchedulerLaws.ValidIsKept` | src/programs/scheduler.c:125-171 | a creation never takes the slot of a valid current process |
| `SchedulerLaws.ReusedSlotMixesRegisters` | src/programs/scheduler.c:125-171 | when it does take the current slot, the new process is left with the old one's registers |
| `SchedulerLaws.ReuseHappens` | src/programs/scheduler.c:125-203 | create, tick, kill 1 and create again, from the kernel's start, is a run to that case: the new process waits with the old one's registers |
| `ProcessTable.Kernel.constructor` | src/programs/scheduler.c:28-64 | an empty table but for slot 0 |
| `ProcessTable.Kernel.FindInvalidProcess` | src/programs/scheduler.c:15-26 | the lowest slot that is not valid, -1 when there is none |
| `ProcessTable.Kernel.SuspendProcess` | src/programs/scheduler.c:66-72 | the suspend step, and when it is refused |
| `ProcessTable.Kernel.ResumeProcess` | src/programs/scheduler.c:74-80 | the resume step, and when it is refused |
| `ProcessTable.Kernel.CreateProcess` | src/programs/scheduler.c:102-180 | granted if and only if the caller may, there is a name, a program and a free slot; the lowest slot that is not valid, its registers one by one, every other slot as it was |
| `ProcessTable.Kernel.KillProcess` | src/programs/scheduler.c:182-203 | the kill step; refused if and only if the slot is 0 or past the table |
| `ProcessTable.Kernel.DeleteTask` | src/arch/x86/init.c:82-95 | a deleted slot is cleared, any other left alone |
| `ProcessTable.Kernel.SaveContext` | src/programs/scheduler.c:298-323 | the current slot holds the scratch registers with the interrupt flag set |
| `ProcessTable.Kernel.NextContext` | src/programs/scheduler.c:278-296 | the unbounded search ends, at the nearest runnable slot |
| `ProcessTable.Kernel.LoadContext` | src/programs/scheduler.c:325-350 | the scratch area holds the current slot's registers |
| `ProcessTable.Kernel.TimerTick` | src/programs/transfer.s:61-65 | save, choose and load make the tick step |
| `ProcessTable.Kernel.FindNextTask` | src/programs/scheduler.c:242-260 | it names the slot the next tick picks |
| `ProcessTable.Kernel.SendMessage` | src/isr/system.c:216-248 | the send step, and which check refused |
| `ProcessTable.Kernel.FetchMessage` | src/isr/system.c:251-268 | the fetch step, the sender and as much of the message as fits |
| `ProcessTable.Kernel.HasMessage` | src/isr/system.c:271-287 | in every reachable table: true if and only if a message from that sender, or from any, is queued |
| `HeapBits.SetBitBits` | src/memory/alloc.c:93-97 | setting or clearing a bit of a byte changes exactly that granule |
| `HeapBits.ReturnUndoesTake` | src/memory/alloc.c:108-125 | giving back what was taken restores the bitmap exactly |
| `HeapBits.FreeAfterAlloc` | src/memory/alloc.c:127-161 | kfree after kmalloc(n) restores the bitmap if and only if 16 divides n, and otherwise leaves exactly the block's last granule set |
| `Heap.KernelHeap.constructor` | src/memory/alloc.c:13-50 | the bitmap covers the heap, lies outside it, ends within memory and is clear |
| `Heap.KernelHeap.RunFree` | src/memory/alloc.c:78-89 | whether a run of granules is free |
| `Heap.KernelHeap.MMap` | src/memory/alloc.c:52-106 | the lowest free run that is long enough is taken; failure if and only if there is none |
| `Heap.KernelHeap.UMap` | src/memory/alloc.c:108-125 | exactly the region's granules become free |
| `Heap.KernelHeap.KMalloc` | src/memory/alloc.c:127-144 | a new live block with its header at the lowest free run, or failure if and only if no run is free |
| `Heap.KernelHeap.KFree` | src/memory/alloc.c:146-161 | the block is no longer live; all its granules but possibly the last are free |
| `Heap.GoodAlloc` | src/memory/alloc.c:127-144 | taking a free run keeps all live blocks apart, their headers and the meaning of every bit |
| `Heap.GoodFree` | src/memory/alloc.c:146-161 | so does giving a block back, with at most its last granule leaked |
| `Heap.GoodStore` | src/memory/alloc.c:127-144 | so does a store by a block's owner inside the block |
| `Heap.BlocksApart` | src/memory/alloc.c:13-161 | live blocks with their headers are disjoint, in the heap, and all their granules are marked |
| `Heap.OnlyLeaksRemain` | src/memory/alloc.c:146-161 | with no block live exactly the leaked granules are marked |
| `Heap.Run` | src/memory/alloc.c:13-161 | over any sequence of allocations, frees and stores the live blocks stay disjoint |
| `FontPack.PutAt` | util/convert.py:57-98 | or-ing a level into an empty slot sets that slot and no other |
| `FontPack.PackRow` | util/convert.py:48-105 | every pixel of a row is in its byte and slot at its quantised level |
| `FontPack.LevelBrackets` | util/convert.py:56-95 | the level of an alpha: more than half at 1 bit, its quarter at 2 bits, its sixteenth at 4 |
| `FontPack.BracketsOnce` | util/convert.py:56-95 | it is the only one, 0 has the lowest, 255 the highest, and levels are monotone |
| `FontPack.AlphaInCell` | util/convert.py:37-60 | the glyph of a cell has the image's pixels of that cell |
| `FontPack.ShiftIs` | util/convert.py:48-105 | the first pixel of a byte is in its highest bits |
| `FontPack.ConvertBitmap` | util/convert.py:37-107 | every pixel of every glyph is where the renderer's addressing looks for it |
| `FontText.PrintData` | util/convert.py:153-160 | the printed lines are the items separated by commas, sixteen to a line |
| `FontText.LineOfItems` | util/convert.py:153-160 | a line's sixteen items, a comma and a line end, and the next line's |
| `FontText.TwoBytes` | util/convert.py:153-160 | the bytes 171 and 7 as they are printed |
| `FontText.ParseData` | util/compile.py:50-78 | the values of the comma-separated items in order |
| `FontText.ParsePrint` | util/compile.py:50-78 | parsing the printed data gives the bytes back |
| `FontSource.SmallLines` | util/convert.py:144-149 | the directive lines as they are printed |
| `FontSource.SourceIs` | util/convert.py:136-172 | the printed source, piece after piece |
| `FontSource.FieldBack` | util/compile.py:29-47 | each number is the one printed on its line unless the pattern matches in the name |
| `FontSource.DirectivesBack` | util/compile.py:24-47 | all six directives come back if and only if the patterns can read the name |
| `FontSource.DataBack` | util/compile.py:49-52 | the data section comes back when none begins in the name |
| `FontSource.DataExact` | util/compile.py:49-52 | it comes back if and only if none begins in the name, or the same one |
| `FontSource.NotesCalm` | util/convert.py:136-142 | in no comment the converter prints do two capitals stand together, so no pattern matches there |
| `FontSource.SourceBack` | util/convert.py:127-176 | the file the converter prints, read in text mode by the compiler: the directives come back if and only if the name has no carriage return and the patterns can read it; the data section if and only if none other begins in the name |
| `FontSource.QuietNameSafe` | util/compile.py:24-52 | the patterns read a name in which no two capitals stand together as it stands |
| `FontSource.NameMisread` | util/compile.py:45-47 | a font called BPP 2 of depth 1 is read as one of depth 2 |
| `FontSource.DepthMisread` | util/compile.py:45-47 | so is one with any other white space there, the separators 0x1C to 0x1F among it |
| `FontSource.ReturnMisread` | util/compile.py:24-25 | a carriage return in a name is read as a newline |
| `FontSource.DataMisread` | util/compile.py:49-52 | the data section of a font called FONTDATA=[1] is read as 1 |
| `FontFile.WriteFont` | util/compile.py:96-118 | no file for an empty bitmap; otherwise its fields, name and bitmap in their order |
| `FontFile.HeaderFields` | util/compile.py:96-109 | the magic and each number at its own place in the file |
| `FontFile.FontLoad` | src/tty/render/fonts.c:3135-3215 | the font the file holds, its range and depth cut to a byte each, or a refusal |
| `FontFile.LoadOfWritten` | src/tty/render/fonts.c:3135-3215 | a written font comes back if and only if its name fits and its range and depth are below 256; it is refused if and only if its name does not fit |
| `FontFile.LoadedIsKept` | src/tty/render/fonts.c:3135-3215 | otherwise the rest is unchanged and those three come back reduced to a byte |
| `FontFile.LargeFontCutShort` | src/tty/render/fonts.c:3211-3215 | a font from 32 to 300 is loaded with 44 as its last character |
| `FontRender.RenderBlend` | src/tty/render/render.c:51-86 | the lowest level is the background, the highest the foreground |
| `FontRender.BlendBetween` | src/tty/render/render.c:51-86 | every channel of a blended colour lies between those it is blended from |
| `FontRender.BlendExact` | src/tty/render/render.c:51-86 | exactly, it is divided between them in the proportion of the level |
| `FontRender.DrawRow` | src/tty/render/render.c:126-158 | one row of the scaled glyph, clipped at the right edge |
| `FontRender.RenderChar` | src/tty/render/render.c:92-161 | the frame shows the scaled glyph at its place, clipped, and nothing else changes |
| `FontRender.CharPixel` | src/tty/render/render.c:112-158 | at each pixel of the frame: the background for level 0, the foreground for the highest, a blend between, and outside the glyph what was there |
| `FontRender.SpaceShows` | src/tty/render/render.c:107-110 | a character outside the font shows as the space |
| `FontChain.GlyphsDrawnRight` | src/tty/render/render.c:112-140 | a converted bitmap is drawn at the image's quantised alpha for every character, pixel and scale |
| `FontChain.BuildFont` | util/convert.py:37-176 | convert, print, search, parse, write, load and draw, for any image, cell size, depth and 7-bit name the formats can carry: the character of each cell is drawn, at any scale, at levels that bracket the image's own alpha there |

## Left out

- FAT12 and FAT16 chains, long file names and overwriting an existing name: reads only, or unfinished in the code.
- A missing drive: its error returns are not modelled; every operation starts from a mounted volume.
- Malformed volumes: directories and files on a walked path must have chains that end in an end mark.
- Storage.IDEReadFile: an entry with cluster 0 requires word 0 of the table to be an end mark, as the format prescribes, and two clusters of sectors in front of the data area; otherwise the loop leaves the disk or does not end.
- Storage.WalkPath: requires a chain for every directory a walk searches, so none that names cluster 0; a `..` entry, the one directory entry the format lets name it, is never stepped into (`FatPaths.DotsNeverNamed`).
- Storage.IDEWriteFile: requires the packed place of the free slot to be 0 or in a cluster; in cluster 0 or 1, which can be left of a number from 65536 on, the entry goes in front of the data area.
- `ResourceCleanupK`, `Blit` and `RBlit`: the first is not called and does not update the pool's head; the copies are simple.
- Resources.ResourceManager.Create: identifiers are unbounded, so the wrap of the 32-bit counter is not modelled; the asserts on type and owner stop the kernel and are not modelled.
- Resources.ResourceManager.Run: starts from any well-formed tree; regions are identified by address only and their memory is not modelled.
- ElfLoader.ElfLoadStageOne: the space malloc returns is a parameter and the zeroing of that space, outside the image, is not modelled.
- ElfLoader.ElfLoadStageTwo: requires tables inside the image, sites apart from each other and from the tables, as a compiler produces them.
- `elfLoadFile`'s header checks, ET_EXEC, `elfSymbol`, `elfDumpSymbols`, and the registration of external symbols, whose table is a parameter.
- Printf.VsnprintfHelper: requires complete directives that find their arguments, numeric precision at most 32, and no INT_MIN for d; outside these the code reads or writes past its bounds or overflows.
- `snprintf`, `sprintf` and the second formatter later in the same file.
- Compositor.WindowManager.WM_2_MoveDisplayObject: screen coordinates are unbounded integers, so sums past 32 bits are not modelled.
- Compositor.WindowManager.Iterate: the cursor file and the mouse driver are parameters; a window that is being dragged must still be registered.
- PrimaryProcess.WM_2_Draw: what a window draws is a parameter, and windows inside windows are not modelled.
- PrimaryProcess.WM_2_PrimaryProc: the endless loop is any finite number of turns, over windows registered before it, apart in memory; `Arrive` and `Leave` are the calls between turns, and a window that is being dragged does not leave.
- FormatStandard.AgreesMeans: of the standard's directives, those with these conversions, flags and numbers; a null string has no text there, and a zero flag on s or c and a precision on c, which it leaves undefined, are ignored.
- `DepthBuffer`, displays and surfaces that are not 32 bits deep, line and rectangle drawing, and surface-to-surface blits.
- YIELD to a named process, EXIT, `sysBreakpoint`, and the cases of `sysReply` for devices, files and memory.
- ProcessTable.Kernel.CreateProcess: the caller's right to create is one parameter, and program and stack memory are not modelled.
- ProcessTable.Kernel.KillProcess: not for the number of slots itself, which the bound test lets through and which writes past the table.
- Heap.KernelHeap.MMap: requires a request no larger than the heap whose rounding does not wrap; past that the code reads beyond the bitmap.
- Heap.KernelHeap.KMalloc: a panic is the result None; the same bounds on the request.
- Heap.KernelHeap.KFree: frees live blocks only.
- `calloc` and `realloc`: the first adds zeroing, the second reads the size from another place than `kmalloc` writes it.
- FontSource.SourceBack: names of 7-bit characters; beyond them Python's patterns also take other digits and spaces, and names are encoded in more bytes.
- FontText.ParseData: items are plain hexadecimal digits with an optional prefix; signs, underscores and Unicode digits, which Python's int also takes, are read as no number.
- FontFile.FontLoad: requires a file that holds its fixed header and the end of its name; allocation failures are not modelled.
- FontRender.RenderChar: requires a glyph for the character or for the space.
- Port input and output, disk and PCI drivers, keyboard and mouse protocols, timers, descriptor tables, assembly stubs, paging, the ISO 9660 reader, the old window manager, users, the shell, and the stub scheduler in Rust.
