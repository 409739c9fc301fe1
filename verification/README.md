# A verified model of the kernel's storage, memory and text tools

The repository is a small 64-bit kernel with a FAT32 driver, paging, a program loader, a file system in
memory, an editor and a calculator. This project models those parts in Dafny and proves what they keep
and what they compute. Where the source changes things in place (a sector buffer, a page table, a node
table, a line buffer, a cursor) the model is a class or a method over arrays with the same loops; its
contract ties the new state to a function of the old one, and lemmas prove what that function means.

Check everything with `dafny verify dfyconfig.toml`.

## The five parts

**FAT32 driver** (`FatDriver` and the modules whose names begin with `Fat`). A disk is a sequence of
512-byte sectors, written one sector at a time; ghost logs hold every disk so far, each one sector away
from the one before, and what a reader would find on it. A volume is `Consistent` for a layout of chains
when every directory and every file has its own chain, all chains are in range, end, never repeat a
cluster and share none. Names in a directory may coincide on a volume made elsewhere; when they differ
(`NamesDiffer`), they still do after every write and on every disk in between. The main result is the
contract of `FatWrite`: it succeeds exactly when a reader finds the directory and no directory under the
name, the name has an 8.3 form, and the free clusters suffice (`FatLaws.Writable`);
success rewrites one path of the tree and leaves every other; failure gives back the FAT entry for entry
and the tree; free clusters are conserved; all FAT copies stay equal; and after any prefix of its sector
writes the disk is consistent and reads as before the write or as after it, and no cluster is lost but
those that were lost before, those this write has claimed (no more than the data and one directory cluster
need) and those of the replaced file. A layout could hide a lost cluster as a directory that no slot names;
layouts whose directories are all reached from the root (`Reached`) hide nothing, every consistent volume has
one, every write keeps it one, and with it the bound is one on leaked clusters: marked used, and held by
nothing below the root. Reading back is exact: a written file is read under its path if and
only if the leaf does not end in a dot, because the stored name loses that dot and the path walk compares
the dotted text. Paths, absolute or relative, are resolved as text; what that text means is stated on lists
of names: when a path is refused, where it leads, and the exact condition, for every current directory, under
which a relative path leads where it should. `FatLaws` says what names, entries, chains and places on the disk are,
byte by byte.

**Frames, page tables, program loader** (`Frames`, `PageTables`, `LargePages`, `Demand`,
`Kernel`, `Elf`, `ElfLaws`, `Boot`).
Memory is one array of bytes; page tables are read out of it word by word; the frame bitmap is an array
of bytes too. A ghost map names the frames that are tables and their places, and the tables are a tree
over it. Mapping a page changes what the tables say about that page and no other, although tables are
made and a large page may be split on the way; splitting moves no address; unmapping clears exactly the
small pages of the range and gives back exactly the frames they led to. The loader succeeds exactly when the
program is sound and the frames it takes are free, one for every page and one for every table missing on the
way; it then leaves in user memory, as seen through the tables, the file bytes and zeros of every segment,
but for the pages that a later segment takes for itself; `ElfLaws` says so of an image laid out field by field. The machine's constructor joins the boot code's tables and the start-up scan of
the memory map: that is where the preconditions of everything else come from.

**Memory file system** (`RamTree`, `RamLaws`, `RamServer`). A table of 64 nodes with parent links. The
tree invariant holds after every run of operations; plain paths and used nodes correspond one to one; the
printed current directory resolves to itself from anywhere; every path acts as its stored text does, cut to
the two buffers, and a written file is always found again under that text, and under its own path exactly
when its last name fits the name buffer.

**Expression evaluator** (`Grammar`, `Evaluator`, `ExpressionLaws`, `Calculator`). A recursive-descent parser over a moving
cursor, with a sticky flag. It accepts exactly the texts of the grammar that have a value, and returns that
value; the operators are those of arithmetic, and division rounds toward zero. The decimal printer writes what evaluates back.

**Editor** (`KeoText`, `KeoFile`, `KeoEditor`, `KeoSession`). A 256 by 256 buffer edited by shifting loops refines a
flat text with one insertion position. Saving and then loading is the identity exactly below 256 lines;
loading and then saving, exactly on bytes whose newlines and line lengths fit the buffer. However a session
goes, it ends only with the text taken by the system, with the text of the start, or by "q!".

## Model

| member | source | states |
|---|---|---|
| FatCodec.NameSame | kernel/fat.c:36-42 | the comparison loop decides equality of two C strings |
| FatCodec.NameMatch | kernel/fat.c:45-56 | the typed name, upper-cased, is the stored text |
| FatCodec.EntryName | kernel/fat.c:119-136 | the text of a listed entry, cut at a NUL; nothing for deleted, label, long-name and dot entries |
| FatCodec.NameBytes | kernel/fat.c:125-132 | both fields without their padding, with a dot between them when there is an extension |
| FatCodec.WholeName | kernel/fat.c:119-136 | a name without NUL shows whole |
| FatCodec.BaseField | kernel/fat.c:402-411 | the base of the name, upper-cased, over the first eight spaces; refused only for names the encoding refuses |
| FatCodec.ExtField | kernel/fat.c:414-428 | the extension over the last three bytes; refused when too long or a character is not allowed |
| FatCodec.To83 | kernel/fat.c:398-432 | the padded upper-case name, refused exactly when the base is empty, a part is too long or a character is not allowed |
| FatNames.EncodedNameReads | kernel/fat.c:119-136 | reading back an encoded name gives the upper-cased name without a trailing dot |
| FatNames.CodecsAgree | kernel/fat.c:434-439 | for a well-padded entry the text comparison and the byte comparison accept the same undotted names, so both scans find the same slot |
| FatNames.NameOfInjective | kernel/fat.c:119-136 | two well-padded entries with one text have the same eleven bytes |
| FatNames.MatchingNameEncodes | kernel/fat.c:45-56 | a name that matches a newly encoded entry encodes to that entry |
| FatNames.EncodeIgnoresCase | kernel/fat.c:402-427 | names that differ in case only are one name |
| FatLaws.LettersMean | kernel/fat.c:45-56 | upper case is that of the twenty-six letters, every other byte stays |
| FatLaws.LegalMeans | kernel/fat.c:402-427 | the characters of a new name are letters of either case, digits, "_" and "-" |
| FatLaws.EncodeMeans | kernel/fat.c:398-432 | a base of one to eight and an extension of at most three such characters are encoded in upper case, filled up with spaces to eight and three |
| FatLaws.EncodeRefuses | kernel/fat.c:398-432 | a name is refused exactly when it has no such base and extension |
| FatLaws.AttributesMean | kernel/fat.c:121-124 | a slot in use is a listed file exactly when bits 3 and 4 of its attribute byte are clear, a listed directory exactly when bit 4 alone is set: 0x20 and 0x21 are files, 0x10 a directory, labels (0x08) and long names (0x0F) neither |
| FatLaws.DotsHidden | kernel/fat.c:133-136 | a reader never finds a directory under "." or ".." |
| FatLaws.FieldsOfEntry | kernel/fat.c:460-463 | the cluster is in bytes 26, 27, 20, 21 of an entry and the size in bytes 28 to 31, lowest byte first |
| FatPaths.AbsPath | kernel/fat.c:71-116 | the text a path resolves to, from the root or from the current directory; refused for a name beyond 12 characters and when the text outgrows its buffer; its names are proper ones |
| FatPaths.CopyCwd | kernel/fat.c:77-78 | the current directory is copied whole |
| FatPaths.ResolvesTo | kernel/fat.c:71-116 | what a path resolves to, on names: refused exactly when a name is longer than 12 or a text on the way reaches 256 characters, else the text of the parts its names lead to |
| FatPaths.AbsoluteMeans | kernel/fat.c:71-116 | an absolute path, and every path from the root, resolves to the canonical text of its names with "." dropped and ".." applied |
| FatPaths.RelativeMeans | kernel/fat.c:76-112 | from every current directory, a relative path leads where it should exactly when it does not climb out of that directory or climbs until the text, counted by its slashes, has no part left |
| FatPaths.DotDotStays | kernel/fat.c:79-104 | ".." resolves to the current directory itself, whatever that is |
| Bytes.SkipRun | kernel/fat.c:83-84 | the text behind a run of slashes, here and in kernel/fs.c:79-80 |
| FatPaths.ComponentLength | kernel/fat.c:87-92 | the length of the next name, or refusal |
| FatPaths.PopComponent | kernel/fat.c:99-104 | the text is cut back to its last slash, and that slash goes unless it is the root's |
| FatPaths.PushComponent | kernel/fat.c:106-112 | a name is appended unless the buffer would overflow |
| FatPaths.SplitLeaf | kernel/fat.c:535-553 | the cut behind the last slash |
| FatPaths.LeafSplit | kernel/fat.c:535-553 | the two parts hold the names of the parent and the last name |
| FatPaths.WalkTextIs | kernel/fat.c:139-206 | walking a text is walking its names; behind a trailing slash only a directory counts |
| FatPaths.WalkMeans | kernel/fat.c:139-206 | a walk ends on a directory, a file or nothing exactly where a reader finds one |
| FatPaths.WalkFindsSlot | kernel/fat.c:177-190 | behind a file found by a walk there is a live slot holding its cluster and size |
| FatChains.ChainUnique | kernel/fat.c:444 | a cluster starts at most one ended chain |
| FatChains.ChainNoRepeat | kernel/fat.c:444 | an ended chain never meets a cluster twice |
| FatChains.ChainAppend | kernel/fat.c:574-580 | linking a fresh end-marked cluster behind the last one extends the chain by it |
| FatChains.InRangeStays | kernel/fat.c:386-395 | clearing along in-range links stays in the table even on a cyclic FAT, so the release loop ends |
| FatChains.FreedChain | kernel/fat.c:386-395 | releasing an ended chain clears exactly its clusters and raises the free count by their number |
| FatLaws.ChainMeans | kernel/fat.c:63-68 | a chain follows the low 28 bits of the entries, in the table, to a value from 0x0FFFFFF8 on |
| FatLaws.FreeCountMeans | kernel/fat.c:366-384 | the free count is the number of clusters from 2 on whose 32-bit entry is zero |
| FatLaws.DiskMeans | kernel/fat.c:59-68 | the entry of a cluster in a FAT copy is four bytes of that copy, lowest first, and the sectors of a cluster lie together behind the copies |
| FatLaws.RunMeans | kernel/fat.c:448-450 | sixteen entries of 32 bytes and 512 bytes of a file lie in each sector of a run |
| FatLaws.ContentMeans | kernel/fat.c:313-333 | the contents of a chain are the sectors of its clusters in the order of the chain |
| FatDisk.PatchFat | kernel/fat.c:352-360 | storing one patched FAT sector changes one entry of one copy |
| FatDisk.PatchCluster | kernel/fat.c:586 | storing one data sector changes one sector of one cluster |
| FatDisk.RotationCovers | kernel/fat.c:368-369 | from any hint the rotating search tries every cluster from 2 on |
| FatDriver.FatFs.constructor | kernel/fat.c:12-21 | a driver over a given disk and geometry, in the root directory, with empty logs |
| FatDriver.FatFs.ReadSector | kernel/fat.c:65 | the buffer holds the sector |
| FatDriver.FatFs.WriteSector | kernel/fat.c:358 | one sector of the disk changes; the logs gain the disk and the volume a reader finds on it |
| FatDriver.FatFs.WriteCluster | kernel/fat.c:495-496 | one sector of one cluster changes in the volume, no FAT entry |
| FatDriver.FatFs.ReadCluster | kernel/fat.c:59-61 | the sector number and contents of a sector of a cluster |
| FatDriver.FatFs.LoadEntry | kernel/fat.c:373-376 | the raw entry of a cluster from FAT copy 0 |
| FatDriver.FatFs.FatNext | kernel/fat.c:63-68 | the next cluster, top four bits dropped |
| FatDriver.FatFs.StoreWord | kernel/fat.c:343-348 | a 32-bit word goes into the buffer lowest byte first |
| FatDriver.FatFs.StoreHalf | kernel/fat.c:338-341 | a 16-bit word goes into the buffer lowest byte first |
| FatDriver.FatFs.FatSet | kernel/fat.c:351-362 | one entry changes in every copy, and every intermediate disk reads as the final one |
| FatDriver.FatFs.AllocClus | kernel/fat.c:366-384 | returns 0 exactly when no entry from 2 on is zero, else claims a free one, whatever the hint |
| FatDriver.FatFs.FreeChain | kernel/fat.c:386-395 | clears the entries along the links; each intermediate table has some of them cleared and no other entry changed |
| FatDriver.FatFs.EntryMatch83 | kernel/fat.c:434-439 | the loop decides equality of the eleven bytes |
| FatDriver.FatFs.Test | kernel/fat.c:453-457 | whether a slot is hit; deleted, label and long-name slots never are |
| FatDriver.FatFs.ScanSector | kernel/fat.c:449-465 | the first matching slot of one sector, or an end mark, or neither |
| FatDriver.FatFs.ScanCluster | kernel/fat.c:445-466 | the same for the sectors of one cluster |
| FatDriver.FatFs.Scan | kernel/fat.c:442-469 | the first matching slot before the end mark of a directory, and the sector and offset where it lies; the inner scan of the path walk (163-198) is the same method |
| FatDriver.FatFs.WalkPath | kernel/fat.c:139-206 | the result of walking a path |
| FatDriver.FatFs.FatChdir | kernel/fat.c:239-254 | the current directory becomes the resolved text exactly when its names lead to a directory |
| FatDriver.FatFs.CopyCluster | kernel/fat.c:323-331 | copies what fits of a cluster and nothing else of the output changes |
| FatDriver.FatFs.CopyOut | kernel/fat.c:329-330 | copies bytes of the buffer and changes nothing else of the output |
| FatDriver.FatFs.ReadNode | kernel/fat.c:318-333 | the loop over the chain: as many bytes as size, chain and room allow |
| FatDriver.FatFs.FatRead | kernel/fat.c:308-334 | returns min(size, room) bytes, equal to that prefix of the file; -1 exactly when the path names no file |
| FatDriver.FatFs.FillSector | kernel/fat.c:582-585 | the next 512 bytes of the data, zeros behind the end |
| FatDriver.FatFs.FillCluster | kernel/fat.c:581-590 | one cluster gets the next bytes of the data and no other cluster changes |
| FatDriver.FatFs.LinkCluster | kernel/fat.c:569-580 | a free cluster is claimed and linked behind the new chain; fails exactly when none is free |
| FatDriver.FatFs.NewChain | kernel/fat.c:566-592 | succeeds exactly when enough clusters are free; the data stands in clusters that were free; else the FAT is restored |
| FatNewChain.NeedIsCeiling | kernel/fat.c:566-592 | the clusters taken are the length divided by the cluster size, rounded up |
| FatNewChain.FreshRestored | kernel/fat.c:570-573 | releasing the new chain restores the FAT entry for entry |
| FatNewChain.UsedKeptSameTree | kernel/fat.c:565-592 | writes to free clusters change nothing a reader sees |
| FatDriver.FatFs.FindFreeSlot | kernel/fat.c:474-488 | the first free slot of a directory, or its last cluster |
| FatDriver.FatFs.FreeInSector | kernel/fat.c:480-486 | the first free slot of one sector, or none |
| FatDriver.FatFs.FreeInCluster | kernel/fat.c:476-487 | the first free slot of one cluster, or none |
| FatDriver.FatFs.ZeroCluster | kernel/fat.c:495-497 | every sector of the cluster is zero, nothing else changes at any write |
| FatDriver.FatFs.GrowDir | kernel/fat.c:489-504 | a blank cluster joins the directory; the tree is the same at every write; fails exactly on a full disk |
| FatDriver.FatFs.DirSlot | kernel/fat.c:472-505 | a slot for a new entry exactly when one is free or a cluster is; tree unchanged |
| FatUpdates.GrownConsistent | kernel/fat.c:495-499 | a directory with a blank cluster added lists the same names and the volume stays consistent |
| FatDriver.FatFs.FillEntry | kernel/fat.c:507-519 | the 32 bytes of the entry, in the buffer at the given offset |
| FatDriver.FatFs.FillFront | kernel/fat.c:509-513 | name, attribute and the zero bytes behind it |
| FatLaws.NewEntryMeans | kernel/fat.c:507-519 | what is stored of a new file, byte by byte |
| FatDriver.FatFs.StoreEntry | kernel/fat.c:603-604 | one sector write turns exactly one path to the new contents and keeps the volume consistent |
| FatUpdates.StoredConsistent | kernel/fat.c:603-604 | storing an entry over the right slot keeps chains disjoint, in range and ended |
| FatUpdates.StoredNames | kernel/fat.c:603-604 | storing an entry keeps the names of every directory different |
| FatUpdates.GrownNames | kernel/fat.c:495-499 | so does a blank cluster added to a directory |
| FatUpdates.StoredOnePoint | kernel/fat.c:603-604 | the step relation changes for one name of one directory |
| FatTree.PathUnique | kernel/fat.c:139-206 | a directory is reached by one path, up to letter case |
| FatTree.OnePointRewrites | kernel/fat.c:603-604 | a one-point change of the steps is a one-path change of the tree |
| FatTree.StatIgnoresCase | kernel/fat.c:45-56 | paths that differ in case name the same object |
| FatDriver.FatFs.Prepare | kernel/fat.c:533-564 | resolves a path to its directory, name and old entry, or refuses it; `FatLaws.CanWriteMeans` says when, in a reader's terms |
| FatLaws.StatIsFind | kernel/fat.c:555-564 | what the writer finds under the eleven bytes is what a reader finds under the name without its trailing dot |
| FatLaws.CanWriteMeans | kernel/fat.c:521-611 | a write succeeds exactly when the names before the last lead to a directory, the last name has an 8.3 form, a reader finds no directory under it (without a trailing dot), and the clusters for the data are free, with one more for a new name in a directory without room |
| FatLaws.CanReplace | kernel/fat.c:559-564 | a file already there, of any length, is replaced exactly when the clusters for the new data are free |
| FatDriver.FatFs.ObtainSlot | kernel/fat.c:593-602 | the found slot, or a free one exactly when there is room for one |
| FatDriver.FatFs.ReleaseOld | kernel/fat.c:608-609 | gives back a chain nobody owns; no reader notices at any write |
| FatDriver.FatFs.RollBack | kernel/fat.c:599-602 | gives back the new chain: the FAT is what it was before the write |
| FatDriver.FatFs.Commit | kernel/fat.c:603-609 | the switch and the release: one path rewritten, old clusters free again |
| FatDriver.FatFs.FinishWrite | kernel/fat.c:593-610 | slot, entry and release, or the rollback; crash-safe at every write |
| FatDriver.FatFs.FatWrite | kernel/fat.c:521-611 | exact success condition, also in a reader's terms (`FatLaws.Writable`), one path rewritten, full rollback on failure, conservation of free clusters, mirrored copies, names still different; after every sector write the disk is consistent, reads as before or as after, and has lost nothing but clusters lost before, claimed by this write (as many as the data and at most one directory cluster need) or of the replaced file; the same bound on clusters that nothing below the root holds |
| FatLeaks.LostIsLeaked | kernel/fat.c:63-68 | under a layout of reached directories a cluster is lost exactly when it is marked used and no directory or file below the root holds it |
| FatLeaks.LostIsAlwaysLeaked | kernel/fat.c:63-68 | under any layout, a lost cluster is one that nothing below the root holds |
| FatLeaks.TrimmedIsLayout | kernel/fat.c:139-206 | every consistent volume has such a layout |
| FatLeaks.SoundLeaks | kernel/fat.c:521-611 | a disk met during a write leaks nothing but what was leaked before and the clusters allowed for |
| FatUpdates.StoredReached | kernel/fat.c:603-604 | storing an entry puts no directory out of reach |
| FatUpdates.GrownReached | kernel/fat.c:495-499 | nor does a blank cluster added to a directory |
| FatTheorems.ReadsBack | kernel/fat.c:521-611 | a written file reads back exactly when its leaf does not end in a dot |
| FatTheorems.WriteThenRead | kernel/fat.c:308-611 | a write and then a read of any path: the written path gives the new bytes, every other what it gave before |
| FatTheorems.SamePathAfterWrite | kernel/fat.c:308-611 | for the same path that is the new bytes, or nothing when its leaf ends in a dot |
| FatTheorems.DottedPath | kernel/fat.c:402-431 | a path whose leaf ends in a dot names nothing and is not the path written |
| FatTheorems.TrailingDotIsLost | kernel/fat.c:414-431 | the name "A." is encoded as the name without its dot |
| FatTheorems.DottedWriteIsLost | kernel/fat.c:521-611 | on every formatted volume with room the write of "/A." succeeds, and afterwards "/A" holds the data and "/A." names nothing |
| FatTheorems.FormattedIsConsistent | kernel/fat.c:210-234 | an empty volume is consistent, with every directory reached, so everything proved of writes applies from there |
| Frames.GivenBack | kernel/pmm.c:102-108 | when bits are only cleared the count rises by the number of frames given back |
| Frames.TrimmedRegion | kernel/pmm.c:45-63 | the trimming arithmetic selects exactly the frames wholly inside the region, from 1 MB to 1 GB |
| Frames.ManagedMemory | kernel/pmm.c:43-63 | of all memory up to 4 GB exactly the frames from 1 MB to 1 GB are usable |
| Frames.TouchesMeans | kernel/pmm.c:73-87 | the frames a range touches are those of its bytes |
| Kernel.Machine.SetUsed | kernel/pmm.c:25-30 | one frame is marked, and the count keeps its distance from the number of clear bits |
| Kernel.Machine.MarkFrame | kernel/pmm.c:26-28 | one bit changes and the number of clear bits with it |
| Kernel.Machine.SetRange | kernel/pmm.c:74-75 | exactly the frames of the range become used, and the count keeps its distance |
| Kernel.Machine.FillUsed | kernel/pmm.c:39-40 | every frame is used |
| Kernel.Machine.FreeRegion | kernel/pmm.c:43-68 | the usable frames of one memory-map entry are freed; the count gets ahead of the clear bits by those that were free already |
| Kernel.Machine.PmmInit | kernel/pmm.c:32-76 | after start-up exactly the usable frames outside the kernel are free, for every memory map; the count is too high by exactly the frames the map lists again, so it is right if and only if no frame is listed twice |
| Frames.NothingTwice | kernel/pmm.c:43-72 | no frame is counted again exactly when no two entries of the memory map share one |
| Frames.CountedTwice | kernel/pmm.c:43-68 | a memory map that lists one frame twice makes the count one too high |
| Kernel.Machine.constructor | kernel/kernel.c:75-82 | the machine after start-up: the boot tables are a tree inside frames in use and map the first 4 GB to itself; the allocator is ready exactly when no frame is listed twice |
| Kernel.Machine.PmmReserve | kernel/pmm.c:78-87 | the frames touched by the range are used, no other changes |
| Kernel.Machine.AllocFrame | kernel/pmm.c:89-100 | 0 exactly when none is free, else the first free frame from behind the last one taken, round the end, now used |
| Kernel.Machine.FreeFrame | kernel/pmm.c:102-108 | one frame is freed; the count rises only if it was used, and stays the number of clear bits |
| Kernel.Machine.TableAlloc | arch/x86_64/vmm.c:13-21 | a frame of zeros that was free, or 0 |
| Kernel.Machine.LoadEntry | arch/x86_64/vmm.c:28 | one word of a table |
| Kernel.Machine.StoreEntry | arch/x86_64/vmm.c:34 | one word of a table changes and no byte outside the table |
| Kernel.Machine.HangTable | arch/x86_64/vmm.c:28-35 | a missing table is made; no address moves |
| Kernel.Machine.WalkTables | arch/x86_64/vmm.c:24-39 | the level-0 table of an address; missing tables are made when asked, and no address moves |
| Kernel.Machine.SplitLarge | arch/x86_64/vmm.c:42-60 | the large page becomes a table of small ones; every address keeps its translation and flags |
| Kernel.Machine.FillSplit | arch/x86_64/vmm.c:54-57 | the 512 entries of a split page: consecutive frames, the flags without the large bit |
| Kernel.Machine.ReachLeaf | arch/x86_64/vmm.c:63-66 | split and make tables: the address has a level-0 table exactly when frames suffice, and no address moves |
| Kernel.Machine.VmmMap | arch/x86_64/vmm.c:62-69 | with frames for its tables the page leads to the given frame and no other address moves; without, nothing moves |
| Kernel.Machine.VmmSetUser | arch/x86_64/vmm.c:71-81 | every mapped page of the range has bit 2 of its flags set and the other bits as before; no other page changes and no address moves |
| Kernel.Machine.UserOne | arch/x86_64/vmm.c:75-78 | one page gets the user bit |
| Kernel.Machine.VmmPhys | arch/x86_64/vmm.c:83-97 | the translation the tables stand for, 0 for none |
| Kernel.Machine.FindLeaf | arch/x86_64/vmm.c:101-112 | the level-0 table of an address, none under a large page |
| Kernel.Machine.UnmapOne | arch/x86_64/vmm.c:101-117 | one page is gone and its frame free |
| Kernel.Machine.VmmUnmapRange | arch/x86_64/vmm.c:99-120 | for every range: small pages are gone, all else unchanged, exactly the frames they led to are free, counted once each; frame 0 stays the "none" of the allocator exactly when no page led to it |
| PageTables.PhysFrame | arch/x86_64/vmm.c:83-97 | an address whose walk does not use a changed entry is translated as before |
| PageTables.SplitKeeps | arch/x86_64/vmm.c:54-58 | hanging the table of small pages moves no address |
| PageTables.CreateKeeps | arch/x86_64/vmm.c:31-34 | hanging a table of zeros moves no address |
| PageTables.LeafMapped | arch/x86_64/vmm.c:67 | storing a leaf changes one page of the map |
| PageTables.FourLevels | arch/x86_64/vmm.c:83-98 | the walk written out: nine bits of the address choose an entry at each level, an even entry ends it, bit 7 of a third-level entry makes it a page of 2 MB |
| PageTables.EntryBytes | arch/x86_64/vmm.c:24-39 | an entry is eight bytes of its table, lowest first |
| PageTables.UserSetOpens | arch/x86_64/vmm.c:77-78 | setting the user bit sets bit 2 and keeps all others |
| PageTables.UnmappedMeans | arch/x86_64/vmm.c:99-116 | after an unmapping nothing in the range is mapped but by large pages, and all the rest leads where it led |
| PageTables.SmallFrameMeans | arch/x86_64/vmm.c:99-116 | the frame given back for a page is the one its addresses lead into |
| Kernel.LeafWordMeans | arch/x86_64/vmm.c:67 | a leaf holds the frame and the low twelve flag bits, with bit 0 always set |
| Kernel.MappedMeans | arch/x86_64/vmm.c:62-69 | after a page was mapped its addresses lead into the given frame with those flags, all others where they led |
| LargePages.LargesStep | arch/x86_64/vmm.c:74-75 | each 2 MB stretch is split once, however many of its pages are visited |
| Demand.OnePageNeed | arch/x86_64/vmm.c:24-39 | the tables missing for one page below 1 GB are those its 2 MB stretch lacks |
| Demand.OnePageGained | arch/x86_64/vmm.c:62-69 | a mapped page has given its stretch a table, and no other |
| Demand.DemandAdds | arch/x86_64/vmm.c:28-35 | tables made for some stretches need not be made again for others |
| Boot.BootIsIdentity | arch/x86_64/boot.S:46-71 | the tables the boot code lays down form a tree and map every address below 4 GB to itself |
| Elf.MapPages | kernel/elf.c:62-68 | every page of a segment gets a frame of its own that was free, exactly when the pages and the tables missing for them find frames; no page outside moves |
| Elf.StoreUser | kernel/elf.c:69-74 | a byte stored through the tables lands in the page's own frame and nowhere else |
| Elf.PlaceByte | kernel/elf.c:69-80 | the next byte of the segment is in place; fails only on a page without a frame |
| Elf.LoadSegment | kernel/elf.c:57-80 | user memory holds the segment, file bytes and then zeros, exactly when the frames it takes are free |
| Elf.ElfLoad | kernel/elf.c:39-86 | a program is loaded exactly when it is accepted and the frames it takes are free, and takes just those; every page of every segment is in place unless a later segment takes it; the image, bytes in use and pages of no segment are untouched |
| Elf.DisjointHeld | kernel/elf.c:52-81 | when no two segments share a page, every segment is held whole |
| Elf.PlacedStep | kernel/elf.c:62-68 | loading a segment keeps what is in place of an earlier one, but for the pages it takes |
| Elf.SharedPageLost | kernel/elf.c:62-80 | a page of several segments leads to the last one's frame with its flags, and around its bytes holds what that frame held when it was free |
| Elf.SegmentDemand | kernel/elf.c:52-68 | after the earlier segments a segment takes what the whole file takes up to it and not before it |
| Elf.StoresReach | kernel/elf.c:69-80 | when the tables and the free frames are out of the program's way at the start, every table and every frame the load takes is found at its own address after each segment |
| Elf.OwnAddressMeanwhile | kernel/elf.c:62-80 | and so is every frame outside the segment's pages while they are mapped and filled |
| Bytes.WordsAreLittle | kernel/elf.c:11-37 | words of two, four and eight bytes are read lowest byte first |
| Bytes.WordRead | kernel/elf.c:11-37 | a number that fits is read back from its bytes |
| ElfLaws.EhdrRead | kernel/elf.c:11-26 | in a header laid out as the struct says, the fields stand where the loader reads them |
| ElfLaws.PhdrRead | kernel/elf.c:28-37 | the same of a program header |
| ElfLaws.AcceptedMeans | kernel/elf.c:39-66 | an image described by such headers is accepted exactly when it is a little-endian 64-bit program for the machine, its table and segments fit the file and user memory, and its entry lies there |
| ElfLaws.PagesTouched | kernel/elf.c:63-64 | a segment takes the pages it has a byte on |
| ElfLaws.LoadedMeans | kernel/elf.c:63-80 | a byte of a segment is found at its address: the file's byte below p_filesz, zero up to p_memsz, writable exactly when bit 1 of p_flags is set |
| ElfLaws.LoadDescribed | kernel/elf.c:39-86 | the loader on a described image: the entry field is returned and every byte of every segment is found, unless a later segment takes its page |
| RamLaws.InitIsValid | kernel/fs.c:168-177 | start-up gives a valid tree, whatever the table held |
| RamLaws.MkdirKeeps | kernel/fs.c:179-203 | making a directory keeps the tree |
| RamLaws.FwriteKeeps | kernel/fs.c:205-237 | writing a file keeps the tree |
| RamLaws.ChdirKeeps | kernel/fs.c:252-264 | the current directory stays a used directory |
| RamLaws.Run | kernel/fs.c:168-264 | every state of every run is a valid tree with a used current directory |
| RamLaws.PiecesSplit | kernel/fs.c:77-87 | a slash separates: the names on its two sides are read apart |
| RamLaws.OnePathPerNode | kernel/fs.c:90-125 | a plain path leads to exactly the node whose path it is |
| RamLaws.PathTextLeads | kernel/fs.c:289-317 | the printed path of a node leads back to it from any directory |
| RamLaws.CwdRoundTrip | kernel/fs.c:289-317 | after every run the printed current directory resolves to the current directory |
| RamLaws.ChdirLaw | kernel/fs.c:252-264 | the directory changes exactly for a path that leads to one, and then every relative path leads where it led behind the path given |
| RamLaws.ChdirPrints | kernel/fs.c:252-264 | after a change the printed current directory leads where the path given led |
| RamLaws.DotSteps | kernel/fs.c:90-125 | ".." leads to the node whose path is one name shorter, from the root to the root; "." stays |
| RamLaws.OneNodeWritten | kernel/fs.c:219-236 | one node holds the new content, every other node and the current directory are as before |
| RamLaws.WriteKeepsPaths | kernel/fs.c:205-237 | old paths lead where they led, new paths lead to the written file |
| RamLaws.ShortPathsAgree | kernel/fs.c:148-157 | up to 127 characters before the last slash the directory written into is the one the path names |
| RamLaws.StoreLaw | kernel/fs.c:205-237 | the written file stands where its path leads exactly when the directory agrees, and then exactly when the last name fits |
| RamLaws.ReadsBack | kernel/fs.c:239-250 | a write is read back under its path exactly when the last name has at most 31 characters |
| RamLaws.ActsOnStored | kernel/fs.c:143-164 | making and writing act on every path as on its stored text, which names the directory used |
| RamLaws.StoredIs | kernel/fs.c:77-87 | the stored text fits both buffers, and a path that fits them is its own |
| RamLaws.StoredReadsBack | kernel/fs.c:239-250 | whatever the path, a successful write is read back under its stored text |
| RamLaws.OthersReadTheSame | kernel/fs.c:239-250 | every other file reads as before |
| RamLaws.MkdirKeepsPaths | kernel/fs.c:179-203 | old paths lead where they led |
| RamLaws.MkdirLaw | kernel/fs.c:179-203 | with a last name that fits, a new directory stands where its path leads exactly when the path then names the directory it was made in; there, exactly when the last name fits or overflows by one dot; a directory named before is named still |
| RamLaws.MkdirCodes | kernel/fs.c:179-203 | for every path: which code answers an empty path, a parent that is no directory, a bad name, a stored text that leads somewhere, a full table |
| RamLaws.FwriteCodes | kernel/fs.c:205-237 | the same for every write: a directory in the way is refused, a file is overwritten |
| RamLaws.LongPathGoesAstray | kernel/fs.c:149-156 | a concrete family: beyond 127 characters a write is accepted, lands in another directory and cannot be read |
| RamLaws.LongNameIsLost | kernel/fs.c:77-87 | in a new file system a write to a name of 32 letters or more is accepted, not found under that name, and found under its first 31 letters |
| RamServer.RamFs.FsInit | kernel/fs.c:168-177 | the state after start-up |
| RamServer.RamFs.FindKid | kernel/fs.c:67-75 | the child of that name, or -1 |
| RamServer.NextPart | kernel/fs.c:77-87 | the next name, cut at a slash or at 31 characters |
| RamServer.RamFs.Resolve | kernel/fs.c:90-125 | the node a path leads to |
| RamServer.RamFs.ResolveDir | kernel/fs.c:127-133 | the same, directories only |
| RamServer.RamFs.FreeSlot | kernel/fs.c:135-140 | the first unused slot, or -1 |
| RamServer.RamFs.SplitParent | kernel/fs.c:143-164 | the parent directory through the 127-character buffer, and the last name |
| RamServer.FindLast | kernel/fs.c:144-147 | the place of the last slash, or -1 |
| RamServer.CopyFront | kernel/fs.c:149-155 | the text before it, as far as 127 characters |
| RamServer.RamFs.FsMkdir | kernel/fs.c:179-203 | the whole new state and the code, for every path |
| RamServer.RamFs.FsFwrite | kernel/fs.c:205-237 | the whole new state and the code, for every path and content |
| RamServer.RamFs.FillData | kernel/fs.c:233-235 | one node's data and length |
| RamServer.RamFs.FsFreadRam | kernel/fs.c:239-250 | the bytes copied out and the count, nothing else of the output changed |
| RamServer.RamFs.FsChdir | kernel/fs.c:252-264 | the new current directory, or refusal; `RamLaws.ChdirLaw` says which |
| RamServer.RamFs.FsGetcwd | kernel/fs.c:289-317 | the path of the current directory and a terminator, refused exactly when they do not fit |
| RamServer.RamFs.Ancestors | kernel/fs.c:303-306 | the nodes from the current directory up to the root; the fixed stack is never too small |
| RamServer.RamFs.CopyName | kernel/fs.c:311-313 | one name appended to the output |
| Grammar.RemBounds | user/expr.c:64-67 | the remainder is smaller than the divisor and has the dividend's sign |
| Grammar.PrintedTree | user/expr.c:27-86 | a tree printed with the parentheses precedence and left association need is read as that tree |
| Grammar.DigitsRoundTrip | user/calc.c:99-108 | the decimal digits of a number have its value |
| Grammar.DigitsInOrder | user/expr.c:15-24 | the digits "0" to "9" are worth 0 to 9 |
| Evaluator.EvaluatesText | user/expr.c:88-96 | on every text of the grammar the flag stays up exactly when no division or remainder by zero occurs, and the result is the tree's value |
| Evaluator.SumSound | user/expr.c:71-86 | what a successful parse has passed over is text of the grammar with the returned value |
| Evaluator.EvaluatesExactly | user/expr.c:88-96 | for every string: accepted with value v if and only if it denotes v |
| Evaluator.OneValue | user/expr.c:88-96 | a text denotes one number only |
| ExpressionLaws.PrintedOperations | user/expr.c:48-96 | on printed numbers: "+", "-" and "*" give the sum, difference and product; "/" and "%" the quotient toward zero and its remainder, or a refusal for divisor 0 |
| ExpressionLaws.Operations | user/expr.c:48-86 | the same between any two factors |
| ExpressionLaws.OneDivision | user/expr.c:64-67 | quotient and remainder are determined by those conditions |
| ExpressionLaws.Precedence | user/expr.c:48-86 | products bind stronger than sums, sums associate to the left |
| ExpressionLaws.LeftProducts | user/expr.c:48-72 | products associate to the left |
| ExpressionLaws.FactorLaws | user/expr.c:26-46 | parentheses keep a value, a minus negates it, blanks around it do not count |
| ExpressionLaws.AcceptedAlphabet | user/expr.c:6-96 | an accepted text is made of digits, blanks, operators and parentheses and is not empty |
| Calculator.Parser.SkipSpaces | user/expr.c:6-9 | the cursor moves to the next character that is no blank |
| Calculator.Parser.Peek | user/expr.c:7 | the character at the cursor, the terminator at the end and only there |
| Calculator.Parser.ReadNumber | user/expr.c:13-25 | digits are accumulated; none lowers the flag |
| Calculator.Parser.ReadFactor | user/expr.c:27-45 | value, cursor and flag behind one factor |
| Calculator.Parser.ReadProduct | user/expr.c:47-69 | value, cursor and flag behind one product |
| Calculator.Parser.ReadSum | user/expr.c:71-86 | value, cursor and flag behind one sum |
| Calculator.Parser.Eval | user/expr.c:88-96 | from a raised flag, success exactly when the string denotes a number, with that number; the flag is never raised |
| Calculator.PutDec | user/calc.c:89-110 | sign, digits and newline; twenty characters of buffer suffice for every 64-bit value |
| Calculator.FillDigits | user/calc.c:99-104 | the digits, lowest first, in the twenty-character buffer |
| Calculator.PrintedEvaluates | user/calc.c:89-110 | what the printer writes evaluates back to the number |
| KeoText.ClampIsGood | user/keo.c:25-40 | after the clamp the cursor is in the text and its line on the screen |
| KeoText.BetweenIsNearest | user/keo.c:26-33 | the clamped number is the one nearest number within the bounds |
| KeoText.ScrolledIsNearest | user/keo.c:34-39 | the new first line is the one nearest start that shows the cursor |
| KeoText.TypingTurn | user/keo.c:334-390 | an accepted key inserts one character at the cursor, an accepted backspace removes the one before it, any other key but the arrows moves nothing |
| KeoText.InsertKeyText | user/keo.c:334-390 | the same before the clamp, for every key |
| KeoText.NormalKeyText | user/keo.c:274-332 | what each key outside insert mode does to the flat text |
| KeoText.NormalArrows | user/keo.c:274-332 | outside insert mode left and right, "h" and "l", move by one inside the line and stop at its ends; up and down, "k" and "j", go to the neighbouring line |
| KeoText.NormalPlaces | user/keo.c:274-332 | "G", "0", "$", "i", "a", "A" and ":" lead to the named line, place in the text and mode |
| KeoText.NormalWaiting | user/keo.c:274-332 | "gg" goes to the first line, "d" and "g" wait for their second press, every other key ends the waiting |
| KeoText.NormalEdits | user/keo.c:274-332 | deleting keeps the cursor, opening a line leads to insert mode unless the buffer is full, and a key with no meaning does nothing |
| KeoText.InsertKeyCursor | user/keo.c:334-390 | in insert mode the arrows move the same way, escape leaves the mode, and nothing else does |
| KeoText.JoinRemoves | user/keo.c:369-379 | joining two lines takes one newline out of the text |
| KeoText.SplitInserts | user/keo.c:350-361 | breaking a line puts one newline into the text |
| KeoText.OpenLineInserts | user/keo.c:255-272 | opening a line puts a newline at the end, or at the start, of the cursor's line |
| KeoText.DelLineText | user/keo.c:235-253 | deleting a line takes its characters and one newline out of the text |
| KeoText.SameTextSameLines | user/keo.c:12-15 | the flat text determines the lines |
| KeoFile.SavedIsText | user/keo.c:128-134 | what is saved is the flat text and a final newline |
| KeoFile.LoadedIsGood | user/keo.c:141-166 | whatever a file holds, what is loaded keeps the line limits |
| KeoFile.SaveThenLoad | user/keo.c:122-166 | loading what was saved gives the document back exactly when it has fewer than 256 lines; at 256 the last line is lost |
| KeoFile.LoadThenSave | user/keo.c:122-166 | saving what was loaded gives the bytes back exactly when they end in a newline, hold fewer than 256 of them, and nowhere 256 characters without one |
| KeoEditor.Keo.constructor | user/keo.c:12-18 | one empty line, cursor at its start |
| KeoEditor.Keo.Clamp | user/keo.c:25-40 | cursor and first shown line after the clamp |
| KeoEditor.Keo.ClampCursor | user/keo.c:26-33 | the cursor goes to the nearest line and the nearest column of it |
| KeoEditor.Keo.Scroll | user/keo.c:34-39 | the first shown line is the one nearest to the old that shows the cursor |
| KeoEditor.Keo.CloseGap | user/keo.c:228-229 | the shifting loop takes one character out of one row of the buffer |
| KeoEditor.Keo.OpenGap | user/keo.c:384-387 | the shifting loop puts one character into one row of the buffer |
| KeoEditor.Keo.CopyChars | user/keo.c:355-357 | the copying loop puts the end of one row behind the front of another |
| KeoEditor.Keo.EmptyLine | user/keo.c:266 | one row becomes empty |
| KeoEditor.Keo.CutLine | user/keo.c:358 | one row is cut at the cursor |
| KeoEditor.Keo.AppendChar | user/keo.c:160 | one character joins the end of a row |
| KeoEditor.Keo.DelChar | user/keo.c:226-233 | the new state |
| KeoEditor.Keo.DelLineAt | user/keo.c:235-242 | the rows behind the line move up by one |
| KeoEditor.Keo.DelLine | user/keo.c:244-253 | the new state |
| KeoEditor.Keo.ShiftDown | user/keo.c:350-354 | the rows from a line on move down by one, also in the loop at 261-265 |
| KeoEditor.Keo.OpenLine | user/keo.c:255-272 | the new state; nothing when the buffer is full |
| KeoEditor.Keo.BreakLine | user/keo.c:345-364 | the new state after a newline |
| KeoEditor.Keo.JoinUp | user/keo.c:368-380 | the new state after a backspace at the start of a line |
| KeoEditor.Keo.NormalKey | user/keo.c:274-332 | the new state, with the waiting "d" and "g" |
| KeoEditor.Keo.PlainKey | user/keo.c:276-329 | the new state for every key but "d" and "g" |
| KeoEditor.Keo.MoveKey | user/keo.c:276-287 | the new cursor |
| KeoEditor.Keo.InsertKey | user/keo.c:334-390 | the new state |
| KeoEditor.Keo.PutKey | user/keo.c:383-389 | the new state after an accepted character |
| KeoEditor.Keo.Save | user/keo.c:122-139 | the saved text is handed over exactly when there is a name and room; the dirty mark goes only on success |
| KeoEditor.Keo.Load | user/keo.c:141-166 | the buffer and the cursor after loading |
| KeoEditor.Keo.ReadLines | user/keo.c:153-162 | the rows after the loop over the bytes |
| KeoEditor.Keo.CopyOut | user/keo.c:131-133 | one row and a newline in the output buffer |
| KeoSession.Session.constructor | user/keo.c:415-426 | the program starts with the loaded file, its name, and an empty command |
| KeoSession.Session.Turn | user/keo.c:428-438 | one turn of the main loop, in every mode: the new state, and the text handed to the system |
| KeoSession.Session.CmdKey | user/keo.c:392-413 | a key on the command line: typed, erased, left, or executed |
| KeoSession.Session.ExecCmd | user/keo.c:200-224 | what each command does; "w" with a name changes the name first |
| KeoSession.Session.DoSave | user/keo.c:187-198 | saving ends the program exactly when the system takes the text |
| KeoSession.Play | user/keo.c:428-438 | whatever keys are pressed in a whole session, the line limits hold, the cursor stays in the text and, after every turn, on the screen |
| KeoSession.WaitingSideBySide | user/keo.c:274-332 | "d", "g", "d" deletes the line: the two waiting keys do not cancel each other |
| KeoSession.EditsMark | user/keo.c:226-390 | every key that changes the text marks it, and no key takes the mark away |
| KeoSession.NothingLost | user/keo.c:187-224 | however a session goes, unmarked text is the text of the start, and it ends only with its text taken by the system under the file's name, with the text of the start, or by "q!" |
| KeoSession.TypedCommand | user/keo.c:392-413 | the keys after ":" stand on the command line, and text and mark are as before |
| KeoSession.EraseOrLeave | user/keo.c:392-413 | backspace takes the last character typed, escape leaves the line and does nothing else |
| KeoSession.Commands | user/keo.c:187-224 | what every command typed does: which end the program, which write which text under which name, and that nothing else happens |
| KeoSession.SavedComesBack | user/keo.c:122-224 | a session that ends with its text changed and not given up has written it under the file's name, and loading that gives the text back exactly below 256 lines |

## What the proofs show about edge cases

- A leaf that ends in a dot is accepted by the FAT writer and stored without the dot; reading the same
  path fails (`FatTheorems.ReadsBack`, `FatTheorems.DottedWriteIsLost`).
- On the FAT volume ".." never leaves the current directory: the first ".." that would climb out of it only
  removes the slash that was put behind its name, and after a relative change of directory every slash too many
  in its text takes up one more (`FatPaths.DotDotStays`, `FatPaths.RelativeMeans`).
- In the memory file system a last name of 32 or more characters is stored cut to 31 and cannot be found
  under its path (`RamLaws.ReadsBack`, `RamLaws.LongNameIsLost`); beyond 127 characters before the last slash a write may go to
  another directory (`RamLaws.LongPathGoesAstray`).
- A document of exactly 256 lines loses its last line when it is saved and loaded (`KeoFile.SaveThenLoad`).
- Unmapping gives back the frame of every small page of the range, also of pages that came from splitting
  the identity map and were never handed out by the allocator.
- Frame 0 can be given back like any other; its address is also the allocator's answer for "none"
  (`Kernel.Machine.FreeFrame`, `Kernel.Machine.VmmUnmapRange`).
- A memory map that lists a frame twice leaves the count of free frames too high (`Kernel.Machine.PmmInit`,
  `Frames.CountedTwice`).
- A page of two segments leads to the later one's frame; outside that segment it holds what the frame held when
  it was free, not the earlier segment's bytes (`Elf.SharedPageLost`).
- In the editor "d" and "g" do not cancel each other: "d", "g", "d" deletes a line
  (`KeoSession.WaitingSideBySide`).

## Left out

- Disk errors, timeouts and partial sector writes: every sector read and write succeeds, and a sector is
  written as a whole. The branches for I/O errors in the FAT driver are not modelled.
- FAT directory listing and reading the boot sector: the driver starts from a given geometry in which every
  cluster's sectors lie on the disk.
- FatDriver.FatFs.FatWrite: takes a consistent volume; slots behind the end mark of a directory are end
  marks, and listed names are padded at the end only. A file of 4 GB or more keeps its length modulo 2^32,
  as the source's cast does.
- FatDriver.FatFs.FatRead: takes a consistent volume.
- FatDriver.FatFs.Prepare: takes a consistent volume.
- FatTheorems.WriteThenRead: takes a consistent volume.
- FatPaths.AbsPath: the source has no room for the text's terminator when the current directory fills its
  buffer of 256 characters and nothing is added; the model gives the text.
- FatDriver.FatFs.FatChdir: takes a consistent volume, and the new text must fit that buffer; the cluster kept beside the text serves the
  listing only and is not modelled.
- Kernel.Machine.SplitLarge: addresses below 2^39, where entry 0 of the top table is in use, since the
  source looks nowhere else.
- Kernel.Machine.WalkTables: no large page on the way; the source calls it after splitting only, and where
  the split found no frame it would read the large entry as a table.
- Kernel.Machine.ReachLeaf: a page under a large page needs one free frame, for the same reason.
- Kernel.Machine.VmmMap: a page under a large page needs one free frame, for the same reason.
- Kernel.Machine.UserOne: a page under a large page needs one free frame, for the same reason.
- Kernel.Machine.VmmSetUser: needs one free frame for each large page the range meets, for the same reason.
- Kernel.Machine.PmmInit: sums of addresses do not wrap, and the kernel ends below 1 GB.
- Elf.MapPages: large pages in the range are allowed only with the frames the range takes, for the same reason.
- Elf.LoadSegment: large pages in the range are allowed only with the frames the segment takes.
- Elf.ElfLoad: 64-bit wrap-around of sums in the headers is not modelled; large pages in the user range are
  allowed only with the frames the file takes; the image lies in frames in use that hold no tables.
- Flushing the translation cache is no step of the model, and physical memory is one array by address. The
  source reaches tables, image and fresh frames through the boot tables' identity map, in which programs
  replace the pages from 4 MB to 1 GB: a frame of that range whose own address a program has mapped, or an
  earlier unmapping has cleared, is out of reach for the source under that address, and the model stores into
  it all the same. `Elf.StoresReach` says for which frames, at the start of a load, that does not happen.
- Calculator.Parser.Eval: integers are unbounded, so overflow of 64-bit arithmetic is not modelled.
- The calculator's input loop and the second copy of the parser in user/calc.c.
- The memory file system with a FAT volume mounted (its operations then go to the FAT driver) and its
  directory listing.
- KeoEditor.Keo.Save: the system call that stores the bytes is a parameter, its answer.
- The editor's drawing and messages, screen, keyboard, network, interrupts, system call dispatch, partition
  table, program start and the shell: device plumbing, text formatting and dispatch.
