# Guppy: verified models of its storage and package engines

Guppy is a C program that builds and edits EXT2 images, checks them, partitions disks, plans and unpacks
Debian packages, and reads and writes the archive formats those packages come in. This project models its
engines in Dafny and proves what they are for.

**EXT2.** `Ext2Layout` to `Ext2Runs` model the writer of `src/ext2.c` over a device of 4096-byte blocks: the
formatter, both block allocators, the inode allocator, direct, single- and double-indirect files, directory
records, and the calls built on them. `FsckSpec` to `Fsck` model the independent, read-only checker, and
`FsckSpec.Clean` states what it is after for any device whatever. The main results are that the checker answers
0 exactly on clean images, that every state the writer keeps is clean, and so that formatting followed by any
successful operations is accepted; what a path shows changes only where an operation says it does; and
truncating what was written gives back every bit and every count.

A block is modelled by all of its readings at once (bitmap, pointers, records, inodes, bytes). A write fixes
the reading it is for and leaves the others arbitrary, so nothing depends on how readings overlap.

**Package planner.** `DebVersion`, `DebOrder` and `PkgRepo` hold the version order and the searches; `PlanNeeds` says
what a package needs by repository and target alone, and `PlanNodes` and `PlanExpand` build the closure; `PlanSearch`, `PlanPopping` and `PlanTarjan` the search for strongly connected
components over the edge array; `PlanApply` and `PkgPlan` the order of unpacking.

**Inflate.** `BitReader`, `Huffman` and `Inflate` are the decoder; `Deflate` says what a stream of bits spells
and means; `InflateRead` ties the two together in both directions; `DeflateWrite` is a writer whose output
comes back; `DeflateTables` holds every table against its rule.

**Smaller engines.** `XzIndexSpec`, `XzIndex` and `XzIndexTheorem` for the Index of .xz files, resumable at any
byte; `Ustar`, `TarWrite` and `TarRead` for archives; `Gpt`, `GptTool`, `GptAdd` and `GptRuns` for partition
tables; `CivilDate` for dates. `Bytes`, `Crc`, `Options`, `Sequences` and `Sums` are shared; `CrcDivision` shows what
the checksum is.

Where the code and a promise about it differ, the code is modelled and the exact condition is proved:

- `gpt init` accepts a disk of 35 sectors, but its structures are apart only from 67 sectors on
  (`GptRuns.RegionsApart`). Both copies can be read back for every size it accepts (`GptTool.CopiesReadable`).
- `order_char` gives digits a code of their own; the order is nevertheless the lexicographic one on keys
  (`DebVersion.VerRevCmp`), with the upstream part cut at 255 characters.
- A stored block that does not fit the buffer is reported as a corrupt stream (-1) and not as a full buffer (-2)
  (`InflateRead.BodyRead`).
- The archive walker rounds a member's size with a mask of 32 bits, so it steps from a member to the next record
  exactly up to 0xFFFFFE00 bytes (`TarRead.PaddedExact`); beyond that it lands in the member's own data. The writer
  accepts such members, and then the archive need not come back (`TarRead.HugeFails`).
- A package of a plan counts as present for a stated reason (`PlanNodes.MarksExact`), which need not be that the
  target has the planned version (`PlanNodes.PresentInAnotherVersion`).
- `gpt add` reads the backup entries when the primary ones fail their checksum, without checking the backup's
  own; on a disk whose backup is intact this restores the table (`GptAdd.Add`).

## Model

| member | source | states |
|---|---|---|
| Ext2Mkfs.Mkfs | src/ext2.c:112-288 | Formatting succeeds exactly for the sizes `CanFormat` names; then the device holds the file system of that geometry with a root that lists itself and nothing else, every invariant holds, and every group begins with the superblock and the whole descriptor table of group 0. |
| Ext2Mkfs.GroupLayout | src/ext2.c:171-187 | In every group the bitmaps, the inode table and the data stand where 32 bytes for each descriptor, a block for each bitmap and 128 bytes for each of 1024 inodes put them. |
| Ext2Engine.Volume.LoadMeta | src/ext2.c:344-370 | On any device: loads the superblock and its descriptors, and fails exactly when the superblock is missing or foreign, counts no blocks or more than 1024 groups, or its descriptors lie beyond the device; on a device that represents a state, what is loaded is that state's. |
| Ext2Engine.Volume.StoreMeta | src/ext2.c:330-342 | Superblock and all descriptors end up at their places, and no block behind the descriptor table changes. |
| Ext2Engine.Volume.ReadInode | src/ext2.c:372-388 | Reads the inode of that number, and fails exactly for numbers out of range. |
| Ext2Engine.Volume.WriteInode | src/ext2.c:390-407 | Replaces that inode in the represented state and nothing else. |
| Ext2Alloc.AllocBlock | src/ext2.c:531-549 | Takes the block that a scan from bit zero of every group picks, counts it everywhere, and changes nothing when there is none. |
| Ext2Alloc.AllocCtx.AllocBlock | src/ext2.c:589-619 | The cached allocator with its cursors makes the same choice on the state that a commit would leave; all bits below each cursor stay set. |
| Ext2Alloc.AllocCtx.FreeBlock | src/ext2.c:676-696 | Clears a set bit and counts it in the pending state; leaves a clear one; refuses block 0 and blocks out of range. |
| Ext2Alloc.AllocCtx.Commit | src/ext2.c:621-631 | Writing the dirty bitmaps and the metadata makes the device represent exactly the pending state. |
| Ext2AllocRuns.AllocEach | src/ext2.c:531-549 | k single allocations return the blocks, and leave the state, of k scans from zero. |
| Ext2AllocRuns.AllocTogether | src/ext2.c:567-631 | k cached allocations and one commit return the same blocks and leave the same state as k single ones. |
| Ext2AllocRuns.ScansNew | src/ext2.c:531-549 | Over any number of allocations no block is handed out twice, none that was in use, and none is given up. |
| Ext2Counts.FreeTotal | src/ext2.c:531-549 | The superblock's free count is the number of clear block bits of the whole volume. |
| Ext2Counts.PickEmpty | src/ext2.c:531-549 | The allocator finds nothing exactly when the free count is zero. |
| Ext2Alloc.AllocInode | src/ext2.c:492-512 | Takes the first free inode (2, or 11 and up) among the groups that count one, or none when all of those are in use. |
| Ext2Alloc.FreeInode | src/ext2.c:514-529 | Clears a set inode bit with its counters and leaves a clear one; fails exactly for numbers out of range. |
| Ext2Files.WriteDataRuns | src/ext2.c:637-674 | Writing by maximal contiguous runs fills exactly the listed blocks, in order, with the data and then zeros, whatever the blocks' order. |
| Ext2Files.WriteContents | src/ext2.c:1160-1218 | The allocating loop builds a tree of fresh blocks that reads as the data, succeeds exactly when the data fits the addressing and its blocks and tables fit the free count, and takes exactly that many. |
| Ext2Free.FreeDataBlocks | src/ext2.c:871-926 | The freeing walk clears exactly the blocks of the file's tree, tables included, and fails exactly on a triple-indirect pointer. |
| Ext2Free.ReadFile | src/ext2.c:1028-1094 | Reads exactly the bytes that the block tree of an inode holds, holes as zeros, up to the double-indirect limit. |
| Ext2FileOps.Read | src/ext2.c:1001-1094 | Reading a path gives the bytes of the file it leads to, and succeeds for every file within the limit. |
| Ext2FileOps.WriteExisting | src/ext2.c:1097-1236 | Succeeds exactly when the path leads to a file and the data fits once the old blocks are free; the file then has that size and its old mode and reads as the data, every other inode reads as before, bitmaps exchange the old tree for the new one, and i_blocks counts the tree. |
| Ext2FileOps.Truncate | src/ext2.c:980-999 | Succeeds exactly on a file; it becomes empty but keeps its mode, its whole tree is free, and every other inode reads as before. |
| Ext2FileOps.Unlink | src/ext2.c:933-978 | Succeeds exactly when the name leads to a file; then entry and tree are gone, the inode is free and holds only the time of deletion, everything else reads as before, and the invariants hold. |
| Ext2Runs.TruncateUndoesWrite | src/ext2.c:980-996 | Truncating a file that was written from empty restores every bitmap bit, group count and total. |
| Ext2Runs.WriteThenTruncate | src/ext2.c:1097-1236 | The two calls one after the other on an empty file leave bitmaps and counts as they were, and succeed exactly when the data fits the free space. |
| Ext2Entries.AppendDirent | src/ext2.c:700-754 | Adds the one entry by splitting slack or adding a block; succeeds exactly when a record has room or the directory and volume can grow; all other names of it and all other inodes read as before. |
| Ext2Entries.RemoveDirent | src/ext2.c:950-968 | Removes the one entry by merging it into the record before or blanking the first; all other names and inodes read as before. |
| Ext2Dir.FindEntry | src/ext2.c:409-436 | Finds exactly the entry that the directory's blocks hold for the name, over records that tile each block. |
| Ext2Dir.Resolve | src/ext2.c:438-465 | Succeeds exactly on paths that lead somewhere, and gives the inode they lead to. |
| Ext2Ops.Create | src/ext2.c:1238-1403 | A created file appears at its path with exactly its data, its size and mode 0644, i_blocks counts its tree, and nothing else changes; it succeeds exactly when the name is free, the data fits, and inode, blocks and entry have room, the entry in a record's slack or in one block more. |
| Ext2Ops.Symlink | src/ext2.c:1405-1445 | A symbolic link appears whose size and inode words spell the target byte by byte, zeros after it; it succeeds exactly when there is room and the target has 1 to 60 bytes. |
| Ext2Ops.Mknod | src/ext2.c:821-869 | A device node appears with its mode, and its stored device number decodes to the major and minor given; it succeeds exactly for character and block devices whose numbers fit, when there is room. |
| Ext2Mkdir.Mkdir | src/ext2.c:756-808 | Leaves an existing directory alone, or makes one of one block, with the permissions asked for, that lists itself, its parent and nothing else, counted in the parent's links and in its group's number of directories; it succeeds exactly on an existing directory or when there is room. |
| Ext2Mkdir.PayCount | src/ext2.c:803-808 | Counting the new directory in its group restores the invariant that each descriptor counts the directories whose inodes are in its group, never more than the group has inodes. |
| Ext2Paths.DirSeen | src/ext2.c:756-808 | After a directory is made, every path ends where the old volume and the new entry say: paths that do not take the entry show what they showed, those that do reach the new directory, its parent or nothing. |
| Ext2Paths.CreatedSeen | src/ext2.c:1238-1403 | After a creation every path shows what it showed, except those that lead to the new inode. |
| Ext2Paths.ChangedSeen | src/ext2.c:1097-1236 | After a rewrite or truncation all paths lead where they did, and only those that lead to the file show anything new. |
| Ext2Paths.UnlinkedSeen | src/ext2.c:933-978 | After an unlink exactly the paths that go through the removed entry show nothing, and all others what they showed. |
| Ext2Runs.Perform | src/ext2.c:756-1445 | An operation succeeds exactly when it is possible in the state, by conditions on that state alone; then it keeps the invariants, the groups' counts of directories included, and has its effect on what paths show. |
| Ext2Runs.Run | src/cmd_fsck_ext2.c:19-188 | Formatting and then any list of operations that all succeed makes the checker answer 0; each operation was possible and had its effect on the next state, and only one that was not possible can have stopped the run. |
| Fsck.Phase1 | src/cmd_fsck_ext2.c:19-188 | On any device: 2 exactly when the image cannot be loaded, 0 exactly when it is clean, and never more than 2. |
| FsckAgrees.Agree | src/cmd_fsck_ext2.c:94-187 | Every device that represents a state satisfying the writer's invariants is clean. |
| FsckBlocks.Context.CheckDirect | src/fsck_ext2_blocks.c:43-53 | Walking an inode's tree finds no error exactly when every block it meets is in range, allocated, owned by none before, and met once; then exactly those blocks are recorded as the inode's. |
| FsckDirectory.CheckDirectory | src/fsck_ext2_directory.c:9-41 | Finds no error exactly when all records of the directory's direct blocks tile them and name allocated inodes; then every inode's count has grown by the records that name it. |
| FsckInodes.CheckInodes | src/fsck_ext2_inode.c:9-45 | After a group that follows clean ones, no errors exactly when every inode so far is fine, and then owners, references and link counts are those of all inodes so far. |
| FsckSound.TreesInBounds | src/fsck_ext2_blocks.c:11-53 | In a clean image a block met in a tree is in range, allocated, no metadata, and met only once there. |
| FsckSound.TreesDisjoint | src/fsck_ext2_blocks.c:11-26 | In a clean image no two inodes share a block. |
| FsckSound.EveryBlockOwned | src/cmd_fsck_ext2.c:170-187 | In a clean image an allocated block is either metadata or met in the tree of some inode. |
| FsckSound.NoOrphans | src/cmd_fsck_ext2.c:160-187 | In a clean image every inode that is looked into is named by an entry of some directory that is. |
| DebVersion.VerRevCmp | src/deb_version.c:14-41 | The two-pointer loop compares exactly the sequences of runs (non-digits by character order, digits by value) of both strings. |
| DebVersion.ParseEpoch | src/deb_version.c:43-55 | The epoch is what stands before the first colon when that is all digits, saturated at the largest unsigned long, and 0 otherwise. |
| DebVersion.VersionCompare | src/deb_version.c:57-78 | Comparison is lexicographic by epoch, upstream and revision keys. |
| DebVersion.OrderReflexive | src/deb_version.c:57-78 | The order of versions is reflexive. |
| DebVersion.OrderFlips | src/deb_version.c:57-78 | Exchanging the versions changes the sign of the result. |
| DebVersion.OrderTransitive | src/deb_version.c:57-78 | The order is transitive, and strict unless both steps are ties. |
| DebVersion.VersionSatisfies | src/deb_version.c:80-91 | A constraint is met as its operator says of the order; an empty one always. |
| DebOrder.TildeFirst | src/deb_version.c:6-12 | A string that goes on with a tilde sorts before the same string at its end. |
| DebOrder.EndFirst | src/deb_version.c:6-12 | A string at its end sorts before the same string going on with any other character that is no digit. |
| DebOrder.LettersFirst | src/deb_version.c:6-12 | Where strings first differ, a letter sorts before a character that is neither letter, digit nor tilde. |
| DebOrder.SmallerFirst | src/deb_version.c:6-12 | Among letters, and among the other characters, the smaller code sorts first. |
| DebOrder.NumbersByValue | src/deb_version.c:26-38 | Numbers that follow the same text decide by their value, written with any leading zeros; when they are equal, what follows them decides. |
| DebOrder.PreReleaseFirst | src/deb_version.c:57-78 | A version without epoch and revision that a tilde continues sorts before that version. |
| PkgRepo.Repo.FindBest | src/pkg_repo.c:119 | One scan returns the first of the best matching entries, so that no matching entry exceeds it, and nothing exactly when none matches. |
| PkgRepo.Repo.FindProvider | src/pkg_repo.c:121 | The same for the entries that offer a name. |
| PlanExpand.Planner.ChooseAlt | src/pkg_plan.c:60-99 | Chooses the first alternative of a group that can be met at all, leaves it to the target alone exactly when the target has it and the repository does not carry it, and otherwise takes the best fitting entry of that name or, when there is none, the best that offers it. |
| PlanExpand.Planner.Expand | src/pkg_plan.c:100-168 | Expansion ends on cyclic graphs too, a finished node has both dependency fields met, every node is needed by the first, and a failure leaves a node with a reason: a malformed field, or a group that nothing meets or that the nodes present leave no way to meet. |
| PlanExpand.Planner.Close | src/pkg_plan.c:293-305 | When planning succeeds, every node is finished, needed by the first, and each of its groups is met by the first alternative that can be: by the target alone when the repository does not carry it, or by an edge wanted to a fitting package; nodes count as present exactly as MarksExact says. It fails only for want of the package or with a node that has a reason; and where no two packages needed clash and choices fit, it succeeds exactly when all that is needed parses, can be met and fits into 512 nodes. |
| PlanNodes.NeverBlocked | src/pkg_plan.c:119-163 | When all that is needed can be had at once, no node of any partial plan gives a reason to stop. |
| PlanNodes.AllAnswered | src/pkg_plan.c:119-163 | A finished plan without clashes has all that is needed, and every field of it is well formed and can be met. |
| PlanNodes.MarksExact | src/pkg_plan.c:60-99 | A node counts as present exactly when it is the package asked for in the target's own version, or some chosen dependency is met by the target in whatever version, or its provider is there in the version on offer. |
| PlanNodes.PresentInAnotherVersion | src/pkg_plan.c:68-75 | With b 1 on the target and b 2 in the repository, a dependency on b marks b as present though not in the planned version. |
| PlanTarjan.Components.Build | src/pkg_plan.c:169-218 | The components are exactly the classes of mutually reachable nodes, each node is listed in one, and no edge leads to a higher component. |
| PlanApply.Unpacking.Apply | src/pkg_plan.c:321-329 | Whenever a package is passed on, all it reaches outside its own component is present or was passed before; on success each absent package was passed once; after a failure none is passed, and it fails only when the last call has failed or an absent package has too long a path. |
| PkgPlan.MakePlan | src/pkg_plan.c:293-305 | There is a plan or a reason against one, and there is a plan whenever all that the best entry of that name needs can be had at once. |
| PkgPlan.Apply | src/pkg_plan.c:321-329 | Nothing is passed on without a plan, which is the best entry of that name and only what it needs, with each dependency met; calls follow the plan's edges, all of them up to 4096; on success every package of it was passed once or is present for the reason that MarksExact states, and no call failed. It fails only with a reason against the plan, a path too long or a failed last call, and with all needs to be had at once only for the latter two. |
| BitReader.Reader.GetBits | src/gu_gzip.c:47-60 | Gives the number that the next bits write, lowest first, moves on by exactly as many, and fails exactly when the stream is shorter; fewer than eight bits stay held. |
| BitReader.Reader.ByteAlign | src/gu_gzip.c:62-66 | Moves to the next byte boundary: only the rest of the current byte is dropped. |
| Huffman.Table.Build | src/gu_gzip.c:69-97 | Refuses exactly the length vectors that are too long or oversubscribed, and otherwise tabulates their canonical code, complete or not. |
| Huffman.Table.Decode | src/gu_gzip.c:99-118 | Succeeds exactly when the code of some symbol stands next, and then gives that symbol and consumes exactly its length. |
| Huffman.OneSymbol | src/gu_gzip.c:99-118 | At no place of a stream do the codes of two symbols stand. |
| Huffman.PrefixFree | src/gu_gzip.c:69-97 | No canonical codeword of a length vector that is not oversubscribed begins another. |
| Huffman.CodewordAt | src/gu_gzip.c:99-118 | A symbol's codeword followed by anything stands for that symbol. |
| Inflate.FixedTables | src/gu_gzip.c:120-131 | The fixed tables are those of the code lengths of section 3.2.6 of RFC 1951, which are not oversubscribed. |
| Inflate.DynamicTables | src/gu_gzip.c:133-193 | Succeeds exactly on the heads that `InflateRead.ReadHeader` reads, with the tables of the two length vectors listed there. |
| InflateRead.HeaderRead | src/gu_gzip.c:133-193 | A head that the stream spells, with its run-length coded lengths, is read as the vectors it lists. |
| InflateRead.HeaderSpelled | src/gu_gzip.c:133-193 | Conversely, a head is read only from a stream that spells one. |
| Inflate.Codes | src/gu_gzip.c:195-244 | The decoding loop over the output buffer does what reading tokens from left to right says, errors and a full buffer included. |
| InflateRead.CodesRead | src/gu_gzip.c:195-244 | Tokens that the stream spells are expanded, overlapping copies one byte at a time, exactly when the result fits. |
| InflateRead.CodesSpelled | src/gu_gzip.c:195-244 | Conversely, what is read is the expansion of tokens that the stream spells, none reaching back before the start. |
| Inflate.StoredBlock | src/gu_gzip.c:259-271 | A stored block appends its bytes when its two length fields are complements and it fits stream and buffer. |
| Inflate.InflateRaw | src/gu_gzip.c:246-287 | For every list of stored, fixed and dynamic blocks that the stream is made of: it succeeds exactly when what they mean fits the buffer, and then the buffer holds that; and it succeeds on no other stream. |
| DeflateWrite.FixedRoundTrip | src/gu_gzip.c:246-287 | Every legal list of tokens, written with the fixed codes and packed into bytes, is a stream of exactly that block. |
| DeflateWrite.EveryCopy | src/gu_gzip.c:199-214 | Every length from 3 to 258 over every distance from 1 to 32768 has codes. |
| DeflateTables.LengthRule | src/gu_gzip.c:200-207 | The table of lengths follows its rule: four codes for each number of extra bits from 0 to 5, and 258 alone. |
| DeflateTables.DistanceRule | src/gu_gzip.c:208-215 | The table of distances follows its rule: two codes for each number of extra bits from 0 to 13. |
| DeflateTables.CopyAdds | src/gu_gzip.c:225-239 | A copy adds as many bytes as the rule gives for its length code and extra bits, each the byte as far back as the rule gives for its distance code. |
| DeflateTables.FiveLetters | src/gu_gzip.c:220-239 | A literal and length code 258 over distance code 0 make five equal bytes. |
| DeflateTables.FixedCode | src/gu_gzip.c:120-131 | The fixed literal and length codes have 8 bits from 0x30 on, 9 from 0x190, 7 from 0 and 8 from 0xC0. |
| DeflateTables.FixedDistanceCode | src/gu_gzip.c:120-131 | The fixed code of a distance is its number in five bits. |
| DeflateTables.OrderRule | src/gu_gzip.c:136-138 | Code lengths are written for 16, 17, 18 and 0 first, then outwards from 8. |
| DeflateTables.ItemRule | src/gu_gzip.c:159-186 | Symbol 16 repeats the last length 3 to 6 times, 17 writes 3 to 10 zeros and 18 writes 11 to 138, as their extra bits say. |
| XzIndex.Decoder.DecVli | lib/xz/xz_dec_stream.c:206-235 | From any digit on, the loop does to its state what the digits one by one do, rejects non-minimal and too long numbers, and can stop anywhere. |
| XzIndex.Decoder.DecIndex | lib/xz/xz_dec_stream.c:339-383 | The same for the list of records, with sizes, sums and hash. |
| XzIndex.Decoder.DecMain | lib/xz/xz_dec_stream.c:741-783 | One call consumes bytes exactly as the byte-by-byte decoder would, accounts for all of them, and reports more, end or error accordingly. |
| XzIndexTheorem.DecodeChunks | lib/xz/xz_dec_stream.c:741-783 | However the bytes of an Index are split over calls, verdict, sizes, checksum and hash are those of the bytes as a whole. |
| XzIndexTheorem.NumberRun | lib/xz/xz_dec_stream.c:206-235 | The minimal base-128 encoding of every number below 2 to the 63 is decoded to that number. |
| XzIndexTheorem.VliBack | lib/xz/xz_dec_stream.c:206-235 | Only minimal encodings of at most nine bytes are accepted. |
| XzIndexTheorem.IndexAccepts | lib/xz/xz_dec_stream.c:324-383 | The decoder reaches the footer exactly on an encoding, padding and checksum included, of as many records as there were blocks, with the blocks' hash. |
| XzIndexTheorem.EncodedAccepted | lib/xz/xz_dec_stream.c:741-763 | On acceptance the recorded Index size is the number of bytes from the indicator to the checksum, a multiple of four. |
| XzIndexSpec.HashTotals | lib/xz/xz_dec_stream.c:366-375 | The hash over the records holds the totals of both sizes modulo 2 to the 64. |
| XzIndexSpec.HashNext | lib/xz/xz_dec_stream.c:366-375 | Each record continues the checksum over both totals, the checksum before, and four zeros. |
| CrcDivision.CrcDivides | lib/xz/xz_crc32.c:29-58 | CRC32 of any bytes is the remainder of the polynomial they spell, lowest bit first, divided by the generator x^32 + x^26 + ... + 1, with the first 32 coefficients and the result complemented. |
| TarWrite.Oct | src/tar_write.c:16-35 | Fills the field with the zero-padded octal digits and a NUL, and fails, changing nothing, exactly when the number has too many digits. |
| Ustar.OctalBack | src/tar.c:9-17 | The reader's octal gives back the number that the writer's field was made from. |
| TarWrite.NameFields | src/tar_write.c:41-77 | Accepts exactly the plain paths that fit name and prefix, split at the last slash that can be. |
| TarWrite.MakeHeader | src/tar_write.c:80-112 | The record holds every field at its place and the checksum over itself with a blank checksum. |
| Ustar.ChecksumBack | src/tar_write.c:97-109 | The checksum field reads back as the sum of all 512 bytes with its own eight counted as blanks. |
| TarWrite.Marks | src/tar_write.c:98-101 | The type flag is 0x30 for files and 0x35 for directories, and "ustar", a NUL and "00" stand at byte 257. |
| TarWrite.Writer.WriteFile | src/tar_write.c:115-144 | Appends header, exactly the first size bytes of the source, and padding; succeeds exactly when the header can be made and the source is long enough. |
| TarWrite.Writer.WriteDir | src/tar_write.c:147-167 | Appends one header whose name ends in a slash. |
| TarRead.Walk | src/tar.c:27-68 | The walk returns the entries and the code that reading records one after another gives, each error case included, stepping over data by the size rounded up to a record modulo 2 to the 32. |
| TarRead.PaddedExact | src/tar.c:61-63 | The step ends at the record after a member exactly when it has at most 0xFFFFFE00 bytes; otherwise it ends within the member's own data. |
| TarRead.WalkBack | src/tar.c:27-68 | Wherever an archive stands in a file, the walk visits exactly its members in order and stops at the end records when each can be stepped over; otherwise it visits those up to the first that cannot and goes on in that one's data. |
| TarRead.RoundTrip | src/tar.c:27-68 | For every list of members the writer accepts: when each has at most 0xFFFFFE00 bytes, all come back with path, mode, size and type, their bytes at the reported offset; otherwise those up to the first larger one do. |
| TarRead.HugeFails | src/tar.c:61-63 | A file of 2 to the 32 bytes that does not begin with a NUL is accepted by the writer and does not come back as the one member of its archive. |
| GptTool.ReadHeader | src/cmd_gpt.c:172-200 | Accepts exactly headers with the signature, sane sizes, places on the disk, and the checksum of their own bytes. |
| GptTool.Init | src/cmd_gpt.c:368-441 | Refuses exactly disks below 35 sectors; otherwise the disk holds two agreeing, empty copies, and what lies between them is untouched. |
| Gpt.MbrBytes | src/cmd_gpt.c:243-259 | The protective MBR has one partition of type 0xEE from sector 1 over the rest of the disk as far as 32 bits go, the signature, and zeros. |
| GptTool.CopiesReadable | src/cmd_gpt.c:172-211 | Both readers accept both copies of a table the tool has written. |
| GptAdd.Add | src/cmd_gpt.c:444-537 | Succeeds exactly when the type is known, the clamped range is not empty and meets no partition, and an entry is free; then both copies hold one more partition, even when the primary entries were damaged. |
| GptAdd.AddedPartitions | src/cmd_gpt.c:478-519 | Adding changes one entry, and partitions stay in the usable range and apart. |
| GptRuns.RegionsApart | src/cmd_gpt.c:376-397 | For the sizes init accepts, its own structures are apart exactly from 67 sectors on. |
| GptRuns.PartitionsApart | src/cmd_gpt.c:478-502 | Every partition is clear of the MBR, both headers, both arrays, and every other partition. |
| GptRuns.Run | src/cmd_gpt.c:368-537 | After init and any additions, each done exactly when it can be, both copies hold the resulting table and what lies between them is untouched. |
| CivilDate.NextDay | src/iso9660_walk.c:483-492 | From each date to the next, over all years, the day count grows by one. |
| CivilDate.Epoch | src/iso9660_walk.c:483-492 | The first of January 1970 is day 0. |
| CivilDate.SecondBySecond | src/iso9660_walk.c:494-499 | One second later is one more, over midnights, months and years. |
| CivilDate.UtcTimeOrder | src/iso9660_walk.c:494-499 | One time has fewer seconds than another exactly when it is earlier. |

## Left out

- Device reads and writes succeed; failures of the host's input and output are not modelled.
- Rollback in EXT2: `ext2_create_and_write` and `ext2_mkdir_at` do not give back the inode when a later step fails,
  so nothing is promised of the state after a creation or `mkdir` that fails.
- Timestamps other than the deletion time, which is a parameter; owners, labels, and the block group number that tells a backup superblock from the first.
- Ext2FileOps.Truncate: only to size 0 and only for regular files, as the code's own callers use it; what the calls do to symbolic links and devices is not modelled.
- Ext2FileOps.Unlink: the name must lead to a file, a directory or nothing; unlinking symbolic links and devices is not modelled, since the freeing walk reads their words as block numbers.
- Ext2FileOps.WriteExisting: the path must lead to a file, a directory or nothing, for the same reason.
- Paths in EXT2 are lists of names; splitting at slashes, and the limit of 512 bytes on a path beyond which every call
  fails, are not modelled: "exactly" in the rows above is for paths within it.
- Ext2Engine.Volume.LoadMeta: block size, blocks and inodes per group and the inode size are the formatter's; superblocks that say otherwise are not modelled.
- Ext2FileOps.Read: the path must lead to a file, a directory or nothing; reading symbolic links and devices as files is not modelled.
- Block sizes of 1K and 2K, triple-indirect blocks (the code refuses them), and refreshing the backup superblocks.
- Fsck.Phase1: the superblock has its magic number and counts only; block size, blocks and inodes per group, first data block, revision and first inode are the formatter's, so other geometries that the checker accepts or rejects are not modelled. The arrays it allocates and its error counter are unbounded, and its messages are left out.
- PlanExpand.Planner.Close: dependency fields come parsed; the list of edges wanted, those beyond 4096 included, is part of the model only, since `add_edge` is silent about them. Where needed packages clash, or a provider's version is not the one asked for, the outcome depends on the order of the fields: a version that has been taken is tested, one taken for the first time by an offered name is not. There the reasons of a refusal are stated, and not a condition on repository and target.
- Conflicts and Breaks, which the planner does not consult; the printing of plans and the audit; the text of conflicts.
- PkgPlan.Apply: the install callback answers arbitrarily, and the archive paths that are too long are a parameter.
- Repository index files and their parsing; the list of names a package offers comes split.
- DebVersion.VersionCompare: unsigned long is 64 bits wide, and versions hold no NUL.
- The gzip member around a DEFLATE stream: header flags, CRC32 and the temporary file.
- The checksum over `struct xz_dec_hash` is that of little-endian memory with its padding zero.
- XzIndex.Decoder.DecMain: begins at the Index indicator and ends before the stream footer; blocks, and LZMA2, are not modelled.
- TarWrite.Writer.WriteFile: writes to the archive succeed; members that are neither files nor directories are not written by the code.
- TarRead.RoundTrip: archives are shorter than 2 to the 63 bytes, where `long` has 64 bits, and the callback accepts every entry; `TarRead.Walk` has the other cases.
- GptTool.ReadHeader: sector numbers are below 2 to the 55, so that byte offsets do not wrap around.
- GptAdd.Add: headers of other sizes than the tool's own (92-byte headers, 128 entries of 128 bytes) are not modelled; type names and partition names come translated, and generated GUIDs are arbitrary.
- The older partition writer of `src/gpt.c`, the FAT and NTFS formatters, the VFS adapter, command parsing and printing.
- CivilDate.UtcTimeOrder: unbounded years; overflow of 64-bit seconds is not modelled.
