# MyOS: a verified model of the kernel's data structures

MyOS is a small 32-bit kernel: a FAT16 file system behind a command line, a text terminal drawn into a
framebuffer, a frame allocator and a round-robin scheduler. This project models those parts in Dafny and
proves what they are for.

**File system** (`Layout`, `Chains`, `Tree`, `Volume`, `DiskBytes`, `Creation`, `Removal`, `Simulation`, `Consequences`,
`Leaks`, `Lasting`, `Interruptions`, `Devices`, `Fat16`). The disk is a sequence of 512-byte sectors; everything is
stated down to the bytes that are stored, and `DiskBytes` says with sector numbers and offsets which bytes each call
reads and leaves. `Fat16.FileSystem` is the code, with sector buffers updated in place and written back; each of
its methods is proved to compute a function of `Volume`, and to write the sectors in the order that `Volume.Writes`
gives. `Tree.Sound` is the ownership invariant: every live entry that can be reached from the root owns an acyclic
chain of clusters that ends in an end mark, no cluster is on the chains of two entries, and every reachable directory
is free behind its end mark. `Simulation` proves that the calls on a sound disk are exactly the calls of an abstract
file system that is a tree of named nodes, a current directory and a number of free clusters; so every run from a disk
with a zero FAT and root is safe, the current directory never dangles, directories form a tree, and every answer along
the run is the abstract one. `Consequences` draws from it what a user relies on: conservation of clusters, frame
properties, reading back, and the effect of a write undone by a removal. `Leaks` says exactly which calls lose
clusters, `Lasting` what stays over a run of calls, and `Interruptions` what stands on the disk between two sector
writes.

**Command line** (`Strings`, `Numbers`, `Shell`, `Commands`, `Lines`, `Keyboard`, `Machine`). The tokenizer with its hidden cursor,
the interpreter that cuts the line up in place, and the line editor with history and completion are classes over
the same byte buffers as in the source. `Commands` and `Lines` give every command line by its text: what it means, the
bytes it changes on the disk and the texts it prints. `Machine` puts keyboard, interpreter and disk together: what is typed
into `write` is what `cat` prints, provided no earlier slot of the directory has the name, in which case `cat` goes on
printing the older file; every other name prints what it printed before.

**Screen** (`Vga`, `Screen`, `Drawing`, `Typing`, `Showing`, `Mouse`). The terminal keeps 1,440,000 bytes of framebuffer equal to the
picture of a grid of 37 rows of 50 cells, over wrapping, erasing and the overlapping scroll. The mouse pointer's
saving and restoring leaves every byte as it was. `Showing` joins the two parts: what is typed into `write` stands on
the screen after `cat`.

**Memory and tasks** (`Words`, `Pmm`, `Task`). The bitmap packed into 32-bit words stands for a set of frames.
The scheduler is stated for any number of task slots.

## Findings

Where the code does not do what one would expect, the code is modelled as it is, and a lemma says exactly when
it does.

- `write` does not look for the name it stores. A name that an earlier slot of the directory has is stored again
  behind it, and `cat` goes on showing the older file: after a write that was stored, `cat` shows the new content
  under the name written if and only if that is ASCII and no earlier slot has it, and what it showed before otherwise
  (`Consequences.CatAfterWrite`; two writes of one name in `SecondWriteExample`). This is reached by ordinary typing.
- A file is one cluster. The project's README (lines 19 and 28) speaks of files across several clusters and of
  `write` allocating clusters; `write_file` takes one cluster and keeps at most 511 bytes, while the size field
  records the whole length. The size is that of what was kept exactly if the content has at most 511 bytes
  (`Consequences.SizeIsTrue`; 512 bytes in `LongContentExample`). Reading and removing are stated for chains of any
  length.
- Names are compared as signed against unsigned characters, so a name with a byte of 0x80 or more is never found
  (`Consequences.MatchesExactly`, `CatAfterWrite`, `WriteThenRemove`; bytes 0xC1 in `ForeignNameExample`). A new name
  whose first byte is 0xE5 is stored as a deleted entry: its cluster is lost and nothing shows
  (`Leaks.DeletedNameIsLost`).
- The inputs of the last two points reach the file system only from direct callers of `write_file` or from disk images
  made elsewhere: every call that a typed line makes has an ASCII name and a content that is kept whole
  (`Machine.TypedCallsFit`).
- Removing a directory frees the clusters of the directory alone. Nothing is lost if and only if it has no live entry
  (`Leaks.RemovingLeaks`); over a run, nothing is lost if and only if no call removed a directory with an entry or
  stored a name beginning with 0xE5 (`Leaks.NothingIsLost`; a run that loses a cluster in `RemovedDirectoryIsLost`).
- `write` and `mkdir` link the entry before they allocate its cluster. The two disks in between are sound if and only
  if the new name begins with 0xE5 (`Interruptions.CreationOrderIsUnsafe`); `rm` marks before it frees, and its disk
  in between is sound.
- The first mouse event restores a square that was never saved; it leaves the screen alone exactly if that
  square was black (`Mouse.FirstEventBlanksSquare`; a white byte in `WhiteSquareExample`).
- The buffer of ten characters in `math` holds exactly the results from -99999999 to 999999999
  (`Numbers.FormFitsTen`; 1000000000 in `TenDigitExample`).

## Conventions

- Reading and writing sectors become operations on the sequence of sectors. The image must hold the sector of
  cluster 255, so it has at least 354 sectors.
- Commands run inside the keyboard interrupt behind an interrupt gate, so each one is one atomic step.
- The disk keeps a ghost history of its states, one for each sector write.
- Output is the list of messages handed to `print`, one by one, a character printed alone being a message too;
  C strings that are only read are passed as the bytes before their NUL; plain `char` is signed, as on the kernel's target.
- The search loop that `cat`, `cd` and `rm` each contain is one method, and so is the part that `write_file` and
  `make_directory` share. A 16-bit or 32-bit field stored through a pointer becomes the stores of its
  little-endian bytes.
- Signed overflow is written out as wrap-around in `atoi`. `n & 0x0F` and `n >>= 4` of an unsigned number are its
  remainder and quotient by 16; the words of the frame bitmap use bitwise operations.

## Model

| member | source | states |
|---|---|---|
| `Bytes.UpToNulUnique` | fs/fat16.c:168-171 | a text that has no NUL and is followed by one is what printing the buffer shows |
| `Bytes.SignedCharRange` | libc/string.c:4-14 | a character is compared as the value from -128 to 127 with the same eight bits |
| `Layout.PutFatUpdates` | fs/fat16.c:263-265 | storing two bytes of the FAT sector changes exactly one entry of its 16-bit view |
| `Layout.FatInjective` | fs/fat16.c:206-208 | the 16-bit view determines the FAT sector byte by byte |
| `Layout.FatSectorStores` | fs/fat16.c:380-391 | every table of 256 entries is stored by a sector that reads back as it |
| `Layout.PutEntryAt` | fs/fat16.c:241-248 | storing name, extension, attributes, cluster and size makes slot k that entry and leaves the other 15 as they were |
| `Layout.TailStands` | fs/fat16.c:246-248 | the six bytes stored for cluster and size stand for these numbers |
| `Layout.ReplacedBytes` | fs/fat16.c:241-248 | replacing the 32 bytes of one slot leaves the bytes of the other 15 |
| `Layout.DeleteAt` | fs/fat16.c:376 | marking a slot deleted makes it dead and leaves every other slot as it was |
| `Chains.ChainUnique` | fs/fat16.c:164-173 | a start cluster has at most one complete chain |
| `Chains.ChainEnd` | fs/fat16.c:166 | only the last cluster of a chain carries an end mark |
| `Chains.ChainStep` | fs/fat16.c:172 | the table leads from each cluster of a chain to the next, and from the last to an end mark |
| `Chains.ChainFrame` | fs/fat16.c:386-390 | changes of the table off a chain keep the chain |
| `Chains.ChainKept` | fs/fat16.c:206-211 | allocating a free cluster keeps every chain and takes a cluster that is on none |
| `Chains.OnChainAllocated` | fs/fat16.c:208 | a cluster on a chain is never offered as free |
| `Chains.RangedConfines` | fs/fat16.c:386-390 | on a table whose entries are below 256 or end marks no walk leaves the table, cyclic tables included |
| `Chains.ChainReached` | fs/fat16.c:386-390 | the freeing walk from the start of a chain reaches exactly the clusters of the chain |
| `Chains.ReachedEarly` | fs/fat16.c:386-390 | once the walk repeats a cluster it has met everything it ever meets |
| `Chains.FreeingStep` | fs/fat16.c:387-389 | each turn of the freeing loop either shrinks the set of clusters not yet freed or is the last on a cycle |
| `Chains.FreeingDone` | fs/fat16.c:386-391 | when the freeing loop stops, the freed clusters are exactly those reached in the original table |
| `Chains.AllocateOne` | fs/fat16.c:265 | an allocation takes exactly one cluster out of the free set |
| `Chains.FreeChain` | fs/fat16.c:386-390 | freeing a chain adds exactly its clusters to the free set, which grows by its length |
| `Tree.WalkUnique` | fs/fat16.c:164-173 | a start cluster has at most one walk that comes to an end, inside the table or beyond it |
| `Tree.CycleNeverEnds` | fs/fat16.c:166-173 | a walk that comes back to where it started does not end |
| `Tree.ChainIsWalk` | fs/fat16.c:164-173 | a complete chain is exactly what the walk of cat visits |
| `Tree.DirectoriesFormATree` | fs/fat16.c:343 | on a sound disk no directory is reachable along two paths |
| `Tree.DirectoryResolves` | fs/fat16.c:342-343 | on a sound disk a directory entry's cluster can be entered |
| `Tree.ReachableAllocated` | fs/fat16.c:14-20 | a reachable directory is the root or an allocated cluster |
| `Volume.FreeClusterFrom` | fs/fat16.c:207-212 | the lowest free cluster, 0 exactly if none is left |
| `Volume.FreeSlotFrom` | fs/fat16.c:215-222 | the lowest slot that is free or deleted, none exactly if all are live |
| `DiskBytes.DirectoryBytes` | fs/fat16.c:14-20 | the current directory is sector 68 for the root and sector 98 + c for cluster c |
| `DiskBytes.TableBytes` | fs/fat16.c:186-200 | entry c of the table is bytes 2c and 2c + 1 of sector 50, the low one first |
| `DiskBytes.EntryBytes` | fs/fat16.c:151-165 | the fields of slot k byte by byte: name at 32k, extension at 8, attributes at 11, cluster at 26, size at 28; live unless it begins with 0 or 0xE5, a directory exactly with 0x10 |
| `DiskBytes.ClusterSearch` | fs/fat16.c:202-213 | the search finds the lowest cluster from 2 to 255 whose two bytes are 0, and 0 exactly if there is none |
| `DiskBytes.SlotSearch` | fs/fat16.c:215-222 | the search finds the lowest of 16 slots that begins with 0 or 0xE5 |
| `DiskBytes.FindBytes` | fs/fat16.c:363-374 | the search by name finds slot k exactly if its eight bytes are the name, padded with blanks, and below 0x80, and every slot before it is used, by another name or a deleted one |
| `DiskBytes.WriteBytes` | fs/fat16.c:224-269 | every byte of the disk after a write: 18 bytes of the first open slot with attributes 0x20 and the length, the content cut after 511 bytes in the sector of the first free cluster, 0xFFFF in the table, and nothing else; or the disk unchanged |
| `DiskBytes.MakeBytes` | fs/fat16.c:271-313 | the same for mkdir: the padded name, attributes 0x10, size 0, a sector of zeros |
| `DiskBytes.CreateOrder` | fs/fat16.c:249-266 | a creation rewrites the directory, then the sector of the cluster, then the table |
| `DiskBytes.RemoveBytes` | fs/fat16.c:354-399 | every byte of the disk after rm: one byte 0xE5 in the directory, zeros in the table for the linked clusters of the entry, and nothing else |
| `DiskBytes.RemoveNothing` | fs/fat16.c:354-399 | rm of a name that no slot answers to changes nothing |
| `DiskBytes.RemoveOrder` | fs/fat16.c:376-391 | rm rewrites the directory, then the table |
| `DiskBytes.CatBytes` | fs/fat16.c:140-180 | cat shows, for each linked cluster c in order, the bytes of sector 98 + c before the first NUL, at most 511 |
| `DiskBytes.CatNothing` | fs/fat16.c:164-175 | of an entry whose cluster is below 2 or from 0xFFF8 on it shows nothing |
| `DiskBytes.CatNotFound` | fs/fat16.c:179 | cat of a name that no slot answers to finds nothing |
| `DiskBytes.NextBytes` | fs/fat16.c:186-200 | the walk goes on with the word at byte 2c behind the start of sector 50, in whichever sector that is |
| `DiskBytes.ChangeBytes` | fs/fat16.c:321-348 | cd goes to the cluster in bytes 26 and 27 of the slot that answers to the name, if its byte 11 is 0x10, and stays otherwise |
| `DiskBytes.ChangeToRoot` | fs/fat16.c:316-320 | cd of "/" or ".." goes to the root, whatever the directory holds |
| `DiskBytes.ChangeNothing` | fs/fat16.c:351 | cd of any other name that no slot answers to stays |
| `Creation.LinkedPlaces` | fs/fat16.c:241-249 | a new entry changes no other place of the tree: every path resolves as before, but the new one |
| `Creation.OldTexts` | fs/fat16.c:249-266 | what cat shows of every entry, directories included, stays when an entry is installed elsewhere |
| `Creation.OldNode` | fs/fat16.c:249-266 | every node that existed keeps its name, chain and text when an entry is installed |
| `Creation.NewPlace` | fs/fat16.c:246-266 | the new entry owns exactly the cluster it got and shows the text of its sector |
| `Creation.GrownSound` | fs/fat16.c:224-313 | installing an entry keeps the ownership invariant |
| `Creation.GrownView` | fs/fat16.c:224-313 | the tree gains exactly the new node, or nothing if its name begins with the deletion mark |
| `Creation.InstalledGrows` | fs/fat16.c:249-266 | the three sector writes, byte for byte, are such an installation; the data sector is never the FAT or a directory |
| `Removal.CutPlaces` | fs/fat16.c:376-377 | everything under the removed entry is unreachable, every other path resolves as before |
| `Removal.CutSound` | fs/fat16.c:376-391 | a removal keeps the ownership invariant |
| `Removal.CutView` | fs/fat16.c:376-391 | the tree loses exactly the removed subtree |
| `Removal.MarkedCuts` | fs/fat16.c:376-377 | the single byte written to the directory is such a removal |
| `Removal.RemovedCuts` | fs/fat16.c:376-391 | so are the directory write and the FAT write together |
| `Simulation.FindAgrees` | fs/fat16.c:363-374 | on a directory that is free behind its end mark the search finds the first live entry of the name, or none exactly if there is none |
| `Simulation.FreeSlotAgrees` | fs/fat16.c:215-222 | the slot search finds the first slot that the tree does not use |
| `Simulation.DiskFullAgrees` | fs/fat16.c:224-229 | the disk is reported full exactly if no cluster is free |
| `Simulation.FileText` | fs/fat16.c:254-258 | the sector of a new file prints as its content, cut at 511 bytes |
| `Simulation.CreateAgrees` | fs/fat16.c:224-313 | creating an entry on the disk and adding a node to the abstract tree agree in result and answer |
| `Simulation.RemoveAgrees` | fs/fat16.c:354-399 | removing a name on the disk and pruning the abstract tree agree |
| `Simulation.ChangeAgrees` | fs/fat16.c:315-352 | changing the directory agrees; the cluster entered is that of a reachable directory |
| `Simulation.CatAgrees` | fs/fat16.c:140-180 | the walk of cat ends and shows the pieces of the abstract file; of a directory, the texts of the clusters that its path leads to |
| `Simulation.StepSimulates` | fs/fat16.c:140-399 | main theorem for one call: disk and abstract file system stay in step and give the same answer |
| `Simulation.StepKeepsSafe` | fs/fat16.c:202-399 | every call keeps the ownership invariant and a current directory that is reachable |
| `Simulation.RunSimulates` | fs/fat16.c:140-399 | the same at every call of every run, states and answers |
| `Simulation.BlankRepresents` | fs/fat16.c:10 | a disk with a zero FAT and root is the empty file system with 254 free clusters |
| `Simulation.EveryRunIsSafe` | fs/fat16.c:202-399 | from such a disk every run keeps the invariant and gives the answers of the abstract file system |
| `Consequences.AddingTakesOneCluster` | fs/fat16.c:202-313 | a successful write or mkdir lowers the number of free clusters by one; a failed one changes nothing at all |
| `Consequences.RemovingFreesTheChain` | fs/fat16.c:354-399 | rm frees exactly the chain of the entry found and raises the number of free clusters by its length; if nothing is found nothing changes |
| `Consequences.AddingKeepsOthers` | fs/fat16.c:224-313 | a write or mkdir leaves what cat shows of every other file in every directory |
| `Consequences.RemovingKeepsOthers` | fs/fat16.c:354-399 | rm leaves what cat shows of every other file in every directory outside the removed subtree |
| `Consequences.CatKept` | fs/fat16.c:224-313 | a write or mkdir leaves what cat shows of every other name of the current directory, directories included |
| `Consequences.MatchesExactly` | fs/fat16.c:156-161 | the search finds two names equal exactly if they are equal and ASCII |
| `Consequences.NotFoundUnlessAscii` | fs/fat16.c:151-161 | no directory whatever has an entry that the search finds under a name that is not ASCII |
| `Consequences.StoredEntry` | fs/fat16.c:241-248 | the entry that a successful write stores, in the first slot without a live one, with the lowest free cluster |
| `Consequences.SizeIsTrue` | fs/fat16.c:246-258 | below 2^32 bytes the stored size is the content's length, and that of what was kept exactly if it is at most 511 |
| `Consequences.LongContentExample` | fs/fat16.c:246-258 | 512 characters: the size says 512 and cat shows 511 |
| `Consequences.ForeignNameExample` | fs/fat16.c:156-161 | a name of bytes 0xC1 is stored and not found |
| `Consequences.FirstWriteIsStored` | fs/fat16.c:224-269 | on a disk with a zero FAT and root the first write succeeds, and no name is in use |
| `Consequences.StoredIfRoom` | fs/fat16.c:224-239 | a write or mkdir succeeds exactly if there is a free cluster and a free slot |
| `Consequences.StoredNode` | fs/fat16.c:151-161 | after a write under an ASCII name that no earlier slot has, the search finds the new slot |
| `Consequences.EarlierIsFound` | fs/fat16.c:151-161 | an entry of the name in an earlier slot is still the one that is found after a write or mkdir |
| `Consequences.CatAfterWrite` | fs/fat16.c:140-269 | after any write that was stored, and for any name: cat shows the new content if it is the name written, that is ASCII and no earlier slot has it, and otherwise what it showed before |
| `Consequences.SecondWriteExample` | fs/fat16.c:140-269 | two writes of one name are both stored, and cat shows the first |
| `Consequences.WriteThenRemove` | fs/fat16.c:224-399 | a write and the removal of that name restore the FAT sector and the whole tree if and only if the name is ASCII and no earlier slot has it |
| `Leaks.RemovalLeaks` | fs/fat16.c:374-391 | a removal loses exactly the clusters of the entries inside the removed one |
| `Leaks.RemovingLeaks` | fs/fat16.c:374-391 | so nothing is lost if and only if it holds no entry |
| `Leaks.GrowthLeaks` | fs/fat16.c:241-266 | a creation loses its cluster exactly if the new entry is not live |
| `Leaks.StepLeaks` | fs/fat16.c:224-399 | no call recovers a lost cluster, and a call loses none if and only if it neither stores a name that begins with the deletion mark nor removes a directory with a live entry |
| `Leaks.RunLeaks` | fs/fat16.c:224-399 | the same over every run |
| `Leaks.NothingIsLost` | fs/fat16.c:224-399 | from a disk with a zero FAT and root, every allocated cluster belongs to a reachable entry after a run if and only if no call of it met that condition |
| `Leaks.RemovedDirectoryIsLost` | fs/fat16.c:271-399 | making a directory, writing a file in it, going back and removing it loses a cluster |
| `Leaks.DeletedNameIsLost` | fs/fat16.c:224-269 | a file whose name begins with the deletion mark loses its cluster and leaves the tree as it was |
| `Leaks.MarkingLeaks` | fs/fat16.c:374-378 | between the two writes of rm exactly the chain of the entry and the clusters of the entries inside are lost |
| `Lasting.NodeStep` | fs/fat16.c:224-399 | one call keeps an entry exactly if it does not remove it or a directory above it, and then unchanged |
| `Lasting.NodeLasts` | fs/fat16.c:224-399 | an entry stays unchanged over every run in which no call does so |
| `Lasting.FoundStep` | fs/fat16.c:151-161 | after one call the search finds the same entry exactly if the call neither removes it nor adds the name in an earlier slot |
| `Lasting.FoundLasts` | fs/fat16.c:151-161 | so over every run of such calls |
| `Lasting.FileLasts` | fs/fat16.c:140-399 | over every run of such calls, in whatever directories, cat shows of a file what it showed before |
| `Interruptions.RemovalOrderIsSafe` | fs/fat16.c:374-392 | between the two writes of rm the disk is sound, has lost the entry and keeps the current directory; lost are exactly the chain of the entry and the clusters of the entries inside |
| `Interruptions.RemovalWrites` | fs/fat16.c:376-391 | rm of a name that is found writes twice: the marked directory and the end of the call; otherwise never |
| `Interruptions.InterruptedRemoval` | fs/fat16.c:374-392 | after every sector write of rm the disk is sound |
| `Interruptions.CreationOrderIsUnsafe` | fs/fat16.c:241-266 | the disks after the first and the second write of a creation are sound if and only if the name begins with the deletion mark |
| `Interruptions.InterruptedCreation` | fs/fat16.c:224-313 | a creation that succeeds writes three times, ends with the third, and is sound in between exactly in that case; one that fails never writes |
| `Fat16.FileSystem.ReadCurrentDirectory` | fs/fat16.c:14-20 | delivers the sector of the current directory |
| `Fat16.FileSystem.WriteCurrentDirectory` | fs/fat16.c:22-28 | replaces that sector and no other |
| `Fat16.FileSystem.GetNextCluster` | fs/fat16.c:186-200 | the bytewise read is the entry of the 16-bit view for every cluster of the table |
| `Fat16.FileSystem.FindFreeCluster` | fs/fat16.c:202-213 | finds the lowest free cluster |
| `Fat16.FileSystem.FindFreeDirEntry` | fs/fat16.c:215-222 | finds the lowest free slot, -1 if there is none |
| `Fat16.FileSystem.NameMatches` | fs/fat16.c:155-161 | compares eight characters, signed against unsigned |
| `Fat16.FileSystem.FindEntry` | fs/fat16.c:363-374 | finds the first live entry of the padded name before the end mark |
| `Fat16.FileSystem.StoreEntry` | fs/fat16.c:241-248 | writes exactly the filled-in fields of one slot |
| `Fat16.FileSystem.InstallEntry` | fs/fat16.c:249-266 | directory, data and FAT sector are rewritten, in that order, and nothing else |
| `Fat16.FileSystem.Create` | fs/fat16.c:225-266 | state, answer and sector writes of the part that write_file and make_directory share, on every path |
| `Fat16.FileSystem.WriteFile` | fs/fat16.c:224-269 | state, output and sector writes are those of the specification, on every path |
| `Fat16.FileSystem.FileData` | fs/fat16.c:252-258 | the data buffer is the content up to 511 bytes, NUL-padded |
| `Fat16.FileSystem.MakeDirectory` | fs/fat16.c:271-313 | state, output and sector writes are those of the specification, on every path |
| `Fat16.FileSystem.EmptyCluster` | fs/fat16.c:303-304 | the sector of a new directory is zero |
| `Fat16.FileSystem.DirectoryName` | fs/fat16.c:288-295 | the name padded to 8 characters, with a blank extension |
| `Fat16.FileSystem.ChangeDirectory` | fs/fat16.c:315-352 | state and output are those of the specification, on every path; "/" and ".." lead to the root from everywhere |
| `Fat16.FileSystem.FreeLoop` | fs/fat16.c:384-390 | the loop ends on every table that confines the walk, even a cyclic one, and zeroes exactly the clusters reached |
| `Fat16.FileSystem.RemoveFile` | fs/fat16.c:354-399 | state, output and sector writes are those of the specification, on every path |
| `Fat16.FileSystem.CatFile` | fs/fat16.c:140-180 | the output is that of the specification; nothing else changes |
| `Fat16.FileSystem.PrintWalk` | fs/fat16.c:166-173 | visits exactly the clusters of the walk in order, inside the table or beyond it, and prints each |
| `Fat16.FileSystem.PrintText` | fs/fat16.c:170-171 | prints the buffer up to its first NUL, at most 511 bytes |
| `Strings.StringAt` | libc/string.c:24-30 | the C string at a position: no NUL inside, one behind |
| `Strings.StrLen` | libc/string.c:24-30 | the length of the C string |
| `Strings.StrCmp` | libc/string.c:4-14 | the comparison of the two C strings |
| `Strings.CompareEqual` | libc/string.c:4-14 | strcmp is 0 exactly on equal strings |
| `Strings.StrNCmp` | libc/string.c:16-22 | the comparison of the first n characters |
| `Strings.CompareNPrefix` | libc/string.c:16-22 | strncmp over the length of the first string is 0 exactly if it is a prefix of the second |
| `Strings.JoinTokens` | libc/string.c:32-49 | the tokens of a text, each followed by the delimiter, are the text, up to one delimiter at its end |
| `Strings.TokensAvoid` | libc/string.c:40-47 | no token contains the delimiter |
| `Strings.CutDeliversHead` | libc/string.c:36-48 | a call delivers the text up to the next delimiter as a C string in place, nothing exactly if no text is left; with delimiter NUL the whole rest |
| `Strings.CutLeavesTail` | libc/string.c:40-47 | the cursor then stands on what follows the delimiter |
| `Strings.CutBlanks` | libc/string.c:41-43 | the buffer is the old one with the delimiters between the two cursors replaced by NULs |
| `Strings.Tokenizer.Strtok` | libc/string.c:32-49 | token, buffer and hidden cursor after a first or a later call |
| `Numbers.Reverse` | libc/string.c:59-70 | reverses the first characters of the buffer in place and leaves the others |
| `Numbers.StoreDigits` | libc/string.c:79-81 | the digit loop ends and leaves the decimal digits backwards |
| `Numbers.Itoa` | libc/string.c:72-86 | leaves the decimal form, after a minus for negative numbers, and its NUL; the rest of the buffer stays |
| `Numbers.Atoi` | libc/string.c:51-57 | the value of the text in base 10, wrapped to 32 bits at each step |
| `Numbers.DecimalIsNumeral` | libc/string.c:79-81 | the decimal form is a numeral without superfluous zeros and stands for its number |
| `Numbers.NumeralUnique` | libc/string.c:72-86 | it is the only such numeral |
| `Numbers.DecimalShortest` | libc/string.c:72-86 | no text of digits for the number is shorter |
| `Numbers.DecimalLength` | libc/string.c:72-86 | a number has at most k digits exactly if it is below 10 to the k |
| `Numbers.FormFits` | libc/string.c:72-86 | every 32-bit number takes at most ten characters, eleven with a sign, and none is NUL |
| `Numbers.FormFitsTen` | kernel/shell.c:181-203 | form and NUL fit the buffer of math exactly for results from -99999999 to 999999999 |
| `Numbers.TenDigitExample` | kernel/shell.c:181-203 | 1000000000 takes ten characters, and its NUL has no room |
| `Numbers.FormInjective` | libc/string.c:72-86 | different numbers print differently |
| `Numbers.DecimalReadsBack` | libc/string.c:51-86 | for 0 <= n < 2^31, atoi of itoa is n, and the form is the unique and shortest numeral for n |
| `Numbers.HexToString` | libc/string.c:90-99 | leaves 0x, eight hexadecimal digits and a NUL; the rest of the buffer stays |
| `Numbers.HexReadsBack` | libc/string.c:94-97 | k hexadecimal digits decode back to every number below 16 to the k |
| `Numbers.HexDecodes` | libc/string.c:90-99 | the text decodes back to every 32-bit number |
| `Shell.ParseIsProper` | kernel/shell.c:206-262 | whatever is typed, the file system gets proper arguments |
| `Shell.SafeCall` | kernel/shell.c:93-103 | on a safe disk every call can be answered: the walks of cat and rm end |
| `Shell.EchoSays` | kernel/shell.c:120-128 | the messages of echo are its arguments as typed, with a blank after a last one that lacks it, and a line feed |
| `Shell.LookupIs` | kernel/shell.c:98-103 | the search in the command table passes every name that differs |
| `Shell.Shell.Execute` | kernel/shell.c:93-107 | a line of a modelled command does to the disk, and prints, exactly what it parses to; what each line parses to is stated with its text in `Commands` |
| `Shell.Shell.NextToken` | libc/string.c:32-49 | each handler's call delivers the next argument and leaves the rest of the line |
| `Shell.Shell.FindCommand` | kernel/shell.c:98-103 | finds the first command of that name |
| `Shell.Shell.EchoTokens` | kernel/shell.c:120-128 | prints every token followed by a blank, and leaves every blank of the arguments a NUL |
| `Shell.Shell.WriteArguments` | kernel/shell.c:206-214 | name and extension up to a blank, the content whole; each missing exactly if its text is empty |
| `Shell.Shell.BuildFatName` | kernel/shell.c:216-222 | the two loops build the name of 8 + 3 characters |
| `Shell.Shell.CmdWrite` | kernel/shell.c:206-224 | write with its usage error |
| `Shell.Shell.CmdOne` | kernel/shell.c:237-263 | mkdir, cat, cd and rm with their usage errors |
| `Shell.Shell.CmdMkApp` | kernel/shell.c:325-329 | mkapp writes its program in the current directory |
| `Commands.FirstWord` | kernel/shell.c:93-107 | which first words are commands at all: the 28 names of the table, word for word, and which 7 of them are modelled |
| `Commands.ParseEcho` | kernel/shell.c:120-128 | `echo` and a text parse to an echo of its words up to every blank |
| `Commands.ParseMkdir` | kernel/shell.c:237-245 | `mkdir` and a text parse to a mkdir of its first word, and to a usage error exactly if nothing follows |
| `Commands.ParseCd` | kernel/shell.c:255-263 | the same for `cd` |
| `Commands.ParseCat` | kernel/shell.c:246-254 | `cat` and a blank parse to a usage error exactly if nothing follows, and else to a cat of the text up to the next blank, which may be empty |
| `Commands.ParseRm` | kernel/shell.c:309-316 | the same for `rm` |
| `Commands.ParseMkapp` | kernel/shell.c:325-329 | `mkapp`, with any text behind it, parses to a write of CD 80 EB FE under APP.BIN |
| `Commands.ParseWrite` | kernel/shell.c:206-224 | `write N E C` parses to a write of C under the padded name, blanks in C included |
| `Commands.ParseWritePadded` | kernel/shell.c:216-223 | the padded name character by character: N cut or padded to 8, E to 3, with blanks |
| `Commands.ParseWriteMissing` | kernel/shell.c:211-214 | `write` without a content, after nothing, a name or a name and an extension, is a usage error |
| `Lines.WriteLineRuns` | kernel/shell.c:206-224 | the line `write N E C` on a safe disk: the bytes of the disk after it and the text it prints, in each of the three cases |
| `Lines.MkdirLine` | kernel/shell.c:237-245 | the line `mkdir N` likewise |
| `Lines.MkappLine` | kernel/shell.c:325-329 | the line `mkapp` likewise, and its own message behind that of the write |
| `Lines.RmLine` | kernel/shell.c:309-316 | the line `rm N` where a slot answers: one byte of the directory and the table entries of its clusters, and the message |
| `Lines.RmLineMissing` | kernel/shell.c:309-316 | where none does, its error text, and nothing changes |
| `Lines.CatLinePrints` | kernel/shell.c:246-254 | the line `cat N` where a slot answers prints a line feed, the texts of its clusters and two line feeds |
| `Lines.CatLineMissing` | kernel/shell.c:246-254 | where none does, its error text |
| `Lines.CdToRoot` | kernel/shell.c:255-263 | the lines `cd ..` and `cd /` lead to the root from every directory of a safe disk, whatever any of them holds, and say so |
| `Lines.CdCalls` | fs/fat16.c:316-320 | as calls, ".." and "/" change the current directory to the root and nothing else, and answer so |
| `Lines.CdLine` | kernel/shell.c:255-263 | the line `cd N` where a slot answers enters its cluster exactly if byte 11 is 0x10, and says what it did |
| `Lines.CdLineMissing` | kernel/shell.c:255-263 | where none does, its error text |
| `Lines.EchoLine` | kernel/shell.c:120-128 | the line `echo` prints what was typed after it, with a blank behind a last word that lacks it, and a line feed |
| `Lines.EmptyLine` | kernel/shell.c:94 | the empty line does and prints nothing |
| `Lines.UnknownLine` | kernel/shell.c:104-106 | a line whose first word is none of the 28 names prints the word behind its error text |
| `Lines.MkdirUsage` | kernel/shell.c:239-242 | the text of a mkdir without a name |
| `Lines.CdUsage` | kernel/shell.c:258-261 | the text of a cd without a name |
| `Lines.CatUsage` | kernel/shell.c:249-250 | the text of a cat without a name |
| `Lines.RmUsage` | kernel/shell.c:311-314 | the text of an rm without a name |
| `Lines.WriteUsage` | kernel/shell.c:211-214 | the text of a write without a content |
| `Keyboard.KeyKeepsSane` | drivers/keyboard.c:58-129 | after every key the line and the remembered line have no NUL and at most 255 characters |
| `Keyboard.EchoIsLine` | drivers/keyboard.c:58-129 | the echo of a key, read with backspaces as deletions, turns the old line into the new one |
| `Keyboard.ScreenShowsLine` | drivers/keyboard.c:58-129 | so over every run of keys the echo shows exactly the line that Enter would submit |
| `Keyboard.TabIsIdempotent` | drivers/keyboard.c:37-56 | completion extends the line to a command or leaves it, never shortens it, and a second Tab does nothing |
| `Keyboard.UpRecallsLine` | drivers/keyboard.c:67-81 | the up key brings back exactly the last non-empty line, whatever was typed since |
| `Keyboard.KeysType` | drivers/keyboard.c:83-125 | pressing keys that spell a text, shift and caps lock among them, appends exactly that text to the line |
| `Keyboard.TextHasKeys` | drivers/keyboard.c:83-100 | every text of characters in the key tables is spelled by some keys, in every state of shift and caps lock |
| `Keyboard.LetterKey` | drivers/keyboard.c:90-99 | on a key whose plain character is a letter, shift and caps lock cancel each other |
| `Keyboard.OtherKey` | drivers/keyboard.c:90-99 | on every other key shift alone chooses the character |
| `Keyboard.TopRowKeys` | drivers/keyboard.c:17-28 | scancodes 0x10 to 0x19 type qwertyuiop, or QWERTYUIOP if exactly one of shift and caps lock is on |
| `Keyboard.HomeRowKeys` | drivers/keyboard.c:17-28 | scancodes 0x1E to 0x26 type asdfghjkl, or ASDFGHJKL likewise |
| `Keyboard.BottomRowKeys` | drivers/keyboard.c:17-28 | scancodes 0x2C to 0x32 type zxcvbnm, or ZXCVBNM likewise |
| `Keyboard.DigitKeys` | drivers/keyboard.c:17-28 | scancodes 0x02 to 0x0B type 1234567890, or !@#$%^&*() with shift, whatever caps lock is |
| `Keyboard.DashKeys` | drivers/keyboard.c:17-28 | scancodes 0x0C and 0x0D type - and =, or _ and + with shift |
| `Keyboard.BracketKeys` | drivers/keyboard.c:17-28 | scancodes 0x1A and 0x1B type the brackets, or the braces with shift |
| `Keyboard.QuoteKeys` | drivers/keyboard.c:17-28 | scancodes 0x27 to 0x29 type semicolon, quote and backquote, or colon, double quote and tilde with shift |
| `Keyboard.BackslashKey` | drivers/keyboard.c:17-28 | scancode 0x2B types a backslash, or a bar with shift |
| `Keyboard.CommaKeys` | drivers/keyboard.c:17-28 | scancodes 0x33 to 0x35 type comma, full stop and slash, or the angles and the question mark with shift |
| `Keyboard.StarAndBlankKeys` | drivers/keyboard.c:17-28 | scancodes 0x37 and 0x39 type a star and a blank |
| `Keyboard.ControlKeys` | drivers/keyboard.c:58-129 | by scancode: shift, caps lock, backspace, Enter, escape, and the keys that do nothing |
| `Keyboard.UpKey` | drivers/keyboard.c:67-81 | scancode 0x48 erases the line with as many backspaces as it has characters and brings back the remembered one |
| `Keyboard.FullLine` | drivers/keyboard.c:119-125 | on a line of 255 characters a key with a character does nothing |
| `Keyboard.TabCompletes` | drivers/keyboard.c:37-56 | scancode 0x0F completes a non-empty line to the first command that begins with it, and prints the rest of it |
| `Keyboard.TabDoesNothing` | drivers/keyboard.c:37-56 | it does nothing on an empty line, or if no command begins with the line |
| `Keyboard.LineEditor.AutocompleteTab` | drivers/keyboard.c:37-56 | the buffer becomes the first command that extends it, or stays; the echo is what was added |
| `Keyboard.LineEditor.RecallLast` | drivers/keyboard.c:67-81 | erases the line on the screen and copies and shows the remembered one |
| `Keyboard.LineEditor.Submit` | drivers/keyboard.c:101-113 | Enter remembers the line before the tokenizer cuts it up, runs it, if its command is modelled, and prompts |
| `Keyboard.LineEditor.HandleChar` | drivers/keyboard.c:114-126 | a backspace or a character, at most 255 of them |
| `Keyboard.LineEditor.HandleKey` | drivers/keyboard.c:58-129 | the editor after every scancode, and disk and output unless it submits a command that is not modelled |
| `Machine.KeyIsEffect` | drivers/keyboard.c:58-129 | what the interrupt handler does is one step of the machine of editor and disk, for modelled commands |
| `Machine.QuietKeys` | drivers/keyboard.c:58-129 | keys that submit nothing leave the disk and the current directory alone |
| `Machine.TypedCallsFit` | kernel/shell.c:206-263 | every call that a typed line makes has an ASCII name of 8 characters and a content that is kept whole |
| `Machine.TypedLosesOnlyByRemoval` | kernel/shell.c:206-329 | so the only typed lines that lose a cluster remove a directory with an entry |
| `Machine.WhatIsTypedIsReadBack` | kernel/shell.c:206-254 | after the line `write N E C` was stored and any keys that leave `cat`, a blank and a text on the line, Enter prints the usage error exactly if the text is empty, exactly C if its first word is padded to the name of N and no earlier slot has that name, and otherwise what it printed before; C is never cut, and the size field of its entry is its length |
| `Machine.TypedWriteIsReadBack` | kernel/shell.c:206-254 | the same for keys that spell the two lines, with Enter between them, on any good machine with an empty line |
| `Machine.FirstFileIsReadBack` | kernel/shell.c:206-254 | on a disk with a zero FAT and root, keys that spell `write N E C`, Enter, keys that spell `cat N` and Enter print exactly C, for the empty N with one more blank |
| `Machine.KeysRun` | drivers/keyboard.c:58-129 | any keys take the disk where the calls that their lines make take it |
| `Machine.CatAfterRun` | fs/fat16.c:140-399 | after a write that no earlier slot hides, and any run of calls that neither remove nor hide the file, cat shows its content |
| `Machine.ReadBackLater` | kernel/shell.c:206-254 | after `write N E C` was stored, with no earlier slot of its name, and after any keys, with any lines of modelled commands among them, that leave `cat N` on the line, Enter prints exactly C, if the calls in between neither remove nor hide the file and end in its directory |
| `Vga.Framebuffer.PutPixel` | drivers/vga.c:12-20 | changes exactly the three bytes of the pixel, at 2400 y + 3 x: blue, green, red; nothing off the screen |
| `Vga.Framebuffer.GetPixel` | drivers/vga.c:22-31 | the colour of the pixel, black off the screen |
| `Vga.Framebuffer.DrawRectangle` | drivers/vga.c:33-39 | exactly the bytes in the visible part of the box get the colour |
| `Vga.PixelBytes` | drivers/vga.c:12-31 | reading a pixel and writing it back is the identity on its bytes |
| `Screen.BoxIsCell` | drivers/screen.c:83-86 | a byte is in the box painted for a cell exactly if the picture takes it from that cell, at the same coordinates |
| `Screen.RowBelow` | drivers/screen.c:45-50 | 38400 bytes further on is the same place of the cell below |
| `Screen.ScrolledByte` | drivers/screen.c:48-53 | the scrolled bytes are the picture of the rows moved up by one, blank below |
| `Screen.PaintedPicture` | drivers/screen.c:83-86 | painting the box of a cell is a change of that cell |
| `Screen.Terminal.SetColor` | drivers/screen.c:152-154 | only characters printed from then on get the colour; the picture stays |
| `Screen.Terminal.ClearScreen` | drivers/screen.c:34-41 | the framebuffer is the picture of the blank grid, cursor at the top left |
| `Screen.Terminal.ShiftUp` | drivers/screen.c:48-53 | the forward copy over itself moves every byte by one text row and blanks the last |
| `Screen.Terminal.ScrollScreen` | drivers/screen.c:43-56 | the grid moves up by one row, the framebuffer is its picture |
| `Screen.Terminal.DrawCharGraphic` | drivers/screen.c:58-72 | paints exactly the 16 x 16 box with the glyph for the characters 32 to 127, nothing for the others |
| `Screen.Terminal.BackspaceOnScreen` | drivers/screen.c:98-110 | moves the cursor back, over the start of a row, and blanks that cell |
| `Screen.Terminal.PrintChar` | drivers/screen.c:74-96 | one step of the grid, with line feed, backspace, wrap and scroll; the framebuffer stays its picture, and no character stands at or after the cursor |
| `Screen.ExpandedPlain` | drivers/screen.c:116-131 | a message without a number conversion is printed as it is |
| `Screen.Terminal.PrintNumber` | drivers/screen.c:118-125 | a number is the steps of the characters of its decimal form |
| `Screen.Terminal.Print` | drivers/screen.c:112-133 | a message is the steps of its characters, with each conversion replaced by the next number |
| `Drawing.DrawsGlyph` | drivers/screen.c:58-96 | every character from 32 to 127 stands as a glyph of the current colour at the cursor, one row higher if the screen scrolled; every other cell stays, or moves up |
| `Drawing.DrawsNothing` | drivers/screen.c:58-96 | any other character but line feed and backspace draws nothing and moves the cursor |
| `Drawing.LineFeeds` | drivers/screen.c:77-79 | a line feed moves to the start of the next row, and scrolls at row 37 |
| `Drawing.StepsBack` | drivers/screen.c:98-110 | a backspace blanks the place before the cursor and moves there; in the first place it stays |
| `Drawing.RowIsByte` | drivers/screen.c:63-71 | the pixels of a row of a cell, read from left to right, are the binary form of the font's byte |
| `Drawing.BitIsSquare` | drivers/screen.c:65-69 | every bit of the font is a square of 2 x 2 pixels |
| `Drawing.PixelColor` | drivers/screen.c:65-69 | lit pixels have the colour, blue first; all others are black |
| `Drawing.CellInPicture` | drivers/screen.c:83-86 | pixel (x, y) of the cell in row r and column c is at byte 2400 (16 r + y) + 3 (16 c + x) of the framebuffer |
| `Drawing.BelowIsBlack` | drivers/screen.c:43-56 | the eight lines below the last row are black |
| `Drawing.ConvertsNothing` | drivers/screen.c:116-117 | a message has a conversion exactly if a percent sign is followed by a d |
| `Drawing.ConvertsFirst` | drivers/screen.c:116-128 | the first conversion becomes the decimal form of the first number, and what follows is treated in the same way |
| `Typing.DisplayEcho` | drivers/screen.c:74-110 | an echo acts on the text displayed before the cursor as it does on the line |
| `Typing.LineIsDisplayed` | drivers/keyboard.c:58-129 | over every run of keys, and over wrapping and scrolling, the line that Enter would submit stands on the screen just before the cursor: its characters from 32 to 127 as glyphs, a control character as a blank |
| `Typing.EraseUndoesType` | drivers/screen.c:74-110 | typing a character and erasing it restores grid and cursor exactly, moved up by one row if the screen scrolled between |
| `Showing.StandsStep` | drivers/screen.c:74-96 | a character that is printed leaves earlier text where it stands, or one row higher |
| `Showing.PrintsAll` | drivers/screen.c:112-133 | printing messages without a number conversion one by one puts all their characters on the grid |
| `Showing.EnterPrints` | drivers/keyboard.c:101-113 | where cat shows C, the handler of Enter hands to print exactly a line feed, a line feed, C, two line feeds and the prompt `OS> `, as five messages |
| `Showing.EnterShows` | drivers/keyboard.c:101-113 | for a C without a number conversion these messages leave C on the screen, whatever was there before |
| `Showing.WrittenTextIsShown` | kernel/shell.c:206-254 | end to end, on any good machine and screen: after `write N E C` was stored, with no earlier slot of its name and no number conversion in C, and after any keys, with any lines of modelled commands among them, whose calls neither remove nor hide the file and end in its directory, and that leave `cat N` on the line, Enter leaves C on the screen |
| `Showing.TypedTextIsShown` | kernel/shell.c:206-254 | the same for keys that spell the two lines with Enter between them, if the write is stored, no earlier slot has the name, and C has no number conversion |
| `Showing.WhatIsTypedIsShown` | kernel/shell.c:206-254 | on a disk with a zero FAT and root, for a C without a number conversion: keys that spell `write N E C`, Enter, keys that spell `cat N` and Enter leave C on the screen, every character from 32 to 127 as a glyph |
| `Mouse.RestoreUndoesDraw` | drivers/mouse.c:33-59 | save, draw and restore at one position leave every byte as it was, on or off the screen, for any picture and colour |
| `Mouse.PointerPixel` | drivers/mouse.c:49-59 | in the picture, 1 paints the pixel black, 2 in the fill colour, anything else leaves it |
| `Mouse.PixelOutside` | drivers/mouse.c:49-59 | no pixel outside the 16 x 16 square is touched |
| `Mouse.SavedPixel` | drivers/mouse.c:33-39 | place 16 i + j of the buffer is the colour of the pixel at (x + j, y + i), black off the screen |
| `Mouse.FirstEventBlanksSquare` | drivers/mouse.c:31 | the first restore leaves the screen alone exactly if the square at (400, 300) was black |
| `Mouse.WhiteSquareExample` | drivers/mouse.c:31 | a frame with one white byte in that square is blanked there |
| `Mouse.Pointer.SaveBackground` | drivers/mouse.c:33-39 | the buffer holds the 256 colours of the square |
| `Mouse.Pointer.RestoreBackground` | drivers/mouse.c:41-47 | the visible part of the square gets the saved colours |
| `Mouse.Pointer.DrawMousePointer` | drivers/mouse.c:49-59 | outline and fill are painted, transparent pixels stay |
| `Mouse.Pointer.Move` | drivers/mouse.c:101-119 | every event keeps the background; the pointer moves by the movement and is moved back to the screen |
| `Words.OrBit` | drivers/pmm.c:10 | a bit of x or y |
| `Words.AndBit` | drivers/pmm.c:14 | a bit of x and y |
| `Words.NotBit` | drivers/pmm.c:14 | a bit of the complement |
| `Words.AndMask` | drivers/pmm.c:18 | a word and-ed with 1 << b is 0 exactly if bit b is clear |
| `Pmm.SetAdds` | drivers/pmm.c:9-11 | setting a bit adds exactly that frame to the set |
| `Pmm.ClearRemoves` | drivers/pmm.c:13-15 | clearing a bit removes exactly that frame |
| `Pmm.BitmapIsReservedAndOutstanding` | drivers/pmm.c:9-44 | in every run that frees only outstanding frames the bitmap is exactly the 256 reserved and the outstanding frames |
| `Pmm.NeverReserved` | drivers/pmm.c:25-44 | a reserved frame is never handed out or freed in such a run |
| `Pmm.FramesAreDisjoint` | drivers/pmm.c:30-38 | outstanding frames are aligned to 4096, lie between 1 and 16 MiB and do not overlap |
| `Pmm.FirstAndLast` | drivers/pmm.c:21-38 | the first frame handed out is the one at 0x100000, the last one at 0xFFF000 |
| `Pmm.FreedIsReused` | drivers/pmm.c:30-44 | a frame that is freed is the next one to be handed out, if no lower one is free |
| `Pmm.Allocator.InitPmm` | drivers/pmm.c:21-28 | exactly the first 256 frames are taken |
| `Pmm.Allocator.TestBit` | drivers/pmm.c:17-19 | nonzero exactly if the frame is taken |
| `Pmm.Allocator.AllocFrame` | drivers/pmm.c:30-38 | takes the lowest free frame and returns its address; 0 exactly if all 4096 are taken |
| `Pmm.Allocator.FreeFrame` | drivers/pmm.c:40-44 | frees exactly the frame of the address |
| `Task.CurrentAfterTicks` | cpu/task.c:18-28 | after k ticks of n tasks, for any k and n, the task that runs is k further modulo n |
| `Task.EveryTaskRunsOnce` | cpu/task.c:18-28 | in as many ticks as there are tasks, each runs exactly once |
| `Task.OnlyTask` | cpu/task.c:19 | the only task goes on, and its stack pointer is not saved |
| `Task.SavedWhileWaiting` | cpu/task.c:18-56 | no tick or creation touches the saved stack pointer of a waiting task |
| `Task.ResumesWhereItStopped` | cpu/task.c:20-27 | a task resumes with exactly the stack pointer it was preempted with |
| `Task.StartsWhereItWasCreated` | cpu/task.c:50-55 | a new task starts with exactly the stack pointer it was created with |
| `Task.Scheduler.InitMultitasking` | cpu/task.c:9-16 | only the first slot is active |
| `Task.Scheduler.Schedule` | cpu/task.c:18-28 | saves the stack pointer, passes to the next task and returns its stack pointer |
| `Task.Scheduler.NextActive` | cpu/task.c:22-25 | the inner loop ends at the next task in the circle |
| `Task.StackIsInItsFrame` | cpu/task.c:35-48 | the stack pointer of a new task is at 4052 in a frame that was free and is taken then |
| `Task.CourseKeeps` | cpu/task.c:30-56 | over every run of ticks, creations, allocations and frees of other outstanding frames, every stack stays an outstanding frame, and no two tasks have the same |
| `Task.StacksAreDisjoint` | cpu/task.c:30-56 | so the stacks of any two tasks created while a frame was free do not overlap, and lie outside the kernel's frames and below 16 MiB |
| `Task.SpawnedStack` | cpu/task.c:35-48 | the stack pointer that a creation stores is at 4052 in the frame of 4096 bytes that it took |
| `Task.Scheduler.CreateTask` | cpu/task.c:30-56 | takes the lowest free frame and fills the next slot, with address 0 if no frame is free; a full table prints its message and changes nothing |

## Left out

- Simulation.StepSimulates: gives what cat shows of a directory from the bytes of the disk, because the abstract state holds no bytes of directories.
- Simulation.CatAgrees: does so too.
- Simulation.EveryRunIsSafe: runs hold the calls write, mkdir, cd, rm and cat (mkapp is a write); the other commands that read or write the disk are listed below.
- DiskBytes.RemoveBytes: takes the clusters of the entry as linked by the table; on a safe disk they are (`Lines.RmLine`).
- DiskBytes.CatBytes: takes them so too; on a safe disk they are (`Lines.CatLinePrints`).
- DiskBytes.WriteBytes: requires a current directory that is the root or allocated, as in every safe state; so does MakeBytes.
- Fat16.FileSystem.CatFile: requires the walk to come to an end on sectors that the disk has, because on a cycle it does not (`Tree.CycleNeverEnds`); `Shell.SafeCall` gives this in every safe state.
- Fat16.FileSystem.PrintWalk: requires the same.
- Fat16.FileSystem.RemoveFile: requires the walk to stay in the table or end, because the source would index its buffer beyond 256 entries; `Shell.SafeCall` gives this in every safe state.
- Numbers.Itoa: excludes -2^31, whose negation is undefined in C.
- Screen.Terminal.Print: requires a number for every conversion, as C does, and none of them -2^31; the bytes of a file that contain a conversion are modelled as handed to print.
- Showing.EnterShows: requires a content without a number conversion, because print would take a number that is not passed; so do WrittenTextIsShown, TypedTextIsShown and WhatIsTypedIsShown.
- Showing.WrittenTextIsShown: requires the lines in between to be of modelled commands.
- Machine.KeysRun: requires submitted lines to be of modelled commands.
- Commands.FirstWord: names the commands whose handlers are not modelled, and says nothing else of them.
- Machine.ReadBackLater: requires the lines in between to be of modelled commands.
- Pmm.Allocator.FreeFrame: requires an address below 16 MiB, because others index beyond the bitmap.
- Task.Scheduler.CreateTask: does not model the words pushed on the stack, because they depend on assembly.
- Mouse.Pointer.Move: takes the decoded movement as a parameter and does not model 32-bit wrap-around, which bytes of movement cannot reach.
- Shell.Shell.Execute: says nothing of the commands help, color, read, math, draw, fsinfo, ls, mkdummy, crash, clear, beep, sleep, cpuinfo, uptime, time, alloc, lspci, run, kmsg, hack and netinit.
- Keyboard.LineEditor.Submit: says nothing of disk and output for them.
- Keyboard.LineEditor.HandleKey: says nothing of disk and output for them.
- Machine.KeyIsEffect: requires a submitted line to be of a modelled command.
- `create_dummy_file` overwrites the root and two FAT entries whatever the state, so it keeps no invariant of a run.
- Listing a directory, reading the BIOS parameter block and running a program only read the disk.
- The second FAT copy, time stamps, long names and clusters from 256 on are not used by the modelled calls.
- Port and disk I/O, PCI, network, clock, speaker and interrupt controllers are effects outside the program.
- `kmalloc`, the descriptor tables, paging and the boot code are one-shot table fills.
- The kernel log and its dump.
- A framebuffer pointer that is still null, where clearing and scrolling do nothing.
