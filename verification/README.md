# amitools: structures that stay consistent while they change

This project models the parts of amitools that change on-disk or in-memory structures in place, and proves that
they stay consistent over whole runs.

- **File system** (`Device`, `FileName`, `FileLayout`, `BitmapWords`, `BitmapStore`, `Bitmap`, `BlockCodec`,
  `Volume*`, `DeviceImage`). A mounted volume is one object: the table of node objects, the bitmap and the block device.
  `VolumeSpec` says what it is for: a map from folded paths to folders and byte strings, and the reply of every
  operation as a function of that map alone. `VolumeState` has the invariant that ties the map to nodes, blocks,
  hash chains and free blocks; `VolumeSteps` and `VolumeRemoval` show that creating and deleting a node keep it,
  `VolumeLookup` that bucket lookup, linear lookup and the map agree, `VolumeLoad` that a volume read from the device
  is the volume that was closed. `Volume` has the methods; `RunAll` is the main theorem, with `WrittenIsRead` on the
  specification side. `BlockCodec` takes each block record to its longs and back; the device of a volume only ever
  takes records that survive that, so `DeviceImage` can lay out every block under a good volume and read it back.
- **Rigid Disk Block** (`CylRanges`, `PartDevice`, `RDisk`, `RDiskRuns`). Cylinder ranges, the block list, the chains
  of partitions and file systems, and the translation of partition blocks to sectors of the disk. `RunsFromCreate`
  puts them together.
- **Hunk files** (`HunkStream`, `HunkBlocks`, `HunkLayout`, `HunkFile`, `HunkLoadSeg`, `HunkReload`, `HunkRounds`).
  Writer and parser as functions that undo each other, their bytes stated at their offsets, the stream loops proved
  equal to them, and the segment view on top, for broken files without END blocks too. `SaveThenLoadIff` is the main
  theorem.
- **Relocation and ROM splitting** (`Relocate`, `RomSplit`), **Kickstart ROMs** (`KickRom`, `RomBuilder`) and the
  **slot allocator** (`SlotArray`).

Every method that changes state is proved equal to a step of a specification function; the invariants and round
trips are lemmas about those functions. So that no specification function is taken on trust, lemmas whose names end in
`Exact`, `Layout` or `Reads`, and the `ensures` of the main methods, state what each computes without it: entries by
quantifiers, fields by their values, bytes by their offsets (`DeletionExact`, `HeaderOnDisk`, `AddedExact`,
`HeaderLayout`, `EachExact`). Errors of the original are outcomes (`None`, an error value); `Crash` stands
for an exception that is not one of the original's own error types.

What the proofs found in the code; a name in brackets is the member that states it exactly:

- `create_dir` with a missing parent raises `TypeError` while it builds its error text (`ADFSVolume.py:347-351`),
  not INVALID_PARENT_DIRECTORY. Deleting a root alias crashes, with `all` only after everything below is gone;
  reading one crashes too.
- `create_dir(":")`, and names whose directory part is a root alias such as `/a`, make entries that their own path
  name does not find (`CreatedIsFound`).
- The test for ':' and '/' in `FileName.is_valid` compares byte values with strings and never finds one; only the
  length counts (`Volumes.IsValid`).
- A name handed to `write_file` as a suggestion is checked component by component but used whole: with slashes it can
  be longer than the name field. From 31 bytes on the block keeps only part of it, from 256 on the write fails with the
  blocks already taken, as it does for a file of 4 GiB or more; the volume is broken exactly then (`RunAll`, `Breaks`,
  `CreateFile`, `LongSuggestionBreaks`), and never for names that are the base name of a path (`BaseShort`). A volume
  name can be too long in the same way (`Create`).
- `update_disk_time` does nothing between `create` and the next `open`, because the root block is not marked valid
  (`UpdateDiskTime`).
- `find_n_free(0)` gives None (`FirstFreeExact`).
- `add_partition` with a bad block size or a name of 256 bytes and `add_filesystem` without data raise after blocks
  are entered as used, so the books are wrong exactly then (`AddPartKeeps`, `AddFsKeeps`).
- `resize` takes 0 for "unchanged", changes its fields before a bound that fits no field makes the write fail
  (`ResizeKeeps` for exactly when, `ResizeTooHigh`), and does not compare the new low cylinder with the RDB area:
  partitions can then be put on RDB blocks (`ResizeSafeIff`, `ResizeIntoRdb`). `PartBlockDevice` accepts negative
  block numbers (`InsideIffNonNegative`).
- A file system whose size is not a multiple of 4 loses its last bytes when read back (`FsDataBack`, `OpenedInv`).
- An empty logical cylinder range is reported as free (`NoneIffFull`).
- Empty offset lists, and symbol names that are empty or hold a NUL, do not survive a hunk file (`LongRelsBack`,
  `WordTableBack`, `SymsBack`); word relocations written for a load module must be read as one (`BlockBack`).
  `setup_relocs` looks only at the offsets when it picks the word form, which then cannot be written with 65536 offsets
  or hunk number 65536 (`SetUpSavable`, `ShortYetTooBig`). `setup_code` and `setup_data` fail on data that is not whole
  longs, where the padding is a text string.
- Splitting and relocating restores a module unless one of its addresses lies at or above 2^31 and less than 2^31
  above the module (`SplitThenRelocate`); PC-relative entries differ between the two relocation forms
  (`EmbeddedOne`, `OneInside`).
- A written checksum makes every image of a size verify exactly when the size is whole longs (`WrittenVerifiesIff`).
- Freeing a slot that is not live puts it in the free list twice (`FreeTwice`), writing to one makes it free and live
  (`SlotArray.Set`); an array of size 0 still has one cell.

## Model

| member | source | states |
|---|---|---|
| Volumes.Volume.RunAll | amitools/fs/ADFSVolume.py:327-383 | any run of create_dir, write_file, read_file and delete on a mounted volume gives the replies and the final map of the specification on paths alone and keeps the whole block, chain and bitmap invariant, the used counter in step included, if and only if no operation of the run breaks the volume (`Breaks`) |
| VolumeSpec.OutcomeExact | amitools/fs/ADFSNode.py:52-55 | what deleting an entry comes to, without the functions it is defined by: done, the entry and all below it are gone and nothing else; not allowed exactly when something lies below and `all` is not given; a crash exactly for the root |
| VolumeSpec.DeletionExact | amitools/fs/ADFSVolume.py:378-383 | the same for every valid path that is no root alias: not found, not allowed and done each exactly when the entries say so, and which entries are left |
| VolumeSpec.DeletionElse | amitools/fs/ADFSVolume.py:378-383 | an invalid path is refused with nothing changed; a root alias crashes, with `all` after everything below the root is gone |
| VolumeSpec.DeletedIsGone | amitools/fs/ADFSVolume.py:378-383 | after a deletion every spelling of the path and of every path below is neither found, read nor deleted again |
| VolumeSpec.MakeDirExact | amitools/fs/ADFSVolume.py:327-352 | each reply of create_dir exactly when parent, name and free blocks say so, and the entries afterwards |
| VolumeSpec.WriteExact | amitools/fs/ADFSVolume.py:354-365 | each reply of write_file exactly when parent, name and free blocks say so, and the entries afterwards |
| VolumeSpec.ReadExact | amitools/fs/ADFSVolume.py:367-376 | read_file gives bytes exactly when the entry at the path is a file with these bytes, and each error exactly when its check fails |
| VolumeSpec.ResolveExact | amitools/fs/ADFSVolume.py:160-176 | an entry is found exactly at its folded path if its kind is allowed; bad exactly for a component of more than 30 characters |
| VolumeSpec.CreateTargetExact | amitools/fs/ADFSVolume.py:186-223 | which directory and which name write_file creates in, for root aliases, existing directories and other paths |
| VolumeSpec.RunExact | amitools/fs/ADFSVolume.py:327-383 | the k-th reply and the k+1-st map of a run are those of one operation on the k-th map |
| VolumeSpec.StepExact | amitools/fs/ADFSVolume.py:327-383 | every operation goes to its own specification |
| VolumeFacts.HeaderOnDisk | amitools/fs/ADFSDir.py:143-162 | on the device of a good volume every header block but the root's names its own block and, as parent, the directory it hangs under; its stored name is the last part of its path and its kind that of the entry |
| VolumeFacts.ChainOnDisk | amitools/fs/ADFSDir.py:78-104 | on the device of a good volume every hash table slot holds the first block of its bucket, each block links to the next, the last to none, and the slot is the hash of every name in the bucket |
| VolumeFacts.FileOnDisk | amitools/fs/ADFSFile.py:181-240 | the header, list and data blocks of every file on a good volume hold exactly its bytes in the stated layout |
| Volumes.Volume.Perform | amitools/fs/ADFSVolume.py:327-383 | one operation: the volume stays good if and only if the operation does not break it, and then reply and new map are those of the specification |
| VolumeSpec.FitNeverBreaks | amitools/fs/ADFSVolume.py:354-365 | a run whose files are below 4 GiB and whose suggested names have at most 30 characters breaks nothing |
| VolumeSpec.BreaksOnlyBy | amitools/fs/ADFSVolume.py:186-223 | an operation that breaks the volume writes a file of 4 GiB or more, or one under a suggested name; the base name of a path is always short enough |
| VolumeSpec.LongSuggestionBreaks | amitools/fs/ADFSVolume.py:186-223 | a suggested name of 31 characters with a slash in it passes every check on a fresh volume and breaks it |
| VolumeSpec.BaseShort | amitools/fs/FileName.py:66-93 | the base name of a valid path fits the name field |
| VolumeSpec.WrittenIsRead | amitools/fs/ADFSVolume.py:354-376 | a file written once is read back with its bytes under every spelling of its path, after any run that does not delete it or a directory above it |
| VolumeSpec.WrittenAtPath | amitools/fs/ADFSVolume.py:186-223 | the path name used for writing is itself such a spelling if and only if it has a base name (or the suggestion is empty too) and its directory part is no root alias |
| VolumeSpec.FileSurvivesRun | amitools/fs/ADFSVolume.py:327-383 | an entry stays exactly as it is through any run without a deletion of it or above it |
| VolumeSpec.EntryStays | amitools/fs/ADFSVolume.py:327-383 | one operation other than such a deletion leaves an entry alone |
| VolumeSpec.CreatedIsFound | amitools/fs/ADFSVolume.py:327-352 | create_dir adds one folder; its path name then finds it if and only if neither the name nor its directory part is a root alias (`:`, `/`, empty) |
| VolumeSpec.FoldedParts | amitools/fs/ADFSVolume.py:327-345 | the folded path of a name is the folded directory part with the folded base name behind it |
| Volumes.Volume.Create | amitools/fs/ADFSVolume.py:64-125 | an invalid name and a name of 256 bytes or more are errors; the result is a good volume, with only its root folder and every block free but the reserved ones and those of root, bitmap extensions and bitmap, if and only if the name also fits its field of 30; the root block on the device has the name, the three time stamps, the type and an empty table |
| Volumes.Volume.Open | amitools/fs/ADFSVolume.py:31-62 | opening the device of a closed volume passes every check, ends every directory scan and stands for the same map and the same free blocks |
| Volumes.Volume.ReadTree | amitools/fs/ADFSVolume.py:52-54 | the nodes read from the root block of a good volume satisfy the invariant with the same device and map |
| Volumes.Volume.OpenBitmap | amitools/fs/ADFSVolume.py:55-57 | the bitmap of a closed volume is read without an error, block list and bits as stored |
| Volumes.Volume.Close | amitools/fs/ADFSVolume.py:127-130 | the bitmap and the root block reach the device; the volume stays good and is not dirty |
| Volumes.Volume.GetPathName | amitools/fs/ADFSVolume.py:160-176 | finds exactly the entry at the folded path if its kind is allowed; root aliases give the root directory; an over-long component is an error |
| Volumes.Volume.GetCreatePathName | amitools/fs/ADFSVolume.py:186-223 | parent directory and name to create as the specification on paths has them |
| Volumes.Volume.MakeDir | amitools/fs/ADFSVolume.py:327-352 | create_dir as on the map, the TypeError for a missing parent included; the new directory has the base name and fresh meta data with the current time |
| Volumes.Volume.WriteFile | amitools/fs/ADFSVolume.py:354-365 | write_file as on the map and a good volume afterwards, if and only if the operation does not break it; the new file has the name and fresh meta data with the current time, and keeps the data cached exactly if asked |
| Volumes.Volume.ReadFile | amitools/fs/ADFSVolume.py:367-376 | read_file gives exactly the bytes the map has at the path |
| Volumes.Volume.Delete | amitools/fs/ADFSVolume.py:378-383 | exactly the entry and everything below it goes, the rest unchanged; not found, not allowed and done each exactly when the entries say so; a root alias crashes, with `all` after everything below the root is gone; a deletion stamps the disk time |
| Volumes.Volume.UpdateDiskTime | amitools/fs/ADFSVolume.py:251-257 | sets the disk time of the root block and nothing else; does nothing at all on a volume that was just made by create, whose root block is never marked valid |
| Volumes.Volume.DeleteTree | amitools/fs/ADFSNode.py:52-55 | the recursive driver, stated with quantifiers: done exactly when nothing lies below or `all` is given, and then exactly the entry and everything below it is gone; a refused call changes nothing; the root directory fails after its children are gone |
| Volumes.Volume.DeleteChildren | amitools/fs/ADFSDir.py:333-337 | deleting a copy of the entry list empties the directory of everything below it and nothing else |
| Volumes.Volume.DeleteNode | amitools/fs/ADFSDir.py:258-327 | refused exactly when something lies below; otherwise one path goes, exactly the node's blocks are free again and hold zeros if wiped, and both stamps are set |
| Volumes.Volume.RemoveNode | amitools/fs/ADFSDir.py:269-307 | chain, bucket, entry list and bitmap after a removal keep the invariant; the freed blocks belong to nobody |
| Volumes.Volume.Wipe | amitools/fs/ADFSDir.py:315-322 | the given blocks hold zeros afterwards, every other block what it held, and the volume stays good |
| Volumes.Volume.Unlink | amitools/fs/ADFSDir.py:269-303 | the chain step writes exactly the blocks and nodes of the removal specification, for the first and for a later chain position |
| Volumes.Volume.FindInChain | amitools/fs/ADFSDir.py:262-286 | the node is found in the bucket of its name, with its true predecessor in front |
| Volumes.Volume.CreateDir | amitools/fs/ADFSDir.py:243-248 | the reply is that of the checks in order; the volume stays good if and only if a check refuses or name and comment fit their fields, and then the map has one folder more or is as before; the new block has its own number, the given directory as parent, name and meta data; both stamps are set; a failed write has taken one block for nothing |
| Volumes.Volume.CreateFile | amitools/fs/ADFSDir.py:250-256 | the reply is that of the checks in order; the volume stays good if and only if a check refuses or name, comment and size fit their fields, and then the map has exactly the given bytes more or is as before; the new header has its own number, the given directory as parent, name, size and meta data; both stamps are set; a failed write has taken all its blocks for nothing |
| Volumes.Volume.Allot | amitools/fs/ADFSDir.py:169-207 | the checks in their order (name, duplicate, space); a refused creation takes no block, an allowed one gets distinct free blocks, and the old bucket head becomes the new chain link |
| Volumes.Volume.TakeBlocks | amitools/fs/ADFSDir.py:193-207 | None and nothing changed exactly when too few blocks are free; else that many distinct blocks leave the free set |
| Volumes.Volume.InstallDir | amitools/fs/ADFSDir.py:143-162 | writes the directory block on the allotted block, with own number, the given directory as parent, name, chain link and meta data, if and only if name and comment can be written; where they fit their fields the linked volume is good and has one folder more |
| Volumes.Volume.LinkIn | amitools/fs/ADFSDir.py:143-231 | a written node linked into its directory turns a vacant place of the invariant into a good volume with one node more |
| Volumes.Volume.StampBoth | amitools/fs/ADFSDir.py:225-241 | the directory gets the stamp, the root's disk time too if the root block is marked valid, no other block or node changes, and a good volume stays good |
| VolumeFacts.NewDirFits | amitools/fs/block/EntryBlock.py:45-55 | a new directory block can be written if and only if name and comment are below 256 bytes, and survives if and only if they fit their fields of 30 and 79 |
| VolumeFacts.NewFileFits | amitools/fs/block/EntryBlock.py:45-55 | a new file header can be written if and only if the strings are below 256 bytes and the file below 4 GiB, and survives if and only if the strings also fit their fields |
| VolumeFacts.LeakBreaks | amitools/fs/ADFSDir.py:193-207 | blocks taken for nothing break the invariant whatever the entries are |
| VolumeFacts.UnmirroredBreaks | amitools/fs/ADFSDir.py:143-162 | a node whose block is not what the device holds breaks the invariant |
| Volumes.Volume.LinkNew | amitools/fs/ADFSDir.py:225-231 | the new node heads its bucket, its table slot and its on-disk chain, and is last in the entry list |
| Volumes.Volume.HasName | amitools/fs/ADFSDir.py:134-141 | the scan of one hash bucket is true exactly when the folded name exists in the directory |
| Volumes.Volume.FindEntry | amitools/fs/ADFSDir.py:352-366 | the linear scan finds exactly the node at the folded path |
| Volumes.Volume.GetPath | amitools/fs/ADFSDir.py:352-378 | one scan per component finds exactly the node at the folded path, subject to its kind |
| Volumes.Volume.UpdateDirModTime | amitools/fs/ADFSDir.py:238-241 | the directory's block and node get exactly the new stamp, in memory and on the device, and nothing else changes |
| VolumeSteps.InsertInv | amitools/fs/ADFSDir.py:169-231 | _create_node keeps the invariant: one path more, exactly the node's blocks taken, buckets and chains still in step |
| VolumeSteps.ReplacedInv | amitools/fs/ADFSDir.py:238-241 | a node whose name, links and tables stay may be stamped without breaking the invariant |
| VolumeSteps.UnownedWrites | amitools/fs/ADFSDir.py:315-322 | wiping freed blocks breaks no live node |
| VolumeSteps.OwnApart | amitools/fs/ADFSDir.py:391-397 | the block lists of two live nodes share no block |
| VolumeSteps.FreeUnowned | amitools/fs/ADFSDir.py:193-207 | a free block belongs to no node and is no system block |
| VolumeSteps.InsertBalance | amitools/fs/ADFSDir.py:193-207 | free blocks plus the blocks the entries need stay equal to the capacity when a node is created |
| VolumeRemoval.RemoveInv | amitools/fs/ADFSDir.py:258-307 | _delete keeps the invariant: one path less and exactly the node's blocks free again |
| VolumeRemoval.RemoveParentDir | amitools/fs/ADFSDir.py:269-303 | after a removal every bucket still lists its on-disk chain in order; one link bypasses the node, the others stay |
| VolumeRemoval.RemoveBalance | amitools/fs/ADFSDir.py:305-307 | no block is lost when a node is deleted |
| VolumeLookup.EntryIsChild | amitools/fs/ADFSDir.py:352-366 | what the linear scan meets is a child at its folded name |
| VolumeLookup.BucketIsChild | amitools/fs/ADFSDir.py:134-141 | what the bucket scan meets is a child at its folded name, in the bucket of that name's hash |
| VolumeLookup.ChildIsEntry | amitools/fs/ADFSDir.py:134-141 | every child is in the entry list and in the bucket of any spelling of its name, so bucket lookup and linear lookup agree |
| VolumeLookup.UniqueNames | amitools/fs/ADFSDir.py:187-192 | no directory holds two names that are equal after folding |
| VolumeLookup.PrefixFolder | amitools/fs/ADFSDir.py:352-378 | everything above an entry is a directory |
| VolumeFacts.LeafIff | amitools/fs/ADFSDir.py:329-331 | can_delete: the entry list is empty exactly when nothing lies below in the map |
| VolumeFacts.PrunedAll | amitools/fs/ADFSDir.py:333-337 | removing every child's subtree removes exactly what lies below |
| VolumeLoad.ScanStep | amitools/fs/ADFSDir.py:78-104 | reading one item of the growing work list and following its chain link keeps the list at one item per unfinished bucket |
| VolumeLoad.ScanDone | amitools/fs/ADFSDir.py:78-104 | with the list used up every bucket is complete and in chain order |
| VolumeLoad.ReadDir | amitools/fs/ADFSDir.py:78-117 | the scan over the list that grows while it runs ends and rebuilds the buckets as they were, every directory below included |
| VolumeLoad.ReadAddNode | amitools/fs/ADFSDir.py:48-70 | a file opens its blocks, a directory is read in turn; the chain link handed back is the next entry of the bucket |
| VolumeLoad.ReloadInv | amitools/fs/ADFSDir.py:78-117 | node objects rebuilt from the device alone satisfy the whole volume invariant for the same map |
| VolumeLoad.EntriesStep | amitools/fs/ADFSDir.py:93-100 | the rebuilt entry list has each bucket entry exactly once |
| Volumes.FormatBitmap | amitools/fs/ADFSBitmap.py:49-113 | the bitmap of a new volume has everything free but the root, extension and bitmap blocks, and its pointer tables lead to the bitmap blocks in order |
| VolumeFacts.FreshInv | amitools/fs/ADFSVolume.py:116-125 | a volume with only its root directory satisfies the invariant |
| VolumeFacts.FileReads | amitools/fs/ADFSFile.py:131-143 | what is cached for a file or read from its blocks is what the map says it holds |
| Volumes.Volume.GetFileData | amitools/fs/ADFSFile.py:131-143 | cached or read from the device, the bytes are those of the map |
| Volumes.Volume.InstallFile | amitools/fs/ADFSFile.py:181-240 | writes header, list and data blocks on the allotted blocks, the header with own number, the given directory as parent, name, chain link, size and meta data, if and only if name, comment and size can be written; where they fit their fields the linked volume is good and has one file more with exactly the data |
| Volumes.Volume.FreeBlocks | amitools/fs/ADFSBitmap.py:249-251 | the node's blocks and no others become free |
| FileNames.UpperIdempotent | amitools/fs/FileName.py:52-64 | folding twice is folding once, so equality after folding is an equivalence |
| FileNames.GetUpperAmiStr | amitools/fs/FileName.py:52-64 | the loop lowers exactly the characters 97 to 122 and, on international volumes, 224 to 254 without 247, by 32 |
| FileNames.HashName | amitools/fs/FileName.py:95-103 | the loop computes the rolling hash (`HashIsPolynomial`), which stays below the table size |
| FileNames.HashIsPolynomial | amitools/fs/FileName.py:95-103 | the rolling hash modulo 2048 is the length times 13^n plus the characters weighted by powers of 13 |
| FileNames.HashOfAbc | amitools/fs/FileName.py:95-103 | the value for the name abc and 72 buckets |
| FileNames.SameNameSameHash | amitools/fs/FileName.py:95-103 | names equal after folding always meet in the same bucket |
| FileNames.JoinSplit | amitools/fs/FileName.py:27-36 | splitting a path at its slashes loses nothing |
| FileNames.SplitExact | amitools/fs/FileName.py:27-36 | the parts around a slash are the parts in front of it and the parts behind it; a name without one is a single part |
| FileNames.DirAndBaseExact | amitools/fs/FileName.py:38-50 | directory part, slash and base name make up the path; the base name has no slash and is not empty unless the path is |
| FileNames.DirAndBaseOfPath | amitools/fs/FileName.py:38-50 | the base name is the last component and the directory part has the others |
| Volumes.IsValid | amitools/fs/FileName.py:66-93 | true exactly when no path component is longer than 30 characters (the test for ':' and '/' never finds one) |
| FileLayout.ReadBackIsData | amitools/fs/ADFSFile.py:80-129 | for every byte string, OFS or FFS: reading the blocks that creation wrote gives the bytes, and every size and sequence check passes |
| FileLayout.OpenedIsCreated | amitools/fs/ADFSFile.py:29-78 | opening a created file from its header block gives the same list and data blocks; both count checks and every own-key check pass |
| FileLayout.ListPieces | amitools/fs/ADFSFile.py:159-179 | header and list blocks together have exactly room for the data pointers, one piece each |
| FileLayout.CountsExact | amitools/fs/ADFSFile.py:159-179 | the numbers of data and list blocks are the least that hold the bytes and the pointers, by multiplication only |
| FileLayout.HeaderExact | amitools/fs/ADFSFile.py:181-220 | key, size, the first pointers and the extension of a header block |
| FileLayout.ListExact | amitools/fs/ADFSFile.py:221-234 | key, parent, pointers and link of the i-th list block |
| FileLayout.DataExact | amitools/fs/ADFSFile.py:242-275 | the i-th data block: OFS key, sequence number, link and its piece of the bytes; FFS the piece behind which only zeros follow |
| FileLayout.ReadBackExact | amitools/fs/ADFSFile.py:80-129 | blocks that are all of their kind and in sequence are joined; FFS blocks may hold more than the file, any other difference in size is an error |
| FileLayout.ReadFailsAt | amitools/fs/ADFSFile.py:80-129 | the first block that is not decides the error: a wrong sequence number, or no data block |
| FileLayout.OpenedExact | amitools/fs/ADFSFile.py:29-78 | each error of opening a file exactly when its check fails, in order |
| FileLayout.WroteFileOk | amitools/fs/ADFSFile.py:181-240 | creation on distinct blocks leaves the header and the whole body on the device |
| FileLayout.WroteFileElse | amitools/fs/ADFSFile.py:181-240 | creation changes no block but the given ones |
| FileLayout.CreateBlocks | amitools/fs/ADFSFile.py:181-240 | the given blocks are split into header, list and data blocks in order; if and only if the header can be written the device becomes that of the layout specification, with the strings cut to their fields, else it is untouched |
| FileLayout.WriteLists | amitools/fs/ADFSFile.py:221-234 | the list block loop writes the pieces of the pointer list, each with the link to the next |
| FileLayout.WriteData | amitools/fs/ADFSFile.py:242-275 | the data loop writes the pieces of the data: OFS with header, sequence number and link, FFS zero-padded |
| FileLayout.OpenBlocks | amitools/fs/ADFSFile.py:29-78 | the walk along the extension chain, which may run into a block of another kind, gives the listed blocks or the error of the first failing check |
| FileLayout.ReadData | amitools/fs/ADFSFile.py:80-129 | the read loop returns the gathered bytes, or the first sequence, size or block error |
| FileLayout.BodyFrame | amitools/fs/ADFSFile.py:80-129 | a file does not notice writes to other blocks |
| BitmapWords.FirstFreeExact | amitools/fs/ADFSBitmap.py:190-223 | from every search start: n distinct free blocks, and None exactly when fewer are free (or n is 0) |
| BitmapWords.FirstFreeOrder | amitools/fs/ADFSBitmap.py:190-223 | the blocks come in ascending order from the search start on and, after one wrap, from the front, and no free block is skipped |
| BitmapWords.ScanInOrder | amitools/fs/ADFSBitmap.py:190-223 | the whole turn is in that order |
| BitmapWords.FreeDigit | amitools/fs/ADFSBitmap.py:264-291 | a block is free exactly when the binary digit of its number modulo 32 in its big-endian long is 1 |
| BitmapWords.ScanIsFreeSet | amitools/fs/ADFSBitmap.py:190-223 | one full turn over the longs, wrapping once, meets every free block exactly once and never a padding bit |
| BitmapWords.CappedScan | amitools/fs/ADFSBitmap.py:190-223 | stopping at n blocks inside any long is stopping at n of the whole turn |
| BitmapWords.MarkedBits | amitools/fs/ADFSBitmap.py:264-291 | set_bit and clr_bit on the packed big-endian longs change exactly one block's bit |
| BitmapWords.MarkedSet | amitools/fs/ADFSBitmap.py:264-291 | marking adds or removes exactly that block from the set of free blocks |
| BitmapWords.MarkedCount | amitools/fs/ADFSBitmap.py:264-291 | the used counter moves by one when the bit changes and else not at all |
| BitmapWords.CountUsedIsCard | amitools/fs/ADFSBitmap.py:233-239 | get_num_used counts the used blocks |
| BitmapWords.LastLongBits | amitools/fs/ADFSBitmap.py:10-29 | the last long has as many block bits as the sizing says, the others 32 |
| BitmapWords.MarkBit | amitools/fs/ADFSBitmap.py:264-291 | unpack, set or clear, pack back: exactly one bit of the view changes |
| BitmapWords.CollectBits | amitools/fs/ADFSBitmap.py:207-216 | the bit loop takes the free blocks of one long in ascending order and stops at the wanted number |
| Bitmaps.Bitmap.GetBit | amitools/fs/ADFSBitmap.py:253-262 | the free bit of a block, None outside the device |
| Bitmaps.Bitmap.SetBit | amitools/fs/ADFSBitmap.py:264-277 | exactly that block becomes free; counter, view and bytes stay in step; a change sets dirty |
| Bitmaps.Bitmap.ClrBit | amitools/fs/ADFSBitmap.py:279-291 | exactly that block becomes used; counter, view and bytes stay in step |
| Bitmaps.Bitmap.GetNumUsed | amitools/fs/ADFSBitmap.py:233-239 | the count is the number of used blocks |
| Bitmaps.Bitmap.FindNFree | amitools/fs/ADFSBitmap.py:190-223 | the first n free blocks in the rotated order, none skipped; the next search starts at the long of the last one; None exactly when there are too few, and then nothing changes |
| Bitmaps.Bitmap.AllocN | amitools/fs/ADFSBitmap.py:241-247 | a failed allocation changes nothing; a successful one takes exactly n distinct blocks that were free, and the next search starts at the long of the last one |
| Bitmaps.Bitmap.DeallocN | amitools/fs/ADFSBitmap.py:249-251 | the given blocks of the device become free and no others, numbers outside are ignored, so it undoes an allocation |
| Bitmaps.Bitmap.Create | amitools/fs/ADFSBitmap.py:49-101 | free are exactly the blocks from the reserved ones on but the root and the extension and bitmap blocks, which follow it without a gap; counter exact, pointer tables linked |
| Bitmaps.Bitmap.CreateExtBlks | amitools/fs/ADFSBitmap.py:61-67 | extension blocks directly after the root, marked used |
| Bitmaps.Bitmap.CreateBitmapBlks | amitools/fs/ADFSBitmap.py:69-75 | bitmap blocks directly after the extension blocks, marked used |
| Bitmaps.Bitmap.LinkUp | amitools/fs/ADFSBitmap.py:77-99 | the tables of root and extension blocks list the bitmap blocks in order and the extension blocks are chained |
| Bitmaps.Bitmap.Write | amitools/fs/ADFSBitmap.py:103-126 | nothing happens when nothing changed; else the device holds the bitmap bytes, the extension tables and, if its name is below 256 bytes, the root block; no other block changes |
| Bitmaps.Bitmap.Read | amitools/fs/ADFSBitmap.py:128-183 | the walk over root table and extension chain finds the listed blocks and their bytes, or the error of the failing check |
| Bitmaps.ReloadsWhatWasStored | amitools/fs/ADFSBitmap.py:103-183 | create and write, then read: the same bitmap block list, and every count check passes |
| BitmapStore.ExtEnough | amitools/fs/ADFSBitmap.py:30-41 | root and extension tables have room for all bitmap blocks |
| BitmapStore.CountsByDivision | amitools/fs/ADFSBitmap.py:21-41 | the numbers of bitmap and extension blocks as quotients rounded up |
| BitmapStore.TablesExact | amitools/fs/ADFSBitmap.py:77-99 | the k-th pointer of the root and of every extension block, and every link, by number |
| BitmapStore.CollectedPiece | amitools/fs/ADFSBitmap.py:103-183 | the bits of the i-th bitmap block are the i-th piece of the bitmap |
| BitmapStore.ReadErrorExact | amitools/fs/ADFSBitmap.py:128-183 | each error of reading the bitmap blocks exactly when its check fails |
| BitmapStore.DataFits | amitools/fs/ADFSBitmap.py:21-41 | the bitmap blocks have room for one bit per block |
| BitmapStore.LinkedListsAll | amitools/fs/ADFSBitmap.py:77-183 | reading the tables that creation filled gives exactly the bitmap blocks, in order, over the root's 25 pointers and all extension blocks |
| BitmapStore.FillPtrs | amitools/fs/ADFSBitmap.py:85-99 | the pointer loop fills root and extension tables without a gap |
| BitmapStore.LinkExts | amitools/fs/ADFSBitmap.py:77-83 | every extension block links to the next, the last to none |
| BitmapStore.ReadPtrs | amitools/fs/ADFSBitmap.py:131-152 | a pointer table is read up to its first zero |
| BitmapStore.ReadExts | amitools/fs/ADFSBitmap.py:154-172 | the walk along the extension chain reads every table in order |
| BlockCodec.StoredChksumOk | amitools/fs/block/Block.py:155-171 | storing the calculated checksum makes the block's checksum right |
| BlockCodec.ChksumIsZeroSum | amitools/fs/block/Block.py:155-171 | a checksum is right exactly when all longs of the block add up to a multiple of 2^32 |
| BlockCodec.EntryLayout | amitools/fs/block/FileHeaderBlock.py:59-77 | the fields of a directory and of a file header block by their positions from the front or the end, and the pointers in descending order |
| BlockCodec.FileLayoutExact | amitools/fs/block/FileListBlock.py:52-63 | the fields of a file list and of an OFS data block by their positions |
| BlockCodec.VolumeLayout | amitools/fs/block/RootBlock.py:44-71 | the fields of a root, a bitmap and a bitmap extension block by their positions |
| BlockCodec.InvalidExact | amitools/fs/block/Block.py:80-171 | every kind of block is refused exactly for a wrong type, sub type, sum of its longs or own key |
| BlockCodec.EntryReads | amitools/fs/block/FileHeaderBlock.py:29-57 | what any valid entry block is read as, field by field; a stored pointer count is cut to the room there is |
| BlockCodec.BodyReads | amitools/fs/block/FileListBlock.py:18-40 | the same for list and data blocks |
| BlockCodec.RootReads | amitools/fs/block/RootBlock.py:81-123 | the same for the root block |
| BlockCodec.BstrReads | amitools/fs/block/Block.py:199-209 | a string field is read by its length byte; above the maximum it is no string |
| BlockCodec.FieldExact | amitools/fs/block/Block.py:211-225 | a string field holds the length, the characters and zeros |
| Bytes.BigEndian | amitools/fs/block/Block.py:118-126 | words and longs are read from their bytes with the highest byte first |
| Device.TrimmedExact | amitools/fs/block/Block.py:211-225 | strings are cut to the first 30 and 79 bytes and nothing else changes |
| BlockCodec.OneLongDetected | amitools/fs/block/Block.py:166-171 | changing any one long of a valid block makes its checksum wrong |
| BlockCodec.BstrRoundTrip | amitools/fs/block/Block.py:199-225 | a string is written if and only if it is below 256 bytes, and comes back from its field if and only if it is not longer than the field; a longer one comes back cut |
| BlockCodec.BstrBack | amitools/fs/block/Block.py:199-225 | a string that fits reads back from the longs it was written to |
| Device.TrimmedIff | amitools/fs/block/Block.py:211-225 | a written record is kept whole if and only if its strings fit their fields |
| BlockCodec.AnyBack | amitools/fs/block/Block.py:80-171 | every kind of record a device can hold comes back from the longs it is written to |
| BlockCodec.DirEntryBack | amitools/fs/ADFSDir.py:48-70 | the block of an entry, read without knowing its kind, gives the kind and the record |
| BlockCodec.DamageNoticed | amitools/fs/ADFSDir.py:48-70 | changing any one long of an entry's block makes the read refuse it |
| BlockCodec.Encode | amitools/fs/block/Block.py:149-171 | writes any record a device can hold as its longs |
| DeviceImages.MakeImage | amitools/fs/block/Block.py:87-92 | every block of a sound device, as every operation leaves it, can be laid out in longs |
| DeviceImages.ImageDecodes | amitools/fs/block/Block.py:80-92 | reading the longs of any block of the device gives the record the model has there |
| DeviceImages.NodeDecodes | amitools/fs/ADFSDir.py:48-70 | what is read back for each node of a good volume is the block the node object holds |
| BlockCodec.Buffer.PutLong | amitools/fs/block/Block.py:118-121 | exactly one long changes, counted from the end for a negative number |
| BlockCodec.Buffer.CalcChksum | amitools/fs/block/Block.py:166-171 | the loop computes minus the sum of all longs but the checksum's own |
| BlockCodec.Buffer.PutChksum | amitools/fs/block/Block.py:155-164 | afterwards the checksum holds and no other long has changed |
| BlockCodec.Buffer.PutBstr | amitools/fs/block/Block.py:211-225 | the field has length, characters and zeros, or for 256 bytes or more the call fails and nothing changes; nothing outside the field changes |
| BlockCodec.Buffer.PutTimestamp | amitools/fs/block/Block.py:179-184 | three longs for the time stamp, nothing else changes |
| BlockCodec.Buffer.PutTypes | amitools/fs/block/Block.py:149-153 | type and sub type are in place, nothing else changes |
| BlockCodec.Buffer.ValidBlock | amitools/fs/block/Block.py:80-85 | valid exactly when type, sub type and checksum are right |
| BlockCodec.FileHeaderBack | amitools/fs/block/FileHeaderBlock.py:29-77 | a written header block decodes to the same record, its downward pointer table included |
| BlockCodec.Buffer.WriteFileHeader | amitools/fs/block/FileHeaderBlock.py:59-77 | succeeds if and only if the record can be written, and then the longs are those of the record with its strings cut to their fields, the checksum right |
| BlockCodec.Buffer.ReadFileHeader | amitools/fs/block/FileHeaderBlock.py:29-57 | decodes the block: invalid for a wrong type, checksum or own key, without a name where the stored length exceeds the field |
| BlockCodec.FileListBack | amitools/fs/block/FileListBlock.py:18-63 | a written list block decodes to the same record |
| BlockCodec.Buffer.WriteFileList | amitools/fs/block/FileListBlock.py:52-63 | the longs of a list block as laid out |
| BlockCodec.Buffer.ReadFileList | amitools/fs/block/FileListBlock.py:18-40 | decodes the block, or invalid |
| BlockCodec.FileDataBack | amitools/fs/block/FileDataBlock.py:16-49 | a written OFS data block decodes to the same record and bytes |
| BlockCodec.Buffer.WriteFileData | amitools/fs/block/FileDataBlock.py:38-46 | the longs of an OFS data block as laid out |
| BlockCodec.Buffer.ReadFileData | amitools/fs/block/FileDataBlock.py:16-28 | decodes the block, or invalid |
| BlockCodec.UserDirBack | amitools/fs/block/UserDirBlock.py:27-91 | a written directory block decodes to the same record, hash table and chain link included |
| BlockCodec.Buffer.WriteUserDir | amitools/fs/block/UserDirBlock.py:80-91 | succeeds if and only if the record can be written, and then the longs are those of the record with its strings cut to their fields |
| BlockCodec.Buffer.ReadUserDir | amitools/fs/block/UserDirBlock.py:27-47 | decodes the block: invalid for a wrong type, checksum or own key, without a name where the stored length exceeds the field |
| BlockCodec.RootBack | amitools/fs/block/RootBlock.py:44-123 | a written root block decodes to the same record: hash table, 25 bitmap pointers, extension pointer, three time stamps |
| BlockCodec.Buffer.WriteRoot | amitools/fs/block/RootBlock.py:44-71 | succeeds if and only if the record can be written, and then the longs are those of the record with its name cut to its field |
| BlockCodec.Buffer.ReadRoot | amitools/fs/block/RootBlock.py:81-123 | decodes the block: invalid for a wrong type or checksum, without a name where the stored length exceeds the field; the stored table size is limited to the block |
| BlockCodec.BitmapBack | amitools/fs/block/BitmapBlock.py:19-30 | a written bitmap block decodes to the same bits |
| BlockCodec.Buffer.WriteBitmap | amitools/fs/block/BitmapBlock.py:26-30 | the bits follow the checksum at long 0 |
| BlockCodec.BitmapExtBack | amitools/fs/block/BitmapExtBlock.py:17-42 | a written extension block decodes to the same table and link |
| BlockCodec.Buffer.WriteBitmapExt | amitools/fs/block/BitmapExtBlock.py:37-42 | table and link, without types or checksum |
| RDiskRuns.RunsFromCreate | amitools/fs/rdb/RDisk.py:288-752 | from a new disk, after any run of add_partition, delete_partition, resize and add_filesystem without crashing arguments and without a resize into the RDB area: the whole invariant holds, and no block of a partition touches another partition or an RDB block; every partition's block size is a quarter of the disk's, so that it takes blocks of whole sectors |
| RDiskRuns.RunKeeps | amitools/fs/rdb/RDisk.py:288-752 | any run without a crash keeps the invariant, and proper arguments never crash |
| RDiskRuns.StepKeeps | amitools/fs/rdb/RDisk.py:288-752 | one step without a crash keeps the invariant and, unless a resize lets the logical range in, the RDB area clear |
| RDisks.AddPartKeeps | amitools/fs/rdb/RDisk.py:571-636 | refused exactly when check_cyl_range refuses; the invariant survives if and only if the block size is accepted, the name is below 256 bytes and the cylinders fit their fields, because the errors come after the block is entered as used |
| RDisks.AddedExact | amitools/fs/rdb/RDisk.py:571-636 | after a success: the new record's name, cylinders, heads, sectors, block size in longs and sectors per block as numbers, its block the lowest unused one, the link from the last partition, and everything else unchanged |
| RDisks.AddsIff | amitools/fs/rdb/RDisk.py:571-636 | a partition is added if and only if its cylinders are in the logical range and in no partition, a block is unused, the name is below 256 bytes, the high cylinder below 2^32, and the wanted block size 0 or 1 to 16 times the disk's, rounded down |
| RDisks.NewPartition | amitools/fs/rdb/RDisk.py:598-610 | block size times 4 is the block size of the disk, and the partition's block that many times the sectors per block |
| RDisks.BlockOfLongs | amitools/fs/rdb/RDisk.py:598-610 | a partition whose stored block size is a quarter of the disk's takes blocks of whole sectors |
| RDiskRuns.TakesWholeBlocks | amitools/fs/blkdev/PartBlockDevice.py:55-68 | on every partition after every proper run a block is accepted exactly with sectors per block times the disk's block size |
| RDisks.DeletePartKeeps | amitools/fs/rdb/RDisk.py:689-718 | exactly that partition goes, its block is free again, the chain bypasses it, and the invariant stays |
| RDisks.DeletedExact | amitools/fs/rdb/RDisk.py:689-718 | which partitions are left, where the chain goes on, which block is unused again, and every other block of the device as before |
| RDisks.ResizeKeeps | amitools/fs/rdb/RDisk.py:349-383 | partitions stay; the invariant stays, and the call does not fail, if and only if the bounds are the old ones, or out of order, or leave out a cylinder of a partition, or move the end of the disk without leave, or fit their fields |
| RDisks.ResizeExact | amitools/fs/rdb/RDisk.py:349-383 | each outcome of resize exactly when the bounds, the partitions and the leave to move the end say so, with the fields afterwards |
| RDisks.ResizeTooHigh | amitools/fs/rdb/RDisk.py:349-383 | a new disk resized to the high cylinder 2^32 - 1, with leave: the write fails, the object has the bound, the device has not |
| RDisks.ResizeSafeIff | amitools/fs/rdb/RDisk.py:349-383 | after a resize no partition has or can be given a sector of an RDB block if and only if the new low cylinder lies above them, which the code does not check |
| RDisks.SafeIffClear | amitools/fs/rdb/RDisk.py:349-383 | no partition has or can be given a sector of an RDB block if and only if the logical range starts above them |
| RDisks.ResizeIntoRdb | amitools/fs/rdb/RDisk.py:349-383 | a disk of ten cylinders, two for the RDB: resized to start at cylinder 1 it accepts a partition on RDB blocks |
| RDisks.AddFsKeeps | amitools/fs/rdb/RDisk.py:722-752 | refused exactly when the blocks do not suffice; the invariant survives if and only if there is data, because the error without data comes after the blocks are entered as used |
| RDisks.AddedFsExact | amitools/fs/rdb/RDisk.py:722-752 | after a success: as many of the lowest unused blocks as the data need and one more, the data unchanged, the books and the list head |
| RDisks.SegmentExact | amitools/fs/rdb/FileSystem.py:61-96 | the j-th segment block holds the j-th piece of the data and the link to the next |
| RDisks.FsDataBack | amitools/fs/rdb/FileSystem.py:50-53 | reading a file system back loses up to three bytes, and none exactly when the size is a multiple of 4 |
| RDisks.OpenedInv | amitools/fs/rdb/RDisk.py:27-82 | opening a disk finds the same partitions and the same set of used blocks; the whole invariant holds if and only if every file system is whole longs, everything but the file systems' data holds in any case |
| RDisks.OpensBack | amitools/fs/rdb/RDisk.py:27-82 | the device of a good disk can be opened, and what the walk along its chains finds is the disk |
| RDisks.PartsClear | amitools/fs/rdb/RDisk.py:288-329 | on a disk whose logical range starts above the RDB area no partition has an RDB block |
| RDisks.FreshInv | amitools/fs/rdb/RDisk.py:288-347 | a new disk satisfies the invariant |
| RDisks.FreeCount | amitools/fs/rdb/RDisk.py:526-544 | free and used block numbers make up the whole area, once each |
| RDisks.LowestFree | amitools/fs/rdb/RDisk.py:536-544 | allotted blocks are unused, ascending and the lowest there are |
| RDisks.DiskExact | amitools/fs/rdb/RDisk.py:288-752 | what lies on the device of a good disk: RDB block, list heads, every partition and file system block with its link, no two partitions on one cylinder, and exactly these blocks in the books |
| RDisks.LinkedInv | amitools/fs/rdb/RDisk.py:602-636 | a partition record linked behind the last one extends chain, list and used blocks together |
| RDisks.UnlinkedParts | amitools/fs/rdb/RDisk.py:693-718 | the chain read from the RDB block is the partition list without the deleted one, for the first and for a later one |
| RDisks.FsLinkedInv | amitools/fs/rdb/RDisk.py:736-752 | a file system linked behind the last one extends its chain and the used blocks together |
| RDisks.RDisk.Create | amitools/fs/rdb/RDisk.py:288-347 | a disk with only its RDB block used, the RDB block field by field, logical range above the RDB area |
| RDisks.RDisk.Open | amitools/fs/rdb/RDisk.py:27-82 | for every device whose chains end: true exactly when the RDB block and all blocks of the chains are of their kinds, and then the object holds what the chains have, in order |
| RDisks.FoundExact | amitools/fs/rdb/RDisk.py:27-82 | any device is readable exactly when all blocks met are of their kinds; each partition and file system is then found under its block with what the block says, and exactly the blocks met are used |
| RDisks.RDisk.AddPartition | amitools/fs/rdb/RDisk.py:571-636 | outcome and new state are those of the specification; valid afterwards exactly when it did not crash; added exactly when range, partitions, free blocks, name and block size say so, and then the last record has the name and the environment stated as numbers |
| RDisks.RDisk.DeletePartition | amitools/fs/rdb/RDisk.py:689-718 | outcome and new state are those of the specification, and valid |
| RDisks.RDisk.ResizeDisk | amitools/fs/rdb/RDisk.py:349-383 | outcome and new state are those of the specification; valid afterwards if and only if the old bounds, the wanted ones, the partitions and the leave to move the end say so (the condition of `ResizeKeeps`) |
| RDisks.RDisk.AddFilesystem | amitools/fs/rdb/RDisk.py:722-752 | outcome and new state are those of the specification; valid afterwards exactly when it did not crash |
| RDisks.RDisk.GetFreeBlocks | amitools/fs/rdb/RDisk.py:529-534 | the unused block numbers in ascending order |
| RDisks.RDisk.UpdateHiBlk | amitools/fs/rdb/RDisk.py:553-559 | the highest used block is noted |
| RDisks.RDisk.WriteFs | amitools/fs/rdb/FileSystem.py:61-96 | header and segment blocks with the pieces of the data, linked behind the last file system |
| RDisks.ReadSegs | amitools/fs/rdb/FileSystem.py:29-48 | the segment chain is read to its end, or refused exactly when it runs into a block of another kind |
| RDisks.ReadParts | amitools/fs/rdb/RDisk.py:46-60 | the partition chain is read to its end, in order, or refused exactly when it runs into a block of another kind |
| RDisks.ReadFs | amitools/fs/rdb/RDisk.py:62-76 | the file system chain is read to its end, in order, or refused exactly when it or a segment chain runs into a block of another kind |
| CylRanges.FreeExact | amitools/fs/rdb/RDisk.py:485-512 | for disjoint partitions in any list order: sorted, maximal runs of exactly the uncovered cylinders |
| CylRanges.ExactUnique | amitools/fs/rdb/RDisk.py:485-512 | no other list of ranges is sorted, separated and covers the same cylinders |
| CylRanges.NoneIffFull | amitools/fs/rdb/RDisk.py:485-512 | 'no range' means 'no free cylinder' if and only if the logical range is not empty; an empty one is itself reported as free |
| CylRanges.AcceptsIffFree | amitools/fs/rdb/RDisk.py:472-483 | a range is accepted exactly when all its cylinders are in the logical range and in no partition |
| CylRanges.FirstFitLeast | amitools/fs/rdb/RDisk.py:514-522 | for n >= 1 and every logical range, empty ones included: the least start that check_cyl_range accepts, and None only if it accepts none |
| CylRanges.CheckCylRange | amitools/fs/rdb/RDisk.py:472-483 | the loop accepts exactly as specified |
| CylRanges.GetFreeCylRanges | amitools/fs/rdb/RDisk.py:485-512 | the loop that splits the range list gives the specified ranges |
| CylRanges.FindFreeCylRangeStart | amitools/fs/rdb/RDisk.py:514-522 | the loop gives the first range that is long enough |
| PartDevice.InsideIffNonNegative | amitools/fs/blkdev/PartBlockDevice.py:45-68 | an accepted block number stays inside the partition's cylinders if and only if it is not negative, which the code does not check |
| PartDevice.BlocksApart | amitools/fs/blkdev/PartBlockDevice.py:45-68 | two blocks of a partition share no sector |
| PartDevice.RunExact | amitools/fs/blkdev/PartBlockDevice.py:45-53 | the k-th piece of a run read from the disk is the k-th sector of the run |
| PartDevice.BlocksInOrder | amitools/fs/blkdev/PartBlockDevice.py:45-53 | the blocks of a partition one after another are its sectors in order, from heads times sectors times the low cylinder on |
| PartDevice.PartitionsApart | amitools/fs/blkdev/PartBlockDevice.py:12-34 | partitions with disjoint cylinder ranges share no sector |
| PartDevice.RdbApart | amitools/fs/blkdev/PartBlockDevice.py:12-34 | a partition above the RDB cylinders has none of their sectors |
| PartDevice.Isolation | amitools/fs/blkdev/PartBlockDevice.py:45-68 | a write to one partition changes no read of a valid block of another |
| PartDevice.IsolationWithin | amitools/fs/blkdev/PartBlockDevice.py:45-68 | a write to one block changes no read of another block of the partition |
| PartDevice.PartBlockDevice.Open | amitools/fs/blkdev/PartBlockDevice.py:12-34 | offset, block size and block count as products and quotients of the DOS environment; fails exactly for blocks of no sectors |
| PartDevice.PartBlockDevice.ReadBlock | amitools/fs/blkdev/PartBlockDevice.py:45-53 | the sectors of the block, None beyond the last block |
| PartDevice.PartBlockDevice.WriteBlock | amitools/fs/blkdev/PartBlockDevice.py:55-68 | the block reads back as written and no other sector changes; a bad number, a bad size or a raw device with other sectors is an error and changes nothing |
| HunkLoadSeg.SaveThenLoad | amitools/binfmt/hunk/HunkLoadSegFile.py:165-250 | create the blocks, write, read, parse: the same segments, with the sizes of the header |
| HunkReload.SaveThenLoadIff | amitools/binfmt/hunk/HunkLoadSegFile.py:165-250 | for built segments whose numbers fit: writing, reading and parsing gives the same segments, with the sizes of the header, if and only if every segment is savable |
| HunkReload.WrongSegment | amitools/binfmt/hunk/HunkLoadSegFile.py:165-234 | a block that is read as another one of its kind changes the segment it belongs to, whatever follows in the file |
| HunkLoadSeg.SetUpSavable | amitools/binfmt/hunk/HunkLoadSegFile.py:25-77 | what setup_code or setup_data, setup_relocs and setup_symbols make can be saved and loaded if and only if the data are whole longs, no offset list is empty, the names are good and every number fits the form setup_relocs picks |
| HunkLoadSeg.ShortYetTooBig | amitools/binfmt/hunk/HunkLoadSegFile.py:60-77 | 65536 offsets for one hunk, or hunk number 65536: the word form is picked and cannot be written, where the long form could |
| HunkLoadSeg.CreateThenParse | amitools/binfmt/hunk/HunkLoadSegFile.py:165-250 | blocks made from segments parse into the same segments |
| HunkLoadSeg.RoundAll | amitools/binfmt/hunk/HunkLoadSegFile.py:177-197 | the first round gives one block list per segment |
| HunkLoadSeg.SecondAll | amitools/binfmt/hunk/HunkLoadSegFile.py:198-222 | the second round leaves complete lists alone |
| HunkLoadSeg.ParseCreated | amitools/binfmt/hunk/HunkLoadSegFile.py:99-126 | parsing the blocks of a segment gives the segment |
| HunkLoadSeg.ShortFits | amitools/binfmt/hunk/HunkLoadSegFile.py:72-77 | relocations found short fit the word form if and only if hunk numbers and counts are below 65536, which the code does not look at |
| HunkLoadSeg.AreRelocsShort | amitools/binfmt/hunk/HunkLoadSegFile.py:72-77 | true exactly when every offset is below 65536 |
| HunkLoadSeg.CreateBlockFile | amitools/binfmt/hunk/HunkLoadSegFile.py:236-250 | header, then each segment's blocks and an END; None without segments or with a segment that has no segment block |
| HunkLoadSeg.CreatedExact | amitools/binfmt/hunk/HunkLoadSegFile.py:236-250 | the header counts the segments from 0 with the size of each; segment block, relocations, symbols and END of the first, then those of the others |
| HunkLoadSeg.ShortExact | amitools/binfmt/hunk/HunkLoadSegFile.py:72-77 | short means that every offset is below 65536 |
| HunkLoadSeg.ParseBlockFile | amitools/binfmt/hunk/HunkLoadSegFile.py:165-234 | both rounds, the check against the header and the segment parser, as specified |
| HunkRounds.ParseFileExact | amitools/binfmt/hunk/HunkLoadSegFile.py:165-234 | a block list is accepted exactly when it starts with a header, no foreign block follows, the lists of the second round are as many as the header's sizes, and none is broken; segments and sizes in order |
| HunkRounds.ParseExact | amitools/binfmt/hunk/HunkLoadSegFile.py:99-126 | a list is broken exactly for a foreign block or a second symbol block; else its last segment block, its relocation blocks in order and its symbol block make the segment |
| HunkRounds.RoundExact | amitools/binfmt/hunk/HunkLoadSegFile.py:177-197 | the blocks up to an END make one list, or none if there are none |
| HunkRounds.SecondExact | amitools/binfmt/hunk/HunkLoadSegFile.py:198-222 | lists without a segment are dropped, with one kept, with several cut if they begin with one and refused else |
| HunkRounds.CutExact | amitools/binfmt/hunk/HunkLoadSegFile.py:210-222 | each piece of a cut list is a segment block with everything up to the next |
| HunkLoadSeg.SplitAtEnds | amitools/binfmt/hunk/HunkLoadSegFile.py:177-197 | the loop splits the block list at END blocks and refuses foreign blocks |
| HunkLoadSeg.SplitList | amitools/binfmt/hunk/HunkLoadSegFile.py:210-222 | a list with several segments is cut in front of each; a block in front of the first is an error |
| HunkLoadSeg.SplitBroken | amitools/binfmt/hunk/HunkLoadSegFile.py:198-222 | lists with one segment stay, with several are cut, with none are dropped |
| HunkLoadSeg.Parse | amitools/binfmt/hunk/HunkLoadSegFile.py:99-126 | the loop sorts the blocks of one segment; a second symbol block is an error |
| HunkBlocks.FileBack | amitools/binfmt/hunk/HunkBlockFile.py:665-709 | a file of blocks whose numbers fit comes back block by block if and only if each block does, the id swap 1020/1015 included |
| HunkBlocks.FirstWrong | amitools/binfmt/hunk/HunkBlockFile.py:665-709 | a file with a block that does not come back is refused, or read alike up to such a block and with another one of the same kind in its place |
| HunkBlocks.BlockBack | amitools/binfmt/hunk/HunkBlockFile.py:665-709 | one block comes back if and only if its values survive and word relocations written in load-module mode are read so; only a segment that lacks bytes at the end of the file comes back as short as it was |
| HunkBlocks.LongRelsBack | amitools/binfmt/hunk/HunkBlockFile.py:176-196 | a long relocation table comes back if and only if no offset list is empty |
| HunkBlocks.WordTableBack | amitools/binfmt/hunk/HunkBlockFile.py:210-242 | a word relocation table comes back, with its padding word, if and only if no offset list is empty |
| HunkBlocks.SymsBack | amitools/binfmt/hunk/HunkBlockFile.py:316-328 | a symbol table comes back if and only if no name is empty or has a NUL |
| HunkBlocks.HeaderBack | amitools/binfmt/hunk/HunkBlockFile.py:100-140 | a header block comes back if and only if its names do and its table has one size below 2^30 for each hunk |
| HunkLayout.HeaderLayout | amitools/binfmt/hunk/HunkBlockFile.py:129-140 | a header block without names byte by byte: 0x3F3, 0, table size, first, last and the sizes at their offsets |
| HunkLayout.HeaderAt | amitools/binfmt/hunk/HunkBlockFile.py:129-140 | the same behind any bytes, for the writer |
| HunkLayout.HeaderNames | amitools/binfmt/hunk/HunkBlockFile.py:129-140 | each name of a header stands behind the tag, in order |
| HunkLayout.HeaderReads | amitools/binfmt/hunk/HunkBlockFile.py:100-127 | the reader takes table size, first and last from offsets 4, 8 and 12 and the sizes behind them without their flags, and fails exactly when the bytes do not suffice |
| HunkLayout.SegmentLayout | amitools/binfmt/hunk/HunkBlockFile.py:152-161 | a code or data block byte by byte: 0x3E9 or 0x3EA, size in longs, data |
| HunkLayout.LongRelTag | amitools/binfmt/hunk/HunkBlockFile.py:188-196 | a long relocation block is 0x3EC and its table |
| HunkLayout.LongRelLayout | amitools/binfmt/hunk/HunkBlockFile.py:188-196 | a long relocation table: count, hunk and offsets as longs, then the next |
| HunkLayout.LongRelEnd | amitools/binfmt/hunk/HunkBlockFile.py:188-196 | it ends with a long 0 |
| HunkLayout.WordRelTag | amitools/binfmt/hunk/HunkBlockFile.py:228-242 | a word relocation block is 0x3F7 or 0x3FC, its table and zeros up to a long |
| HunkLayout.WordRelLayout | amitools/binfmt/hunk/HunkBlockFile.py:228-242 | a word relocation table: count, hunk and offsets as words, then the next |
| HunkLayout.WordRelEnd | amitools/binfmt/hunk/HunkBlockFile.py:228-242 | it ends with a word 0 |
| HunkLayout.SymsLayout | amitools/binfmt/hunk/HunkBlockFile.py:324-328 | a symbol block: 0x3F0, then name and value of each symbol in order, then a long 0 |
| HunkLayout.EndLayout | amitools/binfmt/hunk/HunkBlockFile.py:250-254 | an END block is the long 0x3F2 |
| HunkLayout.NameLayout | amitools/binfmt/hunk/HunkBlockFile.py:66-76 | a name: length in longs, characters, zeros |
| HunkLayout.NameFlags | amitools/binfmt/hunk/HunkBlockFile.py:35-56 | the top byte of a name's length is not looked at |
| HunkLayout.TagFlags | amitools/binfmt/hunk/HunkBlockFile.py:665-691 | the upper half of a block's tag is not looked at |
| HunkLayout.BlocksInOrder | amitools/binfmt/hunk/HunkBlockFile.py:698-709 | a file is its first blocks followed by its others |
| HunkBlocks.BlockShrinks | amitools/binfmt/hunk/HunkBlockFile.py:665-691 | every block read takes bytes from the stream, so reading ends |
| HunkStream.NameBack | amitools/binfmt/hunk/HunkBlockFile.py:35-76 | a non-empty name without NUL comes back |
| HunkStream.NameEnds | amitools/binfmt/hunk/HunkBlockFile.py:35-76 | an empty name, or one that starts with NUL, reads as the end of the table |
| HunkStream.NameCut | amitools/binfmt/hunk/HunkBlockFile.py:35-76 | a name with a NUL inside comes back cut there |
| HunkStream.LongsBack | amitools/binfmt/hunk/HunkBlockFile.py:21-26 | longs come back |
| HunkStream.WordsBack | amitools/binfmt/hunk/HunkBlockFile.py:28-33 | words come back |
| HunkStream.Stream.ReadName | amitools/binfmt/hunk/HunkBlockFile.py:35-56 | a name by its length field, cut at the first NUL; None where the stream ends |
| HunkFiles.ReadFile | amitools/binfmt/hunk/HunkBlockFile.py:665-691 | the block loop reads the file as specified or fails where it does |
| HunkFiles.ReadBlock | amitools/binfmt/hunk/HunkBlockFile.py:665-691 | each block type by its parser |
| HunkFiles.ReadLongRels | amitools/binfmt/hunk/HunkBlockFile.py:176-186 | the table loop reads as specified |
| HunkFiles.ReadWordTable | amitools/binfmt/hunk/HunkBlockFile.py:210-226 | the table loop counts its words and skips the padding word when they are odd |
| HunkFiles.ReadSyms | amitools/binfmt/hunk/HunkBlockFile.py:316-322 | the table loop reads as specified |
| HunkFiles.ReadHeader | amitools/binfmt/hunk/HunkBlockFile.py:100-127 | table size, first, last and the masked sizes from the offsets they have in the stream; with names as specified |
| HunkFiles.Output.WriteFile | amitools/binfmt/hunk/HunkBlockFile.py:698-709 | the bytes of every block in order, with the id swap |
| HunkFiles.Output.WriteWordTable | amitools/binfmt/hunk/HunkBlockFile.py:228-242 | the table, its end word and the padding to a long |
| HunkFiles.Output.WriteLongRels | amitools/binfmt/hunk/HunkBlockFile.py:188-196 | the table and its end long |
| HunkFiles.Output.WriteSyms | amitools/binfmt/hunk/HunkBlockFile.py:324-328 | the table and its end long |
| HunkFiles.Output.WriteHeader | amitools/binfmt/hunk/HunkBlockFile.py:129-140 | the written bytes have table size, first, last and every size at its offset; with names as specified |
| HunkFiles.Output.WriteName | amitools/binfmt/hunk/HunkBlockFile.py:66-76 | length in longs, characters, zeros up to a long |
| Relocation.OneBlockIsConcat | amitools/binfmt/Relocate.py:38-62 | for data and relocations inside their segments, absolute beyond the first segment: the block form succeeds exactly when the segment form does, and is its segments behind each other with the padding after each |
| Relocation.EmbeddedOne | amitools/binfmt/Relocate.py:88-111 | relocating inside a block is relocating the segment alone if and only if the entry is absolute, nothing stands in front of the segment, or both fail |
| Relocation.OneInside | amitools/binfmt/Relocate.py:88-111 | the bytes an entry leaves inside a block: those of the segment alone with an address that, PC-relative, is lower by what stands in front; a failure exactly when that address does not fit |
| Relocation.OneExact | amitools/binfmt/Relocate.py:88-111 | one entry: fails exactly when it does not fit, else the long, read with its sign, is target address plus stored value plus addend, less its own address if PC-relative, and every other byte stays |
| Relocation.SignedExact | amitools/binfmt/Relocate.py:88-111 | the signed value of a long: from -2^31 below 2^31, the same modulo 2^32 |
| Relocation.DataEntry | amitools/binfmt/Relocate.py:75-86 | after all entries of a segment the same holds of each one that no other overlaps |
| Relocation.DataSome | amitools/binfmt/Relocate.py:75-86 | the entries of a segment that do not overlap are relocated if and only if each fits |
| Relocation.EachExact | amitools/binfmt/Relocate.py:50-62 | in the output every entry that no other overlaps holds target address plus stored value plus addend, less its own address if PC-relative; every byte outside the entries is that of the data, or zero behind them |
| Relocation.RelocatesIff | amitools/binfmt/Relocate.py:50-62 | for entries that do not overlap: relocation succeeds if and only if every entry lies inside its data and its value fits a signed long |
| Relocation.BlockExact | amitools/binfmt/Relocate.py:38-48 | the block form: every entry and every other byte of every segment at its place in the buffer |
| Relocation.BlockEntry | amitools/binfmt/Relocate.py:38-48 | one entry in the buffer, PC-relative ones lower once more by what stands in front |
| Relocation.BlockRest | amitools/binfmt/Relocate.py:38-48 | every byte outside the entries is that of the segment's data, or zero |
| Relocation.FillBlock | amitools/binfmt/Relocate.py:38-48 | copying and relocating one segment after another in place is the specification |
| Relocation.Relocate | amitools/binfmt/Relocate.py:50-62 | None for a wrong number of addresses or as specified; every entry that no other overlaps holds target address plus stored value plus addend, less its own address if PC-relative; every byte outside the entries is that of the data, or zero behind them |
| Relocation.RelocateOneBlock | amitools/binfmt/Relocate.py:38-48 | the same in one buffer, each segment at its place, with the PC-relative entries lower once more by what stands in front; data beyond the end make the buffer longer |
| Relocation.RelocInPlace | amitools/binfmt/Relocate.py:88-111 | succeeds exactly when the entry lies inside and its value fits, and then the long, read with its sign, is target address plus stored value plus addend, less its own address if PC-relative; no other byte changes |
| Relocation.RelocDataInPlace | amitools/binfmt/Relocate.py:75-86 | all entries of a segment in order, or a failure at the first that fails |
| Relocation.GetSeqAddrs | amitools/binfmt/Relocate.py:28-36 | each segment after the padded ones before it |
| Relocation.GetTotalSize | amitools/binfmt/Relocate.py:20-26 | the sum of sizes and paddings |
| RomSplit.SplitThenRelocate | amitools/rom/romsplitter.py:90-135 | for non-overlapping offsets inside the data and addresses not below the base: relocating the extracted image at its own address gives the original bytes if and only if every address is below 2^31 or at least 2^31 above the base |
| RomSplit.CleanPartly | amitools/rom/romsplitter.py:107-118 | cleaning succeeds and makes exactly the listed longs relative to the base |
| RomSplit.CleanFailsAt | amitools/rom/romsplitter.py:107-118 | the first offset that cannot be cleaned decides the error: outside the data, or an address below the base |
| RomSplit.CleansIff | amitools/rom/romsplitter.py:107-118 | cleaning non-overlapping offsets succeeds if and only if each lies inside the data with an address not below the base |
| RomSplit.RestorePartly | amitools/rom/romsplitter.py:107-118 | relocating puts the first n longs back and leaves the others |
| RomSplit.CleanRelocs | amitools/rom/romsplitter.py:107-118 | the loop as specified, with the error of the first bad offset or address |
| KickRom.WrittenVerifies | amitools/rom/kickrom.py:90-122 | after write_check_sum the end-around-carry sum is all ones, so verification succeeds |
| KickRom.WrittenVerifiesIff | amitools/rom/kickrom.py:90-122 | every image of a size verifies after write_check_sum if and only if the size is a multiple of 4 |
| KickRom.OffGridFails | amitools/rom/kickrom.py:90-122 | for every size from 0x18 on that is not whole longs, an image that does not verify after write_check_sum, the checksum lying between the summed longs |
| KickRom.VerifiesIff | amitools/rom/kickrom.py:106-116 | a ROM verifies if and only if the stored long is the recalculated one, or all ones where that is 0 |
| KickRom.AccIsSum | amitools/rom/kickrom.py:90-104 | the running sum is the plain sum less a multiple of 2^32 - 1, and zero only for zero |
| KickRom.SumExact | amitools/rom/kickrom.py:90-104 | the plain sum adds up the longs of the image in turn |
| KickRom.VerifiesExact | amitools/rom/kickrom.py:90-108 | an image of whole longs verifies if and only if its longs add up to a positive multiple of 2^32 - 1 |
| KickRom.HeaderExact | amitools/rom/kickrom.py:41-54 | the accepted first longs and sizes as numbers |
| KickRom.FooterExact | amitools/rom/kickrom.py:148-159 | the words 0x18 to 0x1F at the end, the size field, the checksum property, and the bytes in front as before |
| KickRom.DetectExact | amitools/rom/kickrom.py:27-39 | each verdict exactly when its check is the first to fail, with the sizes, header longs, footer words and fields as numbers |
| KickRom.FooterComplete | amitools/rom/kickrom.py:148-159 | after write_ext_footer footer words and size field are what the detector looks for, and in an image of whole longs the checksum |
| KickRom.FooterFrame | amitools/rom/kickrom.py:148-159 | the footer touches only the last 24 bytes |
| KickRom.KickRomAccess.CalcCheckSum | amitools/rom/kickrom.py:90-104 | the loop computes the complement of the end-around-carry sum |
| KickRom.KickRomAccess.WriteCheckSum | amitools/rom/kickrom.py:118-122 | exactly the checksum long changes |
| KickRom.KickRomAccess.VerifyCheckSum | amitools/rom/kickrom.py:106-108 | true exactly when the whole sum is all ones |
| KickRom.KickRomAccess.WriteExtFooter | amitools/rom/kickrom.py:148-159 | footer words, size field and checksum, in that order |
| KickRom.KickRomAccess.CheckFooter | amitools/rom/kickrom.py:64-74 | true exactly when the last seven words are the expected ones |
| KickRom.KickRomAccess.DetectKickRom | amitools/rom/kickrom.py:27-39 | the first failing check in order, or ok (`DetectExact`) |
| RomBuilders.BuiltOk | amitools/rom/rombuilder.py:141-205 | an image with a ROM header keeps every module byte under version and footer and is detected |
| RomBuilders.BuiltDetected | amitools/rom/rombuilder.py:192-205 | an accepted header survives version and footer, and then the detector accepts |
| RomBuilders.KickRomBuilder.constructor | amitools/rom/rombuilder.py:159-177 | size, version and fill byte; footer bytes are set aside |
| RomBuilders.KickRomBuilder.AddModule | amitools/rom/rombuilder.py:102-131 | refused exactly when the bytes left do not suffice, else appended |
| RomBuilders.KickRomBuilder.LayOut | amitools/rom/rombuilder.py:141-157 | the modules in order, then the fill byte |
| RomBuilders.KickRomBuilder.BuildRom | amitools/rom/rombuilder.py:192-205 | an image exactly when the first module brought a ROM header, and then a detected Kickstart with every module byte in place |
| SlotArrays.RunKeeps | amitools/util/slotarray.py:7-55 | over any run of alloc and valid free and set, every slot is free or live and never both, and the free list has no repetition |
| SlotArrays.StepKeeps | amitools/util/slotarray.py:7-55 | one operation keeps that partition |
| SlotArrays.LiveValueStays | amitools/util/slotarray.py:19-55 | a live slot keeps its value until it is freed or written, and is never the next to be handed out |
| SlotArrays.ThreadsOnce | amitools/util/slotarray.py:7-43 | the links determine the free list: there is one reading and no cycle |
| SlotArrays.FreeTwice | amitools/util/slotarray.py:39-43 | freeing keeps the partition if and only if the slot was live |
| SlotArrays.AllocExact | amitools/util/slotarray.py:19-37 | None exactly when all slots are live; else a slot that was not live gets the value and leaves the free list |
| SlotArrays.LastFreedFirst | amitools/util/slotarray.py:39-43 | the slot freed last is handed out first |
| SlotArrays.CountThreads | amitools/util/slotarray.py:7-14 | the initial links thread all slots in order |
| SlotArrays.SlotArray.constructor | amitools/util/slotarray.py:7-14 | all slots free, in order |
| SlotArrays.SlotArray.Alloc | amitools/util/slotarray.py:19-37 | the head of the free list, or None exactly when all slots are live |
| SlotArrays.SlotArray.Free | amitools/util/slotarray.py:39-43 | the slot becomes the head of the free list; the array stays good if and only if the slot was live |
| SlotArrays.SlotArray.Get | amitools/util/slotarray.py:49-51 | the value of a live slot, the link to the next free one of a free slot |
| SlotArrays.SlotArray.Set | amitools/util/slotarray.py:53-55 | the value of exactly that slot; the array stays good if and only if the slot was live |

## Left out

How the model differs from the code it models:

- The device of the volume holds block records that their longs give back (`BlockCodec`, `DeviceImage`); longs are numbers below 2^32, their four bytes are not spelled out except in strings and data. An FFS data block is the padded bytes themselves; a wiped block is a data block of zeros.
- Node objects are entries of one table under their header block numbers; the parent reference is such a number. Aliasing between Python objects is not modelled; chain link and hash table updates go to the one record that table and device agree on.
- Directories are loaded all at once when a volume is opened (`read(recursive=True)`); the original also loads them when they are first used.
- Names are Latin-1 byte strings; text encodings and NFKC normalisation are not modelled.
- The boot block is not part of this model: the FFS and international flags are given, the root block is `num_blocks // 2`, and block 0 is required to be reserved. The DOS6/7 used-block counter in the root block is not stored.
- Meta data of directly created entries and the clock are parameters. Devices have fewer than 2^32 blocks. What a volume does after an operation broke it is not modelled: the state right after is (`Volume.Broken`).
- Tables of bitmap extension blocks are passed as values through the pointer loops of `Bitmap.LinkUp`.
- Bit operators are modelled on binary digits (`HasBit`, `OrBit`, `AndNotBit`).
- The hunk writers, and the numbers other than sizes in `BlockCodec`, require values that fit their fields; the original raises `struct.error` for others.
- Hunk segments and blocks are values; a segment that keeps the block list of an earlier `create` or `parse` is not modelled.
- `SlotArray` cells carry a tag that tells a link from a value; the original stores both in one list. Slot numbers are those of the array; negative ones, which Python counts from the end, are not modelled.
- RDB, partition, file system header and load segment blocks are records, with a `next` link where they have one; their bytes, flags and environment fields other than the geometry are not modelled. `RDisk.create` is modelled with its default high block 0.
- Walks along chains on a device (hash chains, file extensions, bitmap extensions, partitions, file systems) are modelled for chains that end; on a cyclic chain the original does not return.
- Volumes.Volume.Open: only for the device of a volume that was closed; a foreign or damaged device, which the original may refuse, is covered only by the readers' own error outcomes (`OpenBlocks`, `ReadData`, `Bitmap.Read`, the `Buffer.Read` methods).
- Volumes.Volume.Create: requires room for the bitmap after the root block, as the original silently assumes.
- RDisks.RDisk.Create: requires an RDB area and between one and 2^32 - 1 cylinders; for others the original fails at the write or has no block for its lists.
- Bitmaps.Bitmap.Read: an extension pointer to a block that is no extension block, which the original reads unchecked as if it were one, is not modelled.
- BitmapStore.ReadExts: the same.
- FileLayout.ReadData: an FFS data block that holds another kind of record is an error; the original takes its bytes as they are.
- KickRom.KickRomAccess.CheckFooter: requires a size of at least 14, for the same reason as the next two.
- KickRom.KickRomAccess.WriteCheckSum: requires a size not below 0x18; in smaller images Python counts the negative offset from the end.
- KickRom.KickRomAccess.WriteExtFooter: requires a size not below 0x18 and below 2^32, for the same reason and for the size field.

What is not modelled:

- Dircache and longname volumes, comment blocks, `relabel`, and the setters of meta data.
- `RDisk.remap`, `delete_filesystem`, `change_partition`, extra DOS environment entries.
- `fs/validate`, image files, gzip, host paths, metadata databases and all I/O.
- BSS, debug, overlay, break, library, index, unit and external symbol hunks, and `HunkReader`.
- Patches and fixes of the ROM splitter.
- ROM padding, split header, relocatable raw and binary image entries, `ExtRomBuilder`.
- Command-line tools, vamos, the CPU emulator and floating-point maths.
