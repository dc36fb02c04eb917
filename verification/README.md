# s390-tools: formal models

Models of six parts of s390-tools, with proofs of what their code promises.
`dafny verify dfyconfig.toml` checks all of it.

**cmsfs-fuse** mounts disks in the CMS EDF format. Files are sequences of
records. A file in variable format is one byte stream of records, each behind
a two-byte length, cut into blocks without regard to record boundaries: a
length may be split between two blocks and a record may cover many.

- `VarLayout` says what the stream and the record and block lists of a file
  are, as functions of its records. `VarScan` and `VarAppend` relate one step
  of scanning or appending to these functions. `VarPut` says which records a
  write of any size puts. `VarFile` is the file object: the scan that builds
  both lists, the append that writes headers and data block by block and
  repairs the lists from the previous last record on, the size computation
  from the last pointer, and the write operation. After every write, disk,
  pointers and lists agree with the records, and opening the file again gives
  the same lists (`Reopen`, `AppendAll`).
- `PointerTree`, `PointerWalk` and `PtrStore` are the pointer trees of files
  and directory: written, walked, patched and purged, for every depth.
- `ReadPath` and `FileReader` are the read operation with its record search;
  `VarReads` connects it to the written bytes (`BinaryRoundTrip`).
- `TextWrite` is the write operation in text mode, which cuts the stream of
  the writer into lines whatever the sizes of the write calls are
  (`WriteThenRead`).
- `BitMaps` and `Allocator` are the allocation bitmap, spread over a pointer
  tree, with its search hint.
- `DirNames` and `DirTables` are names and entries of the packed root
  directory. `DirStates` is the directory with its cache of entry addresses as
  a state machine over values, `DirLaws` says when the cache is right and which
  operations keep it so, `DirRuns` compares runs with runs of a plain list of
  entries, and `Directory` is the code over disk blocks, proved to follow the
  machine for all names.

**ap-check** is called by the mediated device manager before and after each
command. `ApConflicts` is the merge that finds common queues, `ApProtocol` the
callouts of any number of processes as steps of a state machine under the
configuration lock, `ApCheck` one callout as the program runs it.

**cpuplugd** reads rules for hotplugging. `Terms` has the expression tree, the
printer and the parser as a function; `TermParser` is the parser with its text
pointer; `TermRoundTrip` and `TermPrecedence` relate printer, parser and
operator priorities.

**fdasd** keeps the partitions of a disk in a doubly linked list with counters
for the free tracks between them: `Partitions`.

**cpacfstats** asks a daemon for counters. `CpacfSession` is what a session
consists of, `CpacfStats` the loops of daemon and client.

**pai** drains perf ring buffers to files: `RingDrain`.

## Where the code does less than one would expect

The models follow the code. In these places a property that looks natural does
not hold for it, and the exact condition is proved instead.

- Writing more than 0xffff bytes at once makes several records. The copying
  does not advance in the buffer inside a block, so a record that starts behind
  another one on the same block begins with bytes that were already written:
  `SecondFeed`, `PutExample`. A write is stored as it is if and only if these
  bytes happen to be equal (`PutExactly`), in particular when it makes one
  record (`PutOne`). Binary files read back exactly under that condition:
  `WritesExactly`, `BinaryRoundTrip`.
- A text line of more than 0xffff bytes is refused as long as it is cached, but
  when its newline comes with the piece that makes it too long, it is cut into
  two records, a longer one loses a byte, and the session counts a linefeed too
  few: `LostByte`, `DoWrite`. Text reads back if and only if no line is longer:
  `WriteChunks`, `WriteThenRead`.
- Renaming a file to a name that means the same directory entry (for example
  the same name in other case) deletes the file and reports success:
  `RenameExactly`, `SameEntryNames`.
- A rename to a name that is refused may have deleted a file before, because
  the name is looked up cut to 17 characters: `RefusedExactly`, `RefusedName`.
- A name whose parts end with blanks finds the entry of the name without them,
  but is cached under a key of its own, and the cache is corrected only for the
  key that was used and for the entry that moves. A file deleted or renamed
  through such a name leaves a stale address under its own name when that was
  cached; the next lookup ends the program (`OwnNameStale`). A stale padded name
  leads to whatever file has come to its place (`WrongFileDeleted`,
  `WrongFileRenamed`). `KillExactly` and `LabelExactly` say exactly when the
  cache stays right, `LookExactly`, `UnlinkExactly` and `MoveExactly` when an
  operation does what it should; through names that do not end with blanks all
  do: `PlainHarmless`.
- The record search by offset gives up when its first guess is the last record
  and the offset lies before it: `FindRecord`, `TooShortRecordLength`. `Read`
  says exactly which reads fail for this reason. Record lengths within the
  record length of the file rule it out: `NeverMisguided`, `NeverFails`.
- Printing a term rounds its constants to six decimals: `RoundTrip`.
- A sign in front of an operand applies to everything behind it that binds
  tighter than the operator before it, so that -user+nice is minus the sum:
  `Precedence`, `SignReachesFar`.
- The configuration of cpuplugd refuses variables with the name of a symbol,
  but compares with the names including their dot, so a variable may be called
  meminfo, vmstat or cpustat and hides the counters of that file:
  `RoundTripExactly`, `HiddenCounter`.
- The number announced for the kernel space counters includes suppressed ones,
  which are not sent: `CountsAgree`, `SuppressedConfuses`. The table of
  counters has none suppressed: `TableNoneSuppressed`.
- When a detail of the last virtual counter cannot be read, the daemon sends no
  hotplug state and the client reports a failed connection, although both are
  in step: `SessionAgreement`.
- A configuration file of fdasd cannot define a partition of a single track,
  which the partition list itself allows: `CheckConffileInput`.
- The depth of a pointer tree has one level more than needed if and only if the
  number of blocks is a power of the pointers per block; the extra root has one
  entry: `SurplusLevel`, `PowerDepth`, `SurplusExample`. All results hold for
  this depth: `RootFits`.

## Model

| member | source | states |
|---|---|---|
| VarLayout.EncodeAt | cmsfs-fuse/cmsfs-fuse.c:3660-3795 | Every record lies in the stream the blocks form as its two length bytes followed by its data, at the sum of the lengths before it |
| VarLayout.HiUnique | cmsfs-fuse/cmsfs-fuse.c:1256-1279 | The highest record number of a block is the one number that separates headers before and behind the block's end |
| VarLayout.EncodeAppend | cmsfs-fuse/cmsfs-fuse.c:4048-4113 | The stream of a longer file is the old stream followed by the stream of the new records |
| VarLayout.SplitAt | cmsfs-fuse/cmsfs-fuse.c:3515-3537 | A write is cut into records of the greatest length, the last one taking what is left; each holds the bytes behind those of the records before it |
| VarLayout.SplitCount | cmsfs-fuse/cmsfs-fuse.c:3892-3913 | The number of records of a write is its size divided by the record length, rounded up |
| VarLayout.EntryAppend | cmsfs-fuse/cmsfs-fuse.c:3835-3887 | Appending records changes no index entry of an earlier record, however many blocks are added |
| VarLayout.DispAppend | cmsfs-fuse/cmsfs-fuse.c:3835-3887 | Appending records changes no displacement of a block that already holds data |
| VarScan.ContinuedData | cmsfs-fuse/cmsfs-fuse.c:947-976 | A record with data before a block gets exactly one extension from that block, as long as the record goes on or the block is full |
| VarScan.ContinuedHeader | cmsfs-fuse/cmsfs-fuse.c:852-926 | A record of which one or two header bytes lie before a block gets length, disk position and logical offset from that block |
| VarScan.HeaderStep | cmsfs-fuse/cmsfs-fuse.c:1064-1200 | With more than a header left in a block, the scan of one header leads to the next header or, at the end of the block, to the next block |
| VarScan.HeaderAtEnd | cmsfs-fuse/cmsfs-fuse.c:1064-1200 | With one or two bytes left the scan keeps the half or whole header for the next block |
| VarScan.ScanDone | cmsfs-fuse/cmsfs-fuse.c:1285-1308 | A scan behind the last block has built the complete record index of the file, no more and no less |
| VarAppend.NewDispRight | cmsfs-fuse/cmsfs-fuse.c:3584-3588 | The displacement stored while writing (zero, distance to the next header, or the spanned mark) is the one the layout of the longer file demands |
| VarAppend.TailFacts | cmsfs-fuse/cmsfs-fuse.c:3542-3575 | The index entry of the last record tells exactly where the file ends on disk |
| VarAppend.RestartAt | cmsfs-fuse/cmsfs-fuse.c:3835-3887 | From the data position of the last record the rescan finds the block and offset of its header, also when the header lies in the block before |
| VarAppend.RestartReady | cmsfs-fuse/cmsfs-fuse.c:3835-3887 | With the last entry dropped, the index is in the state of a cold scan of the longer file that stands in front of that header |
| VarAppend.BlocksBelowAppend | cmsfs-fuse/cmsfs-fuse.c:3835-3887 | Blocks before the restart point keep their entries |
| VarFiles.VarFile.WalkDisplaced | cmsfs-fuse/cmsfs-fuse.c:1083-1136 | The part of a block that belongs to a record begun earlier completes that record's entry as the layout demands, for split headers, full headers and data |
| VarFiles.VarFile.ReadLength | cmsfs-fuse/cmsfs-fuse.c:1141-1150 | Two bytes read at a header give the length of the record there, zero behind the last record |
| VarFiles.VarFile.WalkHeaders | cmsfs-fuse/cmsfs-fuse.c:1138-1199 | Scanning the headers of a block brings the index from any header of the block to the next block |
| VarFiles.VarFile.WalkVarDataBlock | cmsfs-fuse/cmsfs-fuse.c:1064-1200 | One block scanned from its start or from a header inside it extends a correct partial index to the next block; a displacement without a record before it is an I/O error |
| VarFiles.VarFile.CacheVariableDataBlock | cmsfs-fuse/cmsfs-fuse.c:1256-1279 | Besides the records, the scan of a block stores its address, displacement and highest record number |
| VarFiles.VarFile.CacheFile | cmsfs-fuse/cmsfs-fuse.c:1285-1308 | A cold walk of the data blocks builds exactly the record index and block index of the records on disk, for every block size and every way headers and records cross blocks |
| VarFiles.VarFile.WriteBytes | cmsfs-fuse/cmsfs-fuse.c:394-400 | A write at the write pointer appends to the stream and leaves every other block byte alone |
| VarFiles.VarFile.WriteVarHeader | cmsfs-fuse/cmsfs-fuse.c:3660-3708 | The missing header bytes are appended, one of them at a block end, and the write state says how many are still missing |
| VarFiles.VarFile.WriteRecordData | cmsfs-fuse/cmsfs-fuse.c:3749-3785 | Data is appended behind the header bytes; on a new block the displacement becomes the distance to the next header or the spanned mark |
| VarFiles.VarFile.WriteRecord | cmsfs-fuse/cmsfs-fuse.c:3737-3785 | One round of the write loop puts as much of header and data of the record at hand on the block as fits, or closes a record that ended with the block before |
| VarFiles.VarFile.WriteNext | cmsfs-fuse/cmsfs-fuse.c:3737-3785 | The bytes on disk are those of the records that the write puts, up to the place behind that round |
| VarFiles.VarFile.BlockStep | cmsfs-fuse/cmsfs-fuse.c:3737-3789 | The loop goes on with the record behind, and ends with the block or with the buffer |
| VarFiles.VarFile.ExtendBlockVariable | cmsfs-fuse/cmsfs-fuse.c:3729-3795 | One call puts as many bytes of the stream of the records on the block as it has room for, over record boundaries, with the displacement of a new block |
| VarFiles.VarFile.WritePrepareBlock | cmsfs-fuse/cmsfs-fuse.c:3594-3655 | A new block is taken exactly when the last one is full; it was free before, and the stream does not change |
| VarFiles.VarFile.ExtendBlock | cmsfs-fuse/cmsfs-fuse.c:3804-3812 | The stream grows by the next piece, on the last block or on one new block |
| VarFiles.VarFile.RescanFrom | cmsfs-fuse/cmsfs-fuse.c:3871-3886 | Scanning from a correct partial index to the end of the file completes both lists |
| VarFiles.VarFile.UpdateRecords | cmsfs-fuse/cmsfs-fuse.c:3835-3887 | After an append the repaired record and block lists equal those of a cold scan of the longer file |
| VarFiles.VarFile.ExamineLastBlock | cmsfs-fuse/cmsfs-fuse.c:3468-3513 | The unused bytes of the last block, from the write state or from the index of the last record |
| VarFiles.VarFile.DiskEnd | cmsfs-fuse/cmsfs-fuse.c:3542-3575 | The disk address behind the last byte of the file |
| VarFiles.VarFile.NewBlocks | cmsfs-fuse/cmsfs-fuse.c:3918-3943 | The number of new blocks is what headers and data need beyond the room on the last block, rounded up; a lone last byte still takes half a header |
| VarFiles.VarFile.AppendPiece | cmsfs-fuse/cmsfs-fuse.c:4074-4105 | One round of the write loop: header and data go on without a gap, displacements of new blocks are right |
| VarFiles.VarFile.AppendPieces | cmsfs-fuse/cmsfs-fuse.c:4074-4105 | The room on the last block and the computed number of new blocks take the whole buffer, with no block over |
| VarFiles.VarFile.AppendNew | cmsfs-fuse/cmsfs-fuse.c:4085-4105 | What is left of the buffer behind the last block fills exactly the computed number of new blocks |
| VarFiles.VarFile.PrepareAppend | cmsfs-fuse/cmsfs-fuse.c:4048-4072 | Record count, room, block count and list sizes for an append are right before anything is written |
| VarFiles.VarFile.AppendToDisk | cmsfs-fuse/cmsfs-fuse.c:4048-4105 | The records are on disk behind the others; pointers are dirty exactly when a block was added |
| VarFiles.VarFile.WriteAppend | cmsfs-fuse/cmsfs-fuse.c:4048-4113 | An append of any size keeps disk, record list and block list in agreement and adds exactly the records it puts |
| VarFiles.VarFile.WalkLastVarDataBlock | cmsfs-fuse/cmsfs-fuse.c:810-841 | Adding up the headers of the last block gives the stream bytes from that header to the end of the file |
| VarFiles.VarFile.LastDataVptr | cmsfs-fuse/cmsfs-fuse.c:1310-1340 | The chain of last pointers never fails and leads to the last data block with its displacement |
| VarFiles.VarFile.GetFileSizeVariable | cmsfs-fuse/cmsfs-fuse.c:1655-1700 | The size computed from the last pointer, the last block and the block count is the length of the whole stream |
| VarFiles.VarFile.GetFileSizeLogical | cmsfs-fuse/cmsfs-fuse.c:1715-1734 | Without headers and with linefeeds it is the sum of all record lengths plus one per record in text mode |
| VarFiles.VarFile.RewritePointers | cmsfs-fuse/cmsfs-fuse.c:2407-2430 | Fresh pointers lead to all data blocks, for none, one and many blocks |
| VarFiles.VarFile.DeletePointers | cmsfs-fuse/cmsfs-fuse.c:4150-4156 | The pointers of the shorter file are freed; data blocks and index stay |
| VarFiles.VarFile.PatchPointers | cmsfs-fuse/cmsfs-fuse.c:4005-4036 | An append without a new block needs only new record numbers in the last pointers of all levels |
| VarFiles.VarFile.UpdatePointers | cmsfs-fuse/cmsfs-fuse.c:4150-4168 | Either way the pointers describe the longer file |
| VarFiles.VarFile.DoWrite | cmsfs-fuse/cmsfs-fuse.c:4115-4178 | A write of any size at the end keeps disk, pointers and both lists in agreement; the size is exact unless a text write makes several records, which counts one linefeed for all of them; any other offset is refused and changes nothing; an empty write does nothing |
| VarFiles.VarFile.FindBlocks | cmsfs-fuse/cmsfs-fuse.c:1285-1308 | The pointers list all data blocks in order with their displacements |
| VarFiles.VarFile.Load | cmsfs-fuse/cmsfs-fuse.c:1620-1628 | Opening builds the complete index and the right size |
| VarFiles.Reopen | cmsfs-fuse/cmsfs-fuse.c:1620-1628 | The lists kept up to date while writing equal those built by opening the same file again, which also counts every linefeed |
| VarFiles.NewFile | cmsfs-fuse/cmsfs-fuse.c:2178-2196 | A created file without blocks satisfies everything that holds for written files |
| VarFiles.AppendAll | cmsfs-fuse/cmsfs-fuse.c:4048-4178 | Any buffers of any sizes, written one by one to a new file of any block size, give the same records and lists while writing and after a cold open, and the same size if and only if no text write is longer than a record |
| VarPointers.LastPatched | cmsfs-fuse/cmsfs-fuse.c:4005-4036 | Records that fit on the last block change only that block's highest record number |
| VarPointers.LastBlockFacts | cmsfs-fuse/cmsfs-fuse.c:1655-1700 | The last block's displacement leads to a header in it, or the file fills the block to its end |
| VarPointers.LogicalSize | cmsfs-fuse/cmsfs-fuse.c:1715-1734 | Stream length minus headers plus linefeeds is what a reader sees |
| VarPut.PutRecordExactly | cmsfs-fuse/cmsfs-fuse.c:3729-3795 | A record is stored as it was written if and only if the bytes it begins with on its first block recur as far before it as the write had already filled that block |
| VarPut.PutExactly | cmsfs-fuse/cmsfs-fuse.c:3729-3795 | A whole write is stored as it is if and only if that holds for each of its records |
| VarPut.PutOne | cmsfs-fuse/cmsfs-fuse.c:3729-3795 | A write of one record is always stored as it is |
| VarPut.PutExample | cmsfs-fuse/cmsfs-fuse.c:3729-3795 | For 65536 bytes on a new file with blocks of 512 the last byte is stored as a copy of the byte before it, whatever it was |
| VarPut.PutFrom | cmsfs-fuse/cmsfs-fuse.c:3729-3795 | A write stores no bytes but its own |
| VarPut.TaskRecord | cmsfs-fuse/cmsfs-fuse.c:3515-3537 | The lengths of the stored records are those of the cut buffer |
| VarPut.FirstFeed | cmsfs-fuse/cmsfs-fuse.c:3737-3759 | The record that goes on with a block takes the next bytes of the buffer |
| VarPut.SecondFeed | cmsfs-fuse/cmsfs-fuse.c:3737-3759 | A record that starts behind it on the same block takes the same bytes again, because the buffer pointer does not move |
| VarPut.NoThird | cmsfs-fuse/cmsfs-fuse.c:3737-3790 | No block takes part of three records of one write |
| VarPut.WritesExactly | cmsfs-fuse/cmsfs-fuse.c:4048-4178 | After any writes the records hold the bytes written, in order, if and only if each write was stored as it is; their number is right in any case |
| VarPut.ShortWrites | cmsfs-fuse/cmsfs-fuse.c:4048-4178 | Writes of at most 0xffff bytes are all stored as they are |
| VarPut.LongestPut | cmsfs-fuse/cmsfs-fuse.c:4106-4113 | The first record of a write is the longest, so the record length of the file follows it |
| PointerTrees.LevelCovers | cmsfs-fuse/cmsfs-fuse.c:2326-2341 | The entries of every level reach the end of the block list, and each of them has a data block below it |
| PointerTrees.RootFits | cmsfs-fuse/cmsfs-fuse.c:3114-3130 | The chosen depth gives a root block with room for all entries, even for one block more |
| PointerTrees.PowerDepth | cmsfs-fuse/cmsfs-fuse.c:3114-3130 | For a number of blocks that is the k-th power of the pointers per block the depth is k plus one, and the root has a single entry |
| PointerTrees.SurplusLevel | cmsfs-fuse/cmsfs-fuse.c:3114-3130 | One level less would do if and only if the number of blocks is a power of the pointers per block |
| PointerTrees.SurplusExample | cmsfs-fuse/cmsfs-fuse.c:3114-3130 | For 341 pointers per block and 341 blocks the tree has two levels where one would do |
| PointerTrees.TreeFrame | cmsfs-fuse/cmsfs-fuse.c:2283-2402 | A tree depends only on its own pointer blocks |
| PointerTrees.ProgressNode | cmsfs-fuse/cmsfs-fuse.c:2355-2402 | Writing one more subtree leaves the subtrees written before intact and adds only fresh blocks |
| PointerWalks.CoveredStep | cmsfs-fuse/cmsfs-fuse.c:1225-1308 | The blocks below consecutive entries join to the block list without gap or overlap |
| PointerWalks.PurgedEntry | cmsfs-fuse/cmsfs-fuse.c:2209-2265 | While a tree is purged, the subtree of the next entry is still complete and disjoint from what is gone |
| PointerWalks.LastEntry | cmsfs-fuse/cmsfs-fuse.c:1310-1340 | The stored back offset leads to the entry with the last data block, whose record number is the file's |
| PointerWalks.PatchWhole | cmsfs-fuse/cmsfs-fuse.c:4005-4036 | Patched last entries on all levels make up the tree of the file with the new record number |
| PointerWalks.RootCovers | cmsfs-fuse/cmsfs-fuse.c:3114-3130 | Below the root lies every data block exactly once |
| PointerStore.PtrStore.GetZeroBlock | cmsfs-fuse/amap.c:269-281 | The new block is the lowest free one |
| PointerStore.PtrStore.GetReservedBlock | cmsfs-fuse/cmsfs-fuse.c:1937-1946 | A pointer block starts with zero entries in a block that was free |
| PointerStore.PtrStore.FreeBlock | cmsfs-fuse/amap.c:286-292 | Only a block in use can be freed |
| PointerStore.PtrStore.MetaPtr | cmsfs-fuse/cmsfs-fuse.c:2343-2402 | The meta entry carries the record number of its last and the displacement of its first data block |
| PointerStore.PtrStore.WriteLeafPtr | cmsfs-fuse/cmsfs-fuse.c:2283-2402 | One more data block entry |
| PointerStore.PtrStore.WriteNodePtr | cmsfs-fuse/cmsfs-fuse.c:2283-2402 | One more pointer block with everything below it |
| PointerStore.PtrStore.RewritePointerBlock | cmsfs-fuse/cmsfs-fuse.c:2283-2402 | The whole tree below a pointer block: every data block once and in order, only fresh pointer blocks, nothing else changed |
| PointerStore.PtrStore.WalkVariable | cmsfs-fuse/cmsfs-fuse.c:1285-1308 | The walk returns the written addresses and displacements in order and meets no end marker early |
| PointerStore.PtrStore.WalkFixed | cmsfs-fuse/cmsfs-fuse.c:1225-1254 | The walk of a fixed file returns the written addresses in order and stops with the last block |
| PointerStore.PtrStore.PurgeVariable | cmsfs-fuse/cmsfs-fuse.c:2236-2265 | Exactly the pointer blocks of the tree are freed, each once, never a data block |
| PointerStore.PtrStore.PurgeFixed | cmsfs-fuse/cmsfs-fuse.c:2209-2234 | The same although every entry of a pointer block is looked at |
| PointerStore.PtrStore.PurgeDirectory | cmsfs-fuse/cmsfs-fuse.c:1972-1991 | The same for the directory, whose purge descends to the data blocks |
| PointerStore.PtrStore.UpdateLevels | cmsfs-fuse/cmsfs-fuse.c:3114-3130 | The depth for a number of blocks, found by repeated division |
| PointerStore.PtrStore.WriteTree | cmsfs-fuse/cmsfs-fuse.c:2407-2430 | The blocks a rewrite allocates are exactly the pointer blocks of the new tree |
| PointerStore.PtrStore.LocateLastDataVptr | cmsfs-fuse/cmsfs-fuse.c:1310-1340 | Fails exactly when the back offset makes no sense or the last pointers do not carry the record count; otherwise it returns the pointer to the last data block |
| PointerStore.PtrStore.PatchBlock | cmsfs-fuse/cmsfs-fuse.c:4005-4036 | Setting the record number of a last pointer leaves the tree below it intact |
| PointerStore.PtrStore.UpdateLastBlockVptr | cmsfs-fuse/cmsfs-fuse.c:4005-4036 | The result is the tree of the same blocks with the new record number in every last pointer; a senseless back offset is an I/O error that changes nothing |
| PointerStore.WriteWalkPurge | cmsfs-fuse/cmsfs-fuse.c:2209-2430 | Writing, walking and purging a tree for any block list of two or more blocks returns the list and leaves disk usage as it was |
| PointerStore.RewriteDblockPtrs | cmsfs-fuse/cmsfs-fuse.c:2071-2100 | The pointers of a directory of any number of blocks: none for one block, otherwise exactly the tree over the block list in fresh blocks |
| PointerStore.ChangeDblockPtrs | cmsfs-fuse/cmsfs-fuse.c:1972-2100 | When the block list changes, the old pointers go and the new ones come, and no pointer block is lost or left behind |
| PointerStore.PurgeDblockPtrs | cmsfs-fuse/cmsfs-fuse.c:1972-1991 | A purge gives back exactly the pointer blocks of the directory |
| PointerStore.WritePurgeDirectory | cmsfs-fuse/cmsfs-fuse.c:1972-2100 | Writing and purging the pointers of a directory of any size leaves allocation and pointer blocks as they were |
| ReadPath.JoinedAt | cmsfs-fuse/cmsfs-fuse.c:2457-2463 | A record's logical offset and length mark its bytes in the joined file, and its linefeed follows |
| ReadPath.ExtBytesAt | cmsfs-fuse/cmsfs-fuse.c:2552-2583 | Every extension is a contiguous part of the record at the sum of the lengths before it |
| FileReader.ReadFile.GuessRecordNumber | cmsfs-fuse/cmsfs-fuse.c:2435-2446 | The guess is always a record of the file |
| FileReader.ReadFile.SetHint | cmsfs-fuse/cmsfs-fuse.c:2465-2472 | The hint stays inside the record list |
| FileReader.ReadFile.FindRecord | cmsfs-fuse/cmsfs-fuse.c:2482-2547 | The search ends, and its answer is the record or linefeed at the offset; it fails exactly when the guess is the last record, the offset lies before it, and the hint does not answer |
| FileReader.TooShortRecordLength | cmsfs-fuse/cmsfs-fuse.c:2482-2547 | A concrete file and offset for which the search fails, because the record length is too short |
| FileReader.ReadFile.NeverMisguided | cmsfs-fuse/cmsfs-fuse.c:2435-2446 | If no record is longer than the record length of the status entry, the guess never lies behind the offset, so that failure cannot happen |
| FileReader.ReadFile.SearchUp | cmsfs-fuse/cmsfs-fuse.c:2506-2544 | The forward search always hits |
| FileReader.ReadFile.SearchDown | cmsfs-fuse/cmsfs-fuse.c:2506-2547 | The backward search fails exactly when it starts at the last record |
| FileReader.ReadFile.GetBlockDataFromExts | cmsfs-fuse/cmsfs-fuse.c:2558-2575 | An offset into the extensions gives the disk address and the bytes left in that piece |
| FileReader.ReadFile.GetBlockDataFromRecord | cmsfs-fuse/cmsfs-fuse.c:2552-2583 | The same for a whole record; null blocks read as zeros |
| FileReader.ReadFile.ReadPiece | cmsfs-fuse/cmsfs-fuse.c:2640-2668 | The next piece is part of the file at that offset and does not pass the request |
| FileReader.ReadFile.NeverFails | cmsfs-fuse/cmsfs-fuse.c:2599-2673 | If no record is longer than the record length of the status entry, no read fails |
| FileReader.ReadFile.ReadLinefeed | cmsfs-fuse/cmsfs-fuse.c:2640-2668 | A linefeed behind a record is delivered and the read goes on with the next record |
| FileReader.ReadFile.ReadRecord | cmsfs-fuse/cmsfs-fuse.c:2640-2668 | The pieces of a record are delivered in order until the record or the request ends |
| FileReader.ReadFile.Read | cmsfs-fuse/cmsfs-fuse.c:2599-2673 | A read fails if and only if a search on its way does, at the first offset, at a piece of a record or behind a linefeed; otherwise it returns exactly the requested slice of the joined records, clipped at the size of the session, whatever the hint was |
| VarReads.PieceRead | cmsfs-fuse/cmsfs-fuse.c:2552-2583 | A disk range inside a data block holds the stream bytes at that place |
| VarReads.ExtsRead | cmsfs-fuse/cmsfs-fuse.c:947-976 | The extensions of a record hold its bytes behind the first block, in order and completely |
| VarReads.EntryReads | cmsfs-fuse/cmsfs-fuse.c:1064-1200 | The index entry of a record leads to exactly the bytes of that record |
| VarReads.IndexReads | cmsfs-fuse/cmsfs-fuse.c:2482-2583 | The index of a variable file meets all conditions of the read operation |
| VarReads.JoinedReads | cmsfs-fuse/cmsfs-fuse.c:2599-2673 | Read over the index, the file is its records joined with linefeeds |
| VarReads.ReadBack | cmsfs-fuse/cmsfs-fuse.c:2599-2673 | The records of a file read back byte for byte at every offset and size, up to the size the session knows |
| VarReads.AppendThenRead | cmsfs-fuse/cmsfs-fuse.c:2599-2673 | From an empty file on: any buffers of any sizes written one by one and read after opening the file again give the text of the records they put, at every offset, size and hint |
| VarReads.BinaryRoundTrip | cmsfs-fuse/cmsfs-fuse.c:2599-2673 | A binary file reads back as the bytes written if and only if each write was stored as it is, always for writes of at most 0xffff bytes, and with the right length in any case |
| TextWrites.CutAnywhere | cmsfs-fuse/cmsfs-fuse.c:4294-4322 | Records and unfinished line of a text do not depend on where it is cut |
| TextWrites.FirstLine | cmsfs-fuse/cmsfs-fuse.c:4201-4210 | A newline ends the line begun in the cache, and only that line |
| TextWrites.LinesRead | cmsfs-fuse/cmsfs-fuse.c:4212-4292 | Records of a text read back as the text, with one blank in each empty line, followed by the unfinished line |
| TextWrites.LinesOk | cmsfs-fuse/cmsfs-fuse.c:4212-4292 | The lines of a text fit records if and only if each is at most 0xffff bytes long |
| TextWrites.WindowNewline | cmsfs-fuse/cmsfs-fuse.c:4212-4230 | The limited scan window misses no newline of a line that fits a record |
| TextWrites.OneRecord | cmsfs-fuse/cmsfs-fuse.c:4212-4292 | A line that fits makes one record |
| TextWrites.TypedLines | cmsfs-fuse/cmsfs-fuse.c:4212-4322 | If all lines fit, a write makes one record of each, keeps the unfinished line, or drops that when it is too long, and says how much it took |
| TextWrites.LostByte | cmsfs-fuse/cmsfs-fuse.c:4180-4292 | A line of 65537 bytes completed behind a full cache is reported as written, but its last byte is neither stored nor kept |
| TextWrites.TypedClean | cmsfs-fuse/cmsfs-fuse.c:4212-4322 | Whatever is written, no stored record holds a byte that reads as a newline |
| TextWrites.TextInjective | cmsfs-fuse/cmsfs-fuse.c:2599-2673 | Records without such bytes are determined by the text a reader sees |
| TextWrites.TextFile.CacheWriteData | cmsfs-fuse/cmsfs-fuse.c:4180-4189 | The cache takes what fits and keeps what it had |
| TextWrites.TextFile.FindNewline | cmsfs-fuse/cmsfs-fuse.c:4201-4210 | The first newline, or the length of the buffer |
| TextWrites.TextFile.WriteStrings | cmsfs-fuse/cmsfs-fuse.c:4212-4292 | One call takes one line, as far as it fits into the cache, or caches the rest; a wrong offset is refused; a cached line that grows too long is refused and dropped |
| TextWrites.TextFile.WriteLine | cmsfs-fuse/cmsfs-fuse.c:4249-4291 | Cache and tail become one translated record, two when they fill the cache, a blank for an empty line, and the position of the writer follows |
| TextWrites.TextFile.WriteText | cmsfs-fuse/cmsfs-fuse.c:4294-4322 | For every buffer the loop ends with the records, the cache and the count that the line by line definition gives, and the writer goes on behind the count |
| TextWrites.TextFile.Write | cmsfs-fuse/cmsfs-fuse.c:4294-4322 | The same for the whole write operation, which reports no more than INT_MAX bytes |
| TextWrites.KeptExactly | cmsfs-fuse/cmsfs-fuse.c:4294-4322 | The records of a text are its lines if and only if the lines fit |
| TextWrites.WriteChunks | cmsfs-fuse/cmsfs-fuse.c:4294-4322 | However a text is split into write calls, it becomes one record per line if and only if its lines fit |
| TextWrites.ReadExactly | cmsfs-fuse/cmsfs-fuse.c:2599-2673 | A reader sees the text behind the old contents if and only if each line has become one record |
| TextWrites.WriteThenRead | cmsfs-fuse/cmsfs-fuse.c:4180-4322 | Newline-terminated text written in any split to any file and read after opening it again is the same text with a blank in each empty line, behind the old contents, if and only if no line is longer than 0xffff bytes |
| BitMaps.Coordinates | cmsfs-fuse/amap.c:50-143 | Bitmap block, byte and bit of an address are those of its block number |
| BitMaps.AddressOf | cmsfs-fuse/amap.c:188-245 | The address computed from bitmap block, byte and bit is that of the block with this number |
| BitMaps.SetBit | cmsfs-fuse/amap.c:91-105 | Setting a clear bit takes exactly one block |
| BitMaps.ClearBit | cmsfs-fuse/amap.c:110-143 | Clearing a bit frees exactly this block |
| BitMaps.FirstClear | cmsfs-fuse/amap.c:148-157 | The first clear bit behind full bytes is the lowest free block of the disk |
| BitMaps.LowestOnDisk | cmsfs-fuse/amap.c:247-264 | While fewer blocks are in use than the disk has, the lowest free block lies on the disk |
| Allocator.AMap.BlocknumberLevel | cmsfs-fuse/amap.c:58-65 | The entry for an address on a level by repeated division |
| Allocator.AMap.GetAmapAddr | cmsfs-fuse/amap.c:70-86 | The path down the bitmap tree ends at the bitmap block of the address, at any depth |
| Allocator.AMap.BlockSet | cmsfs-fuse/amap.c:91-105 | One byte of the bitmap changes by one bit |
| Allocator.AMap.FindFirstEmptyBit | cmsfs-fuse/amap.c:148-157 | The first clear bit of a byte that has one |
| Allocator.AMap.EntryBit | cmsfs-fuse/amap.c:175-186 | The same or -1, exactly for full bytes |
| Allocator.AMap.ScanBlock | cmsfs-fuse/amap.c:232-244 | Scanning a bitmap block behind full bytes takes the lowest free block or proves the block full |
| Allocator.AMap.TakeBit | cmsfs-fuse/amap.c:236-242 | Taking the first clear bit takes the lowest free block and leaves a valid hint |
| Allocator.AMap.BytesPerLevel | cmsfs-fuse/amap.c:163-173 | Disk bytes below one pointer of a level |
| Allocator.AMap.ScanTree | cmsfs-fuse/amap.c:213-245 | The recursive scan finds the lowest free block below any block of the tree, at any depth |
| Allocator.AMap.GetFreeBlockFast | cmsfs-fuse/amap.c:188-208 | What the search from the hint finds is the lowest free block of the whole disk |
| Allocator.AMap.GetFreeBlock | cmsfs-fuse/amap.c:250-264 | An allocation returns the lowest free block, inside the disk as the source's comment claims, or ENOSPC exactly when the counters say full |
| Allocator.AMap.BlockClear | cmsfs-fuse/amap.c:110-143 | Exactly the block of the address is freed, and the hint stays good |
| Allocator.AMap.ClearEntry | cmsfs-fuse/amap.c:125-142 | The hint moves down when the freed block lies before it |
| Allocator.AMap.FreeBlock | cmsfs-fuse/amap.c:286-292 | Freeing keeps the counter equal to the number of set bits; address 0 is ignored |
| Allocator.StepSafe | cmsfs-fuse/amap.c:247-292 | A block handed out was not in use and lies on the disk |
| Allocator.RunSafe | cmsfs-fuse/amap.c:247-292 | Over every run no block is handed out while it is in use, and all blocks in use lie on the disk |
| Allocator.RunAllocator | cmsfs-fuse/amap.c:110-292 | Over every run of allocations and frees the hinted allocator gives the answers of one that always scans for the lowest free block, and the counter equals the number of blocks in use |
| DirNames.StripFill | cmsfs-fuse/cmsfs-fuse.c:715-784 | Filling a field with blanks and stripping them gives back exactly the strings that do not end with a blank |
| DirNames.DecodeEncode | cmsfs-fuse/cmsfs-fuse.c:725-784 | A file name survives the directory entry if and only if neither part ends with a blank |
| DirNames.SameEntry | cmsfs-fuse/cmsfs-fuse.c:725-784 | Two such names mean the same entry only when they are equal |
| DirNames.ValidCanonical | cmsfs-fuse/cmsfs-fuse.c:786-805 | Names accepted for new files are of that kind |
| DirTables.WriteSlot | cmsfs-fuse/cmsfs-fuse.c:2113-2207 | Writing one entry on disk changes one entry of the directory |
| DirTables.KilledNames | cmsfs-fuse/cmsfs-fuse.c:2759-2841 | Replacing an entry by the last one removes exactly one name and moves exactly one |
| DirLaws.LookExactly | cmsfs-fuse/cmsfs-fuse.c:1566-1618 | A lookup agrees with a scan if and only if the address cached for the key, if there is one, is that of the entry a scan finds |
| DirLaws.ScanKilled | cmsfs-fuse/cmsfs-fuse.c:2759-2841 | After a deletion every other name is found where it was, except the moved one |
| DirLaws.KillExactly | cmsfs-fuse/cmsfs-fuse.c:2789-2820 | After a deletion the cache is right if and only if the file was named as its entry names it, or that name was not cached |
| DirLaws.LabelExactly | cmsfs-fuse/cmsfs-fuse.c:2886-2904 | The same condition decides for a rename to a free name |
| DirLaws.UnlinkExactly | cmsfs-fuse/cmsfs-fuse.c:2759-2841 | A deletion through any name finds the right entry and leaves a right cache if and only if the cached address of that name is right and the condition above holds; then exactly this file is gone |
| DirRuns.MoveExactly | cmsfs-fuse/cmsfs-fuse.c:2843-2905 | A rename through any names looks up the right entries and leaves a right cache if and only if its lookups, the deletion of its target and its relabelling each meet that condition; then it does what it does to a plain list |
| DirRuns.StepRight | cmsfs-fuse/cmsfs-fuse.c:1396-2905 | An operation that meets its condition replies and changes the entries like on a plain list and keeps the cache right |
| DirRuns.PlainHarmless | cmsfs-fuse/cmsfs-fuse.c:725-784 | Operations through names that do not end with blanks always meet it |
| DirRuns.RunRight | cmsfs-fuse/cmsfs-fuse.c:1396-2905 | Over every run of such operations the directory with its cache replies like a plain list and ends with the same entries |
| DirRuns.PlainRuns | cmsfs-fuse/cmsfs-fuse.c:1396-2905 | A run through names that do not end with blanks meets the condition throughout |
| DirRuns.RenameExactly | cmsfs-fuse/cmsfs-fuse.c:2843-2905 | A rename keeps the file under its new name if and only if the two names mean different entries |
| DirRuns.SameEntryNames | cmsfs-fuse/cmsfs-fuse.c:2843-2905 | Concrete names that mean the same entry, by case or by blanks |
| DirRuns.RefusedExactly | cmsfs-fuse/cmsfs-fuse.c:2843-2905 | A refused rename changes nothing if and only if no entry has the key of the new name |
| DirRuns.RefusedName | cmsfs-fuse/cmsfs-fuse.c:2843-2905 | Such a name: refused as too long, its key is cut to the name of another file |
| DirRuns.OwnNameStale | cmsfs-fuse/cmsfs-fuse.c:2795-2797 | With a file cached under two spellings, deleting it through the padded one leaves the other stale, and the next lookup ends the program |
| DirRuns.WrongFileDeleted | cmsfs-fuse/cmsfs-fuse.c:2759-2841 | With two files and a stale padded name, deleting through that name deletes the other file |
| DirRuns.WrongFileRenamed | cmsfs-fuse/cmsfs-fuse.c:2843-2905 | The same for a rename |
| Directories.Directory.CacheFstAddr | cmsfs-fuse/cmsfs-fuse.c:1396-1422 | The cache gets the address unless it has the name; a full cache is emptied first |
| Directories.Directory.WalkDirBlock | cmsfs-fuse/cmsfs-fuse.c:1472-1539 | One block walked without a hit proves that the name is not in it |
| Directories.Directory.WalkLookup | cmsfs-fuse/cmsfs-fuse.c:1541-1549 | The walk finds the entry with the name if there is one |
| Directories.Directory.LookupFile | cmsfs-fuse/cmsfs-fuse.c:1566-1618 | For every name: a cached address is taken as it is, even when another file or none is there now; otherwise the entry a scan finds, which is then cached |
| Directories.Directory.WalkLocateEmpty | cmsfs-fuse/cmsfs-fuse.c:1472-1539 | The first free slot is the one behind the last entry |
| Directories.Directory.NewDirBlock | cmsfs-fuse/cmsfs-fuse.c:2154-2176 | A new directory block comes when all slots are in use, at the end |
| Directories.Directory.WriteNew | cmsfs-fuse/cmsfs-fuse.c:2191-2205 | The directory stays packed with the new entry at its end |
| Directories.Directory.Create | cmsfs-fuse/cmsfs-fuse.c:2113-2207 | For every name: a name that is found creates nothing; a refused name is EINVAL; otherwise exactly one entry is added |
| Directories.Directory.AddEntry | cmsfs-fuse/cmsfs-fuse.c:2149-2205 | First free slot or new block, and the address is cached |
| Directories.Directory.FindLastEntry | cmsfs-fuse/cmsfs-fuse.c:2729-2757 | The last entry of the last block, and whether it is the only one there |
| Directories.Directory.MoveLast | cmsfs-fuse/cmsfs-fuse.c:2799-2820 | The last entry takes the place of the deleted one, on disk and in the cache |
| Directories.Directory.DropEmptyBlock | cmsfs-fuse/cmsfs-fuse.c:2822-2831 | A directory block without entries is given up, so the directory stays packed |
| Directories.Directory.Displace | cmsfs-fuse/cmsfs-fuse.c:2789-2820 | Move and cache updates together, for any key the entry was reached by |
| Directories.Directory.RemoveEntry | cmsfs-fuse/cmsfs-fuse.c:2789-2836 | The directory without the entry is packed |
| Directories.Directory.DeleteFile | cmsfs-fuse/cmsfs-fuse.c:2759-2841 | For every name: the entry at the address the lookup gives is removed, an unknown name is ENOENT, and the program ends when no file is at a cached address |
| Directories.Directory.WriteName | cmsfs-fuse/cmsfs-fuse.c:2886-2904 | The entry has the new name and nothing else changes |
| Directories.Directory.ChangeName | cmsfs-fuse/cmsfs-fuse.c:2875-2904 | The entry gets the name if it is still there, and the cached address of the old one is forgotten |
| Directories.Directory.Rename | cmsfs-fuse/cmsfs-fuse.c:2843-2905 | The result of every rename of closed files through any names: ENOENT, EINVAL after the target was deleted, or the new name |
| Directories.Directory.ReadDir | cmsfs-fuse/cmsfs-fuse.c:1793-1823 | The listing has every file once, in directory order, and caches the addresses of those that were not cached |
| Directories.Directory.ListBlock | cmsfs-fuse/cmsfs-fuse.c:1472-1539 | One block of that listing |
| Directories.OneOp | cmsfs-fuse/cmsfs-fuse.c:2113-2905 | Each operation on disk, list and cache is the step of the state machine over entries and cache, for any names |
| Directories.RunDirectory | cmsfs-fuse/cmsfs-fuse.c:1396-2905 | Over every run of lookups, listings, creations, deletions and renames of closed files through any names the directory follows the state machine; while no operation breaks the condition on its name it gives the replies of a plain list of entries and holds the same entries; names that do not end with blanks never break it |
| ApConflicts.CommonDomains | ap_tools/ap-check.c:340-355 | The inner merge finds each common domain once |
| ApConflicts.ReportAll | ap_tools/ap-check.c:325-366 | Rows of common domains for all common adapters are the intersection of the two queue sets |
| ApConflicts.FindApqnConflicts | ap_tools/ap-check.c:325-366 | Each queue of both devices is reported exactly once, nothing else is, and the return code is non-zero if and only if there is one |
| ApProtocol.EffectSafe | ap_tools/ap-check.c:373-493 | Carrying out a request that conflicts with nothing keeps autostart configurations and active devices pairwise disjoint |
| ApProtocol.VerdictExact | ap_tools/ap-check.c:570-631 | A callout that has looked at everything succeeds if and only if nothing conflicts at that moment, although it looked at one device at a time |
| ApProtocol.Bystander | libutil/util_lockfile.c:144-250 | The steps of the lock holder do not disturb any other process |
| ApProtocol.Mover | ap_tools/ap-check.c:757-920 | The process that makes a step stays in a consistent phase |
| ApProtocol.DevicesSafe | ap_tools/ap-check.c:757-920 | No step breaks the disjointness of devices |
| ApProtocol.StepKeepsInv | ap_tools/ap-check.c:757-920 | Every step of every process keeps the invariant |
| ApProtocol.RunSafe | ap_tools/ap-check.c:373-920 | In every state of every interleaving the autostart configurations and the active devices are pairwise disjoint, and at most one process is at work |
| ApProtocol.FailureLeavesNoLock | ap_tools/ap-check.c:138-159 | A callout that fails leaves no lock of its own and no change |
| ApProtocol.CalloutRuns | ap_tools/ap-check.c:373-493 | A callout that takes the lock and looks at the other devices in any order is a run of the protocol; it ends approved, or applied for a live change, if and only if nothing conflicts, and otherwise changes nothing |
| ApCheck.Callout.CheckOthers | ap_tools/ap-check.c:373-493 | Fails exactly when another device of the directory (autostart ones only, for configurations) shares a queue |
| ApCheck.Callout.CheckMask | ap_tools/ap-check.c:501-567 | Fails exactly when the device shares a queue with the host's masks |
| ApCheck.Callout.CheckChanges | ap_tools/ap-check.c:570-610 | Succeeds exactly when the lock was free and the stored configurations allow the change; the lock is marked for cleanup exactly on failure |
| ApCheck.Callout.CheckActive | ap_tools/ap-check.c:612-631 | Succeeds exactly when active devices and masks allow the device |
| ApCheck.Callout.HandleDefine | ap_tools/ap-check.c:710-723 | A definition of an existing device fails before the lock is touched |
| ApCheck.Callout.HandleModify | ap_tools/ap-check.c:735-749 | A change of an unknown device fails before the lock is touched |
| ApCheck.Callout.HandleStart | ap_tools/ap-check.c:811-850 | Without the driver a start fails before the lock is touched; otherwise it succeeds exactly on a free lock and no conflict |
| ApCheck.Callout.HandleStop | ap_tools/ap-check.c:856-869 | A stop only takes the lock |
| ApCheck.Callout.HandleUndefine | ap_tools/ap-check.c:879-911 | An undefine takes the lock and fails, with cleanup, when the device cannot be read |
| ApCheck.Callout.HandleLiveModify | ap_tools/ap-check.c:757-793 | The active device changes exactly on success, and the lock is always marked for cleanup |
| ApCheck.Callout.Execute | ap_tools/ap-check.c:1140-1227 | A whole callout has the result of its run in the protocol; a pre callout holds the lock afterwards exactly when it succeeded, a live callout never, and a post callout releases only its own process's lock |
| Terms.DecRead | cpuplugd/terms.c:74-224 | A printed index has the digits of its value |
| TermRoundTrip.TableEntry | cpuplugd/main.c:20-41 | Every symbol name is found at its own place of the table, although one name begins like another |
| TermRoundTrip.RoundedExactly | cpuplugd/terms.c:74-224 | Rounding constants to six decimals, ties to even, changes nothing if and only if no constant has more |
| TermRoundTrip.ReadLeaf | cpuplugd/terms.c:264-362 | Every printed symbol, counter, time and rounded constant reads back in front of anything that may follow an operand |
| TermRoundTrip.ReadTerm | cpuplugd/terms.c:256-414 | Every compactly printed term reads back, its constants rounded, alone or before a closing parenthesis |
| TermRoundTrip.StripShow | cpuplugd/terms.c:74-224 | Without white space the printed term is the compact one |
| TermRoundTrip.RoundTrip | cpuplugd/terms.c:74-414 | Parsing the stripped output of the printer returns the tree with its constants rounded to six decimals, the same tree if and only if none has more, uses all input and meets the highest history index of the tree |
| TermRoundTrip.Shadowed | cpuplugd/terms.c:226-254 | A variable with the name of a counter file hides the counters of that file |
| TermRoundTrip.RoundTripExactly | cpuplugd/config.c:53-77 | With the variables a configuration can define, all terms survive printing and parsing if and only if none is called meminfo, vmstat or cpustat |
| TermRoundTrip.HiddenCounter | cpuplugd/config.c:53-77 | A concrete variable and counter for which the round trip fails |
| TermPrecedence.RootLoosest | cpuplugd/terms.c:14-25 | In a tree that follows the priorities no operator binds looser than the root, signs aside |
| TermPrecedence.ShapedUnique | cpuplugd/terms.c:14-25 | Operands, signs and operators of a tree that follows the priorities determine the tree |
| TermPrecedence.ReadSign | cpuplugd/terms.c:266-295 | A sign that is not part of a number applies to everything that is read behind it with the same priority |
| TermPrecedence.ChainParse | cpuplugd/terms.c:256-414 | Parsing a chain of signed operands stops at the first operator that does not bind tighter than the given priority |
| TermPrecedence.Precedence | cpuplugd/terms.c:256-414 | Every unparenthesised chain of operands with any signs in front of them parses completely to the one tree with its operands, signs and operators in order, right operands binding strictly tighter, left ones at least as tight and without a sign of their own |
| TermPrecedence.SignReachesFar | cpuplugd/terms.c:279-292 | A minus in front of a sum is one for the whole sum |
| TermParser.Parser.LookUpSymbol | cpuplugd/terms.c:314-320 | The first symbol name the text begins with |
| TermParser.Parser.ParseHistory | cpuplugd/terms.c:342-360 | The optional history index, and the highest one seen |
| TermParser.Parser.ParseSym | cpuplugd/terms.c:314-360 | A symbol, counter or time at the beginning of the text |
| TermParser.Parser.ParseVarOrSym | cpuplugd/terms.c:226-254 | A variable is replaced by the term its value parses to; a value with a rest ends the daemon |
| TermParser.Parser.ParseFirst | cpuplugd/terms.c:264-362 | What stands before the first binary operator |
| TermParser.Parser.ParseTerm | cpuplugd/terms.c:256-414 | The loop with its text pointer and history maximum computes what the recursive definition says, for every text and priority |
| Partitions.CountersDone | fdasd/fdasd.c:2523-2594 | The two changed counters are exactly the real gaps before and behind the new partition |
| Partitions.TakenOut | fdasd/fdasd.c:2599-2640 | The tracks of a removed partition and the gap behind it make up the gap before it |
| Partitions.Conservation | fdasd/fdasd.c:2523-2640 | Free and used tracks add up to the whole disk |
| Partitions.AcceptedConf | fdasd/fdasd.c:771-857 | A checked configuration file fills the list with its partitions and the right gaps |
| Partitions.Refused | fdasd/fdasd.c:771-857 | A refused entry means that the entries are not in disk order on the usable tracks, or one has a single track |
| Partitions.Anchor.constructor | fdasd/fdasd.c:448-524 | The list of an empty disk |
| Partitions.Anchor.AddNode | fdasd/fdasd.c:493-522 | Each new node is linked in both directions |
| Partitions.Anchor.RelinkUp | fdasd/fdasd.c:2538-2551 | The pointer changes that move the last node before another one, at every place |
| Partitions.Anchor.MoveUp | fdasd/fdasd.c:2538-2551 | The list is well linked again, in the new order |
| Partitions.Anchor.RelinkDown | fdasd/fdasd.c:2604-2626 | The pointer changes that move a node to the end, from every place |
| Partitions.Anchor.MoveDown | fdasd/fdasd.c:2604-2626 | The list is well linked again, in the new order |
| Partitions.Anchor.FindPlace | fdasd/fdasd.c:2528-2536 | The place found is the one before the first partition with a later start |
| Partitions.Anchor.SplitGap | fdasd/fdasd.c:2562-2593 | The gap an extent was put into is split at it |
| Partitions.Anchor.UpdateCounters | fdasd/fdasd.c:2561-2593 | Afterwards each counter equals the real gap |
| Partitions.Anchor.LinkIn | fdasd/fdasd.c:2538-2553 | The new node stands at its place and is marked as used |
| Partitions.Anchor.EnqueueNewPartition | fdasd/fdasd.c:2523-2594 | Inserting at any place gives a well linked list with used nodes first, ascending, and right gaps |
| Partitions.Anchor.JoinGap | fdasd/fdasd.c:2610-2619 | The freed tracks go to the gap before |
| Partitions.Anchor.ClearLast | fdasd/fdasd.c:2634-2638 | The freed node is empty |
| Partitions.Anchor.DequeueOldPartition | fdasd/fdasd.c:2599-2640 | Removing at any place keeps all of that |
| Partitions.Anchor.AddPartition | fdasd/fdasd.c:2645-2680 | Adds the partition unless all nodes are in use |
| Partitions.Anchor.EnterPartition | fdasd/fdasd.c:2645-2680 | Filling the last node and inserting it adds exactly this extent |
| Partitions.Anchor.FindNode | fdasd/fdasd.c:2685-2729 | The node with a number |
| Partitions.Anchor.RemovePartition | fdasd/fdasd.c:2685-2729 | Removes the numbered partition; other numbers change nothing |
| Partitions.Anchor.CheckEntry | fdasd/fdasd.c:771-857 | The checks on one entry of the file |
| Partitions.Anchor.TakeEntry | fdasd/fdasd.c:771-857 | A checked entry fills its node and the counter behind it |
| Partitions.Anchor.CheckConffileInput | fdasd/fdasd.c:771-857 | A file is accepted if and only if its partitions are ascending, disjoint, on the disk and longer than one track; then the list is as if they had been inserted |
| Partitions.Anchor.CountUsed | fdasd/fdasd.c:2826-2871 | Counting the used nodes gives the number of partitions |
| Partitions.ConfigureThenEdit | fdasd/fdasd.c:771-857 | A disk set up from an accepted configuration file can be edited like any other: every run of edits holds its partitions and accounts for all tracks |
| Partitions.ApplyEdit | fdasd/fdasd.c:2645-2729 | Each edit does to the list what it does to a plain sequence of extents |
| Partitions.RunEdits | fdasd/fdasd.c:2523-2729 | Over every run of insertions and removals the list holds exactly the partitions of the run, well linked, with right gaps and all tracks accounted for |
| CpacfSession.CountIdx | cpacfstats/cpacfstatsd.c:39-73 | The list sorted by instruction names every counter exactly once |
| CpacfSession.CountsAgree | cpacfstats/perf_crypto.c:784-837 | Announced and sent numbers agree for user space always, for kernel space if and only if no supported counter is suppressed |
| CpacfSession.TableNoneSuppressed | cpacfstats/cpacfstats_common.c:26-216 | The counters the tools know have none suppressed |
| CpacfSession.DetailsTaken | cpacfstats/cpacfstats.c:174-233 | The client takes all details of a virtual counter and nothing behind them, also when one of them is an error |
| CpacfSession.AgreeFrom | cpacfstats/cpacfstats.c:376-402 | From every counter on, both sides stay in step to the end |
| CpacfSession.SessionAgreement | cpacfstats/cpacfstatsd.c:136-289 | For every command, counter choice, states, supported set and kernel behaviour the client takes each message in the role it was sent in and leaves none unread, and it succeeds exactly when no command and no last details failed |
| CpacfSession.SuppressedConfuses | cpacfstats/perf_crypto.c:797-819 | With a suppressed but supported counter the client misses an answer; exactly then |
| CpacfStats.Daemon.CountSupported | cpacfstats/perf_crypto.c:797-819 | The announced number |
| CpacfStats.Daemon.ReadCtr | cpacfstats/perf_crypto.c:784-837 | Virtual counters read as their announced number and never fail |
| CpacfStats.Daemon.ResetCtr | cpacfstats/perf_crypto.c:739-781 | A reset ends with a reading |
| CpacfStats.Daemon.SendPai | cpacfstats/cpacfstatsd.c:136-161 | Nothing for a counter that is not enabled; otherwise all details up to the first error |
| CpacfStats.Daemon.DoPrint | cpacfstats/cpacfstatsd.c:260-289 | The messages of a print query |
| CpacfStats.Daemon.DoReset | cpacfstats/cpacfstatsd.c:229-258 | The messages of a reset query |
| CpacfStats.Daemon.DoEnable | cpacfstats/cpacfstatsd.c:163-201 | The messages of an enable query, with the new states |
| CpacfStats.Daemon.DoDisable | cpacfstats/cpacfstatsd.c:203-227 | The messages of a disable query, which sends no details |
| CpacfStats.Daemon.Serve | cpacfstats/cpacfstatsd.c:598-632 | Any query is answered with exactly the messages of the session |
| CpacfStats.Receiver.NumUserSpaceCtrs | cpacfstats/cpacfstats_common.c:242-253 | The number of counters with a user space part |
| CpacfStats.Receiver.VirtualAnswer | cpacfstats/cpacfstats.c:174-233 | Details follow an enabled virtual counter only; too large an announcement ends the client |
| CpacfStats.Receiver.Details | cpacfstats/cpacfstats.c:174-233 | As many details as announced are read, fewer after an error |
| CpacfStats.Receiver.Receive | cpacfstats/cpacfstats.c:376-402 | The receive loop computes what the client function says |
| CpacfStats.Session | cpacfstats/cpacfstatsd.c:136-289 | Daemon and client loops together: nothing unread, every message in its role, success exactly without errors |
| RingDrain.Pieces | cpumf/pai.c:257-299 | The quotient test of the drain, with its exception for a head on the buffer end, says exactly whether the unread bytes wrap around |
| RingDrain.Ring.WriteOut | cpumf/pai.c:274-295 | One or two writes put the unread bytes in stream order |
| RingDrain.Ring.SaveMap | cpumf/pai.c:257-299 | After a drain the file is the stream and nothing is unread, for every head and tail |
| RingDrain.RunDrains | cpumf/pai.c:257-299 | Over repeated drains of at most a buffer full the file is exactly the produced stream, across all wraps |

## Left out

- Truncation, extended attributes, dates, `statfs` and the conversion of the record format.
- Data blocks of fixed files: the pointer trees and the read operation cover them, scanning and extending them is not modelled.
- The flush of an unterminated last line when a text file is closed.
- VarFiles.VarFile.WalkDisplaced: null blocks (sparse parts), which the program never writes to a variable file, are not scanned.
- VarFiles.VarFile.WalkVarDataBlock: the same.
- VarFiles.VarFile.ExamineLastBlock: the same.
- VarFiles.VarFile.DiskEnd: the same.
- VarFiles.VarFile.GetFileSizeVariable: the same, for the last block.
- VarFiles.VarFile.RewritePointers: the same, for a file of one block.
- VarFiles.VarFile.WritePrepareBlock: the disk does not run full while a file is written, and null blocks are not asked for; the allocator itself reports a full disk.
- VarFiles.VarFile.ExtendBlock: the same.
- VarFiles.VarFile.PrepareAppend: the reservation of pointer blocks, which matters only on a full disk.
- PointerStore.PtrStore.GetZeroBlock: the same; a free block is always found.
- PointerStore.PtrStore.GetReservedBlock: the same; the counter of reserved blocks.
- The bytes of pointer blocks and directory entries: both are kept as records, the bitmap and the data blocks as bytes.
- Character set conversion is any function on bytes, the reader's undoing the writer's.
- Block sizes are any number from 2 to 0xffff (the sizes in use are powers of two), `off_t` and `int` do not overflow, and `ceil` on doubles is exact.
- Directories.Directory.NewDirBlock: the pointer blocks of the directory, which `RewriteDblockPtrs` and `ChangeDblockPtrs` treat, and a full disk.
- Directories.Directory.DropEmptyBlock: the same; a block that was given up is not used for other data as long as an address in it may be cached.
- Directories.Directory.DeleteFile: frees no data blocks; files are closed.
- Directories.Directory.Rename: when the file itself was deleted as the target, the program writes the entry to disk address 0, which lies outside the directory.
- The hash table of the name cache is a map; a full table is emptied and sized again as in the source.
- ApProtocol.RunSafe: masks do not change, the input of a callout is read faithfully, processes do not die while they hold the lock, and stale locks are not taken over.
- The attributes and capabilities callouts of ap-check, and the dynamic configuration writes of a live change, which only succeed or fail.
- Evaluation of terms and the rest of the cpuplugd configuration.
- Terms.Parse: numbers have digits and a decimal point, no exponent and no hexadecimal form; values are exact reals, and the printer rounds to six decimals with ties to even; an index that is not written reads as 0, where the program leaves it uninitialised; variables are replaced to a nesting depth that is a parameter, behind which the daemon exits.
- Partitions.Anchor.AddPartition: the tracks lie in a gap; how the user is asked for them is not modelled.
- Partition names, the mapping of list places to partition numbers, and the labels of the volume table of contents.
- Partitions.Anchor.CheckConffileInput: an entry has both limits or none, as the parser of the file leaves it; keywords for first and last track are already replaced.
- CpacfSession.SessionAgreement: counter states change only through the commands of the session, and what the kernel reports is an arbitrary function; the connection is ordered and reliable.
- The hotplug thread, the per-CPU event lists and the printing of the client.
- RingDrain.RunDrains: at most a buffer full is unread when a drain begins, and positions do not overflow 64 bits.
