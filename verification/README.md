# GDPFS: a verified model of the FIG tree, and of what is built on it and beside it

GDPFS keeps files in append-only logs. For every open file an index, the *FIG tree*, maps each
byte to the number of the log record that wrote it last. The FIG tree is a B-tree over byte
ranges that never deletes what a write covers: an overwritten mapping stays below the new one,
stale, and the gaps between the entries of the nodes above decide that no reader gets there. What
sticks out of the range is put back by up to two *continuations*, and a path through the tree is
repaired while the nodes on it are split.

This project proves the following, each for all inputs, all runs or all reachable states.

- **Writes.** After `ft_write` a lookup finds the new value for every byte of the range, and what
  it found before for every other byte. Over every run of writes the tree maps each byte to its
  last writer, and every node, stale ones too, is well formed. The code that does this in place,
  with explicit pointers, node splits, path arrays of height + 2 slots and path repair, computes
  exactly the tree of the recursive specification, in every case in which a write can end well.
  With the arithmetic it is written for, continuations never want continuations of their own, and
  no node is reached twice.
- **Height.** Without any minimum fill, 3^(height + 1) <= 4 * writes + 3, by a potential
  argument.
- **32-bit indices.** The compiled arithmetic gives the same tree, node for node, for every run
  that stays away from the last byte index. It wraps around at byte 0 too, but there pruning has
  always emptied the subtree that is concerned. A write that cuts an entry ending at the last byte
  index ends well if and only if a condition on the tree and the range holds; then every byte finds
  what it should. Exactly when that write also gives the intended tree, node for node, is a second
  condition. Two runs break the first one, each in its own way.
- **Iteration.** `ft_read` and `fti_next` yield disjoint ranges in ascending order that cover
  exactly the bytes a lookup finds in the interval, with the values it finds, from a stack of
  height + 2 states, and none of their bounds wraps around.
- **Checkpoints.** Writing a tree that was never written before gives one record a node, children
  before parents; following the pointers from the last record gives back the very same tree. A
  write dirties every node that it adds or changes, except by pruning it, and cleans none; so to a
  tree of one node a checkpoint, a write and a checkpoint give the whole new tree.
- **Files.** A file that was never truncated is a flat, zero-filled array of bytes: writing overlays
  it, reading returns its slice, opening a log by replay rebuilds it, with the cache off and with
  the cache on, also with one left over from an earlier opening. After a truncation that is so if
  and only if no old bytes come back.
- **Beside the tree.** The bitmap file is a set of naturals. The directory file is a map from
  names to logs. The sort of the intrusive list is a stable sort in place. In the ring of
  precreated logs each log goes to exactly one consumer, in order, no wakeup is lost, and from every
  reachable state every call can end. An event on the table of open files leads to exactly one
  state; files are freed only when nothing refers to them; which are never freed is said exactly.

## How the modules fit together

| modules | what they are |
|---|---|
| `Intervals`, `FigTrees`, `FigPrune`, `FigInsert`, `FigAbsorb`, `FigPaths` | trees as values; lookup; the effect of pruning, replacing, inserting, splitting; paths |
| `FigWrite`, `FigCorrect`, `FigRuns`, `FigHeight` | one write, whole runs, the height |
| `FigWidth`, `FigSpine`, `FigOutcome`, `FigAgree`, `FigEdge` | 32-bit indices: off the last byte index; at it, the continuation on the right spine, when a write ends, when it is the intended one, and runs that do not end |
| `FigMemory`, `FigNodes`, `FigPathOps`, `FigDescent`, `FigClimb`, `FigRepair`, `FigTreeImpl` | the tree in memory: node operations and `ft_write` in place, proved against the above |
| `FigScan`, `FigIterImpl` | what an iterator has to yield, and the iterator with its stack |
| `FigCheckpoint` | checkpoints and reading from them |
| `FileLog`, `GdpfsFile`, `GdpfsCache`, `BitmapFile`, `GdpfsDir` | the log as a flat array, the file on it, its cache, the bitmap of the cache, directories |
| `ListMerge`, `ListImpl` | the doubly linked list and its merge sort |
| `FileTable`, `PrecreatedRing` | the life of open files; the ring of precreated logs |

`dafny verify dfyconfig.toml` verifies all of it.

## Reading the model

- A pointer to a tree node is a number, and the nodes in memory are a map from these numbers to
  records with the fields of `struct ft_node`, in a field `mem` of the class `NodeStore` that the
  methods change. `Own(mem, p, t)` says that pointer p stands for the tree t and that no node is
  reached twice. The fixed-size arrays inside a node are sequences. List elements, path arrays,
  iterator stacks, buffers and files are Dafny objects and arrays.
- Byte indices are integers. The arithmetic that can wrap around takes a `Width`: `Unbounded` is
  what the algorithm is written for, `Bits32` what it is compiled with. Files always use `Bits32`.
- In a continuation, `valid` names the bytes with old contents and lies beside the range; in a
  main insertion it contains the range. These are different preconditions (`Opens`, `MainShape`).
- A write *ends* with a tree (`FigOutcome.Ends`) if no continuation wants a continuation, every entry
  goes into the gap it belongs to, and the path arrays lead to where they should whenever a split
  gets that far. With unbounded indices every write does (`FigAgree.IntendedEnds`).
- The ring and the file table are state machines. A step of the ring is what one thread does
  while it holds the mutex, or one write to the unlocked slot. A step of the file table is one
  handler.

## Where the code does something else than it says

- **The last byte index.** The assertions at src/figtree/figtree.c:309-316 rule out that a
  continuation spawns another. With 32-bit indices it can, if an overwritten entry ends at byte
  index 4294967295: the bound `previous->irange.right + 1` wraps around to 0, and the right
  continuation runs through old contents instead of clearing them. It wants a continuation if and
  only if one of these, on the right spine of its place, is cut by the piece
  (`FigOutcome.EdgeMeetsNothing`; `FigEdge.EdgeFails` is a run). It can also push up an old entry, or
  take the place of old entries: then the loop that repairs the path (figtree.c:187-258) is skipped,
  the last index is not moved to the left, and an entry that the left continuation pushes up goes to
  the wrong side, which no assertion notices (`FigEdge.EdgeMisplaces` is a run).
  `FigOutcome.EndsIfSafe` has the exact condition under which a write ends well, `EndsCorrect` what it
  has done then, and `FigAgree.EndsAsIntended` when its tree is the intended one.
- **Truncation.** `gdpfs_file_ftruncate` cuts off everything whatever size it is asked for
  (src/gdpfs_file.c:1113), and leaves the index as it is: bytes that were cut off come back with the
  next write behind them (`FileLog.CutComesBack`). `FileLog.FlatSnoc` says when they do not.
- **Removing a missing name.** `gdpfs_dir_remove` returns the status of the search when the name
  is not there (src/gdpfs_dir.c:446-450), and that status is OK. `Dir.Remove` does the same.
- **Long names.** Names of more than 255 bytes are cut off in the slot but compared in full. An add
  of one is never refused, it cannot be found afterwards, the cut name can, and names stay unique if
  and only if the cut name was not there before (`GdpfsDir.Added`, promised by `Dir.Add`).
- **Files that are never freed.** A file that leaves the list of recently closed files is freed by
  the end of its checkpoint and by nothing else. If there is nothing to checkpoint and none on its
  way, it is an orphan: it stays in memory, and in the table, until its name is opened again. The
  contracts of the handlers say of every file whether it is one afterwards; `OrphanStays` has it
  over runs, and `ReadAll` the runs in which all files but 256 end up like this.

## Model

| member | source | states |
|---|---|---|
| `Intervals.RestrictIsIntersection` | src/figtree/interval.c:68-81 | restricting an interval intersects the sets of bytes, and emptiness always comes out as the special empty interval |
| `FigTreeImpl.FigTree.FtLookup` | src/figtree/figtree.c:320-340 | the loop over nodes in memory finds what the recursive lookup finds in the tree that the memory stands for |
| `FigTrees.LookupGap` | src/figtree/figtree.c:320-340 | a byte between two entries is looked up in the subtree between them, and nowhere else |
| `FigTrees.LookupHit` | src/figtree/figtree.c:328-331 | a byte in an entry gets its value, whatever lies below |
| `FigPrune.PrunedLookup` | src/figtree/figtreenode.c:174-289 | pruning to `valid` changes no lookup of a byte of `valid` |
| `FigPrune.PrunedShape` | src/figtree/figtreenode.c:174-289 | after pruning every entry lies inside `valid`, and heights, order and the number of subtrees are right |
| `FigPrune.PrunedBare` | src/figtree/figtreenode.c:210-222 | left of an entry that reaches the left bound of `valid`, pruning leaves only empty nodes |
| `FigNodes.NodeStore.FtnPruneTo` | src/figtree/figtreenode.c:174-289 | the five scans and the two compactions, in place, turn the subtree at the pointer into the pruned one and touch no node outside it; the node is dirtied if and only if it loses an entry |
| `FigNodes.NodeStore.PerformDeletes` | src/figtree/figtreenode.c:267-288 | the compaction keeps exactly the entries and subtrees that are not marked, in their order |
| `FigNodes.NodeStore.SubtreeClear` | src/figtree/utils.c:60-77 | a subtree becomes a chain of empty nodes of the same height |
| `FigNodes.NodeStore.FtnNew` | src/figtree/figtreenode.c:66-76 | a new node, with a chain of empty nodes below it if asked for, out of unused memory |
| `FigNodes.NodeStore.FtnClear` | src/figtree/figtreenode.c:78-93 | a node becomes empty, with a chain of empty nodes below it if asked for; it is not dirtied |
| `FigNodes.NodeStore.FtnReplaceEntries` | src/figtree/figtreenode.c:146-172 | a run of entries gives way to one, the subtrees strictly inside the run go, the others keep their pointers; the node is dirty |
| `FigNodes.NodeStore.FtnSplit` | src/figtree/figtreenode.c:108-138 | a full node becomes, in place, the node above its two halves |
| `FigNodes.NodeStore.FtnInsert` | src/figtree/figtreenode.c:95-141 | entry and halves go into the node, which is split if it is full; the result says whether, and where each old pointer is afterwards; the node and the halves are dirty |
| `FigNodes.TrackedTransitive` | src/figtree/figtreenode.c:66-171 | a node that is clean was clean before, over any number of operations, and has lost nothing but ends of entries, or everything |
| `FigNodes.AllDirtyKept` | src/figtree/figtreenode.c:66-171 | so a tree in which nothing was ever cleaned is dirty all over |
| `FigAbsorb.SplitLookup` | src/figtree/figtreenode.c:108-138 | splitting a node changes no lookup |
| `FigAbsorb.SplitShape` | src/figtree/figtreenode.c:108-138 | both halves of a split are well formed, one level below the new node |
| `FigAbsorb.AbsorbShape` | src/figtree/figtreenode.c:95-141 | a node that takes what came up to it is well formed, or is a pushed-up node one level higher |
| `FigAbsorb.AbsorbLookup` | src/figtree/figtreenode.c:95-141 | after that, bytes of the gap find what came up, all others what they found before |
| `FigAbsorb.ReplacedShape` | src/figtree/figtreenode.c:146-172 | overwriting a run of entries that overlap the range keeps the node well formed |
| `FigAbsorb.ReplacedLookup` | src/figtree/figtreenode.c:146-172 | it changes no lookup outside the range and the overwritten entries |
| `FigPaths.UpFits` | src/figtree/figtree.c:202-265 | carrying a grown subtree up its path, with all the splits, gives a well-formed tree |
| `FigPaths.UpLookup` | src/figtree/figtree.c:202-265 | it changes lookups for the bytes that reach the end of the path, and for no other byte |
| `FigPaths.LeftPathLeads` | src/figtree/figtree.c:209-281 | path repair: after all the splits, the repaired path leads to the subtree left of the new entry, reached by the same bytes as before |
| `FigWrite.ContShape` | src/figtree/figtree.c:81-265 | a continuation meets no overlap, leaves nothing over and keeps its place well formed |
| `FigWrite.ContLookup` | src/figtree/figtree.c:81-265 | it puts its piece back and changes no lookup of the old contents |
| `FigWrite.BareIns` | src/figtree/figtree.c:81-265 | among empty nodes it does not matter what `valid` says |
| `FigWrite.MainShape` | src/figtree/figtree.c:63-286 | a main insertion keeps the tree well formed, and the places it returns are the gaps that the overwritten pieces have to go back into |
| `FigWrite.MainLookup` | src/figtree/figtree.c:63-286 | after it every byte finds what it should, but for the bytes of the two pieces, which had the values of these pieces |
| `FigCorrect.PieceFits` | src/figtree/figtree.c:306-317 | a continuation, started where the main insertion says, spawns no continuation |
| `FigCorrect.ContinueCorrect` | src/figtree/figtree.c:306-317 | a continuation gives the bytes of its piece their old value back, all other bytes keep theirs |
| `FigCorrect.StillOwes` | src/figtree/figtree.c:306-314 | the right continuation, with all its splits, leaves the left one its place, at the repaired path |
| `FigCorrect.WriteCorrect` | src/figtree/figtree.c:288-318 | after `ft_write` the bytes of the range have the value, all other bytes keep theirs, and the tree is well formed |
| `FigRuns.RunCorrect` | src/figtree/figtree.c:41-318 | over every run from `ft_init`: leaves at one depth, entries sorted and disjoint, at most four, one subtree more, in every node; and each byte maps to its last writer |
| `FigRuns.RunExists` | src/figtree/figtree.c:288-318 | every list of writes to proper ranges is a run |
| `FigHeight.PhiPruned` | src/figtree/figtreenode.c:174-289 | pruning does not raise the potential |
| `FigHeight.PhiReplaced` | src/figtree/figtreenode.c:146-172 | overwriting does not raise the potential |
| `FigHeight.PhiSplit` | src/figtree/figtreenode.c:108-138 | a split sets free as much potential as the level above needs |
| `FigHeight.PotentialWritten` | src/figtree/figtree.c:288-318 | one write raises the potential by at most 2 |
| `FigRuns.RunPotential` | src/figtree/figtree.c:202-265 | over every run the potential is at most twice the number of writes |
| `FigRuns.HeightBound` | src/figtree/figtree.c:290-294 | over every run of W writes 3^(height + 1) <= 4 W + 3 |
| `FigWidth.MainWidth` | src/figtree/figtree.c:102-146 | the 32-bit main insertion computes the intended continuation on a side if and only if that piece does not touch the end of the byte indices there; the right one takes bytes of its own piece for old contents if and only if the piece reaches the last byte index |
| `FigWidth.WrittenWidth` | src/figtree/figtree.c:288-318 | if the intended write leaves no piece at the last byte index, the 32-bit write gives the same tree, node for node; the wrap-around at byte 0 does no harm |
| `FigWidth.RunWidth` | src/figtree/figtree.c:288-318 | over every run off the last byte index the 32-bit trees are the intended ones |
| `FigWidth.RunExists32` | src/figtree/figtree.c:288-318 | every list of writes off the last byte index is a run, with 32-bit indices too |
| `FigSpine.EdgeConts` | src/figtree/figtree.c:81-165 | a continuation whose bounds wrapped around wants a continuation if and only if its piece cuts an entry on the right spine, as seen from the root of its place |
| `FigSpine.EdgeStops` | src/figtree/figtree.c:91-165 | it overwrites entries, and does not get below a leaf, if and only if some entry on that spine reaches the piece |
| `FigSpine.EdgePushes` | src/figtree/figtree.c:186-265 | it splits its way up to its place if and only if all nodes on the spine are full with old entries; then an old entry from before the piece comes up |
| `FigOutcome.EdgeMeetsNothing` | src/figtree/figtree.c:306-311 | the right continuation of a 32-bit write wants no continuation if and only if its piece ends before the last byte index or cuts no entry on the right spine of its place |
| `FigOutcome.OutOfOrder` | src/figtree/figtree.c:202-207 | an old entry that the edge continuation pushes up does not belong where it goes |
| `FigOutcome.LeftPhase` | src/figtree/figtree.c:312-317 | the left continuation ends well if the path arrays lead to its place, and if they still lead to that of the right one, if and only if no split gets up to there |
| `FigOutcome.SplitsFull` | src/figtree/figtree.c:186-265 | a split gets up to the place where an insertion started if and only if every node on its way is full once it is pruned |
| `FigOutcome.EndsIfSafe` | src/figtree/figtree.c:288-318 | a write with 32-bit indices ends well if and only if, when it leaves a piece at the last byte index, the right spine of that place and the way of the left continuation are as they should be; the condition reads only the tree and the range |
| `FigOutcome.EndsCorrect` | src/figtree/figtree.c:288-318 | when it ends well, the bytes of the range have the value, all others keep theirs, and the tree is well formed |
| `FigOutcome.EndsOnce` | src/figtree/figtree.c:288-318 | a write ends with one tree only |
| `FigAgree.IntendedEnds` | src/figtree/figtree.c:288-318 | with unbounded indices every write ends well, with the tree of the specification |
| `FigAgree.EdgeLone` | src/figtree/figtree.c:81-265 | the edge continuation leaves its place like one that keeps no old contents if and only if only its leaf had entries, and these reached the piece |
| `FigAgree.SiblingInjective` | src/figtree/figtree.c:186-265 | after the left continuation, with all its splits, the tree still tells what was put beside it |
| `FigAgree.EndsAsIntended` | src/figtree/figtree.c:288-318 | a 32-bit write ends with the intended tree, node for node, if and only if it ends well and clears the old contents of its place at the last byte index |
| `FigEdge.ArrivesCorrect` | src/figtree/figtree.c:41-318 | over every run of 32-bit writes that all end well, at the last byte index too, each byte maps to its last writer |
| `FigEdge.ArrivesOn` | src/figtree/figtree.c:288-318 | such a run goes on with a write if and only if that one is safe at the edge |
| `FigEdge.ReachesArrives` | src/figtree/figtree.c:288-318 | the runs that leave no piece at the last byte index are among them |
| `FigEdge.EdgeFails` | src/figtree/figtree.c:131-146 | at the last byte index: after six writes, the right continuation of a seventh wants a continuation, with 32-bit indices only |
| `FigEdge.EdgeMisplaces` | src/figtree/figtree.c:246-285 | at the last byte index: after eight writes, in a ninth, the right continuation wants none, but the path is not repaired, and an entry of the left one goes to the wrong side |
| `FigTreeImpl.FigTree.Init` | src/figtree/figtree.c:41-43 | the empty tree in memory |
| `FigTreeImpl.FigTree.ScanRange` | src/figtree/figtree.c:91-95 | the scan stops at the first entry that does not end before the range, and says whether it overlaps |
| `FigTreeImpl.FigTree.MakeConts` | src/figtree/figtree.c:101-146 | ranges, values, `valid` intervals and start pointers of the two continuations |
| `FigTreeImpl.FigTree.OverwriteAt` | src/figtree/figtree.c:95-165 | entries overwritten in place, continuations made, the path arrays extended by the slot the next continuation starts at |
| `FigTreeImpl.FigTree.DescendStep` | src/figtree/figtree.c:82-184 | one node further down: pruned, scanned, and stopped at or passed through |
| `FigTreeImpl.FigTree.Descend` | src/figtree/figtree.c:81-184 | the first loop: down to an overwritten node or below a leaf, and which of the two; the nodes above are as they were |
| `FigTreeImpl.FigTree.InsertAtLevel` | src/figtree/figtree.c:203-207 | the next level up takes what came up, in place |
| `FigTreeImpl.FigTree.RepairLevel` | src/figtree/figtree.c:209-244 | which node and slot the path arrays have for a level after its node took an entry |
| `FigTreeImpl.FigTree.ClimbUp` | src/figtree/figtree.c:186-285 | the second loop, with early stop, root split and path repair: the tree is the specified one, and the arrays lead to the left continuation's place |
| `FigTreeImpl.FigTree.PushRoot` | src/figtree/figtree.c:264-281 | after a root split, the arrays start at the new root and lead to the same place |
| `FigRepair.RepairStep` | src/figtree/figtree.c:209-244 | if the arrays are right from one level down, they are right from this level down |
| `FigRepair.FinishBelow` | src/figtree/figtree.c:246-257 | if the climb stops below the shared part, only the last shared index has to be decremented |
| `FigTreeImpl.FigTree.FtInsert` | src/figtree/figtree.c:63-286 | `_ft_insert` in place: result tree, continuations with their start pointers, and what the path arrays hold afterwards |
| `FigTreeImpl.FigTree.ContinueRight` | src/figtree/figtree.c:306-311 | the right continuation in place: afterwards the path arrays lead to the place of the left one, unless it has overwritten entries, in which case they still lead to its own |
| `FigTreeImpl.FigTree.ContinueLeft` | src/figtree/figtree.c:312-317 | the left continuation in place, also with path arrays whose last index was not moved, if no split gets that far |
| `FigTreeImpl.FigTree.FtWrite` | src/figtree/figtree.c:288-318 | `ft_write` in place, with arrays of height + 2 slots: whenever the write can end well, at the last byte index too, this code ends it, with the tree in memory that it should end with, no node reached twice, nothing touched but nodes of the tree, and everything dirty that it added or changed; the root of a tree of one node is dirtied |
| `FigScan.FigsListed` | src/figtree/figtree.c:367-558 | what is to be yielded is in ascending order, disjoint, and inside the interval |
| `FigScan.FigsAreLookups` | src/figtree/figtree.c:367-558 | a byte of the interval has a value there if and only if a lookup finds that value: nothing stale, nothing missing |
| `FigIterImpl.FigIter.FtRead` | src/figtree/figtree.c:367-423 | a new iterator has exactly these mappings left, on a stack of height + 2 states |
| `FigIterImpl.FigIter.Seek` | src/figtree/figtree.c:385-414 | the way down to `start` loses nothing and brings in nothing |
| `FigIterImpl.FigIter.Backtrack` | src/figtree/figtree.c:415-420 | popping finished nodes loses nothing, and ends at an entry to yield or at the end |
| `FigIterImpl.FigIter.Drill` | src/figtree/figtree.c:486-533 | the way down into a gap loses nothing and brings in nothing; its bounds do not wrap around |
| `FigIterImpl.FigIter.FtiNext` | src/figtree/figtree.c:433-558 | the first remaining mapping is returned and the rest remain; none is returned if and only if none remain |
| `FigCheckpoint.GetDirtyHelper` | src/figtree/utils.c:79-120 | every node of a dirty subtree is appended once, children first; the pointers of the copies lead to the copies; the tree in memory stays, with all nodes clean |
| `FigCheckpoint.GetDirty` | src/figtree/utils.c:122-134 | a tree that is dirty all over is written whole; one with a clean root gives nothing, which is so after any checkpoint |
| `FigCheckpoint.NeverCheckpointed` | src/figtree/figtreenode.c:66-76 | a tree none of whose nodes was ever cleaned is dirty all over |
| `FigCheckpoint.NewValueDirty` | src/figtree/figtree.c:288-318 | after writes, a value that no node had before is found in a dirty node |
| `FigCheckpoint.OneNodeDirty` | src/figtree/figtreenode.c:95-171 | after a write to a tree of one node all nodes are dirty, also if it was split and whatever was clean before |
| `FigCheckpoint.WriteBetween` | src/figtree/utils.c:122-134 | checkpoint, write, checkpoint, on a tree of one node: the second one has the whole new tree |
| `FigCheckpoint.FootCount` | src/figtree/utils.c:79-120 | there are as many nodes in memory as are counted for the record |
| `FigCheckpoint.EmittedSub` | src/figtree/utils.c:86-117 | a subtree lies in the record before its parent, where the parent's pointer says |
| `FigCheckpoint.LoadedIsTree` | src/figtree/utils.c:136-168 | following the pointers from the last node of the record ends, and gives the tree that was written |
| `FigCheckpoint.StoredLookup` | src/gdpfs_file.c:478-491 | a lookup in a tree that was opened from its checkpoint finds what it found in the written tree |
| `FileLog.FlatSnoc` | src/gdpfs_file.c:1003-1098 | a record at the end of the log does to the file what a write does to a flat array if and only if nothing but zeros was recorded between its end and the offset |
| `FileLog.FlatInfo` | src/gdpfs_file.c:1101-1140 | a record without data cuts the file off, or makes it longer, by zeros if and only if nothing else was recorded there |
| `FileLog.NoRecordBehind` | src/gdpfs_file.c:1090-1097 | no record covers a byte behind the end of a file that was never truncated |
| `FileLog.BlankBehind` | src/gdpfs_file.c:1090-1097 | so nothing comes back in such a file |
| `FileLog.CutComesBack` | src/gdpfs_file.c:1101-1115 | what is written, then cut off, comes back with the next write behind it |
| `FileLog.LastWriterIsRecord` | src/gdpfs_file.c:506-515 | in the run of index writes that a log stands for, the last writer of a byte is the last record with data that covers it |
| `FileLog.IndexedBytes` | src/gdpfs_file.c:438-533 | the index has for every byte the number of that record, or nothing |
| `GdpfsFile.NextWrite` | src/gdpfs_file.c:1060-1063 | the next record can be written to the 32-bit index, and any tree that the write ends with stands for the longer log |
| `GdpfsFile.File.Create` | src/gdpfs_file.c:403-436 | a new file is empty, and its log has one record, which is number 1 |
| `GdpfsFile.File.Open` | src/gdpfs_file.c:438-533 | opening a log without a checkpoint gives the file that the log stands for |
| `GdpfsFile.File.Replay` | src/gdpfs_file.c:447-531 | collecting backwards and writing forwards builds the index of the log, for logs of any length |
| `GdpfsFile.File.DoWrite` | src/gdpfs_file.c:1003-1079 | the record is appended under the number that went into the index |
| `GdpfsFile.File.Write` | src/gdpfs_file.c:1082-1098 | one record is appended; the bytes of the file afterwards; it is the flat array overlaid with the bytes, with zeros for a gap, if and only if nothing else was recorded in the gap, as in every file that was never truncated |
| `GdpfsFile.File.SetInfo` | src/gdpfs_file.c:1118-1140 | the file is cut off at the new size, or made longer, by zeros if and only if nothing else was recorded there |
| `GdpfsFile.File.Ftruncate` | src/gdpfs_file.c:1101-1115 | the file is empty afterwards, so it is what was asked for if and only if size 0 was |
| `GdpfsFile.File.FigRecord` | src/gdpfs_file.c:914-937 | a mapping names a record that has all its bytes, and these are the ones last written |
| `GdpfsFile.File.CopyFig` | src/gdpfs_file.c:922-939 | the bytes of one mapping are fetched from its record, within bounds |
| `GdpfsFile.File.Read` | src/gdpfs_file.c:866-975 | the buffer gets exactly the slice of the flat array, clipped to the size of the file, and nothing else in it changes |
| `BitmapFile.SetRange` | src/bitmap_file.c:68-143 | exactly the numbers of the range are added to the set, across bytes, chunks, holes and the end of the file |
| `BitmapFile.IsSet` | src/bitmap_file.c:146-217 | the answer is true if and only if the range is not empty and lies in the set |
| `BitmapFile.MaskAtBits` | src/bitmap_file.c:95-96 | the masks select exactly the bits of the range in a byte, from the most significant one |
| `GdpfsCache.CachedFile.FillCache` | src/gdpfs_file.c:1242-1289 | bytes go into the cache file and are marked |
| `GdpfsCache.CachedFile.GetCache` | src/gdpfs_file.c:1291-1352 | a hit returns the bytes of the file; when there is one, in the bitmap variant and with the shortcut for new files |
| `GdpfsCache.CachedFile.Read` | src/gdpfs_file.c:866-975 | with the cache on, hit or miss, the slice of the flat array; on a miss exactly these bytes are put into the cache and marked, so that the same read is a hit afterwards; every byte that is marked is still the one of the file |
| `GdpfsCache.CachedFile.ReadMiss` | src/gdpfs_file.c:900-970 | on a miss the bytes come from the log and go into the cache |
| `GdpfsCache.CachedFile.Write` | src/gdpfs_file.c:1049-1063 | the overlaid flat array; exactly the bytes written are added to the cache and marked, and every byte that is marked is the one of the new file |
| `GdpfsCache.CachedFile.Open` | src/gdpfs_file.c:325-531 | replay adds exactly the bytes that the log has to the cache, empty or left over, keeps all others, and every byte that is marked is the one of the file |
| `GdpfsCache.LeftOverUsable` | src/gdpfs_file.c:346-350 | a cache that was right for a log is usable for every longer one |
| `GdpfsDir.NameRoundTrip` | src/gdpfs_dir.c:412-421 | a name comes back from its slot if and only if it has at most 255 bytes; otherwise its first 255 bytes do |
| `GdpfsDir.TooLong` | src/gdpfs_dir.c:383-392 | a name of more than 255 bytes is not found in any directory |
| `GdpfsDir.SlotRoundTrip` | src/gdpfs_dir.c:43-49 | a slot comes back from its bytes |
| `GdpfsDir.Dir.FindInsertOffset` | src/gdpfs_dir.c:369-409 | the first live slot of the name if there is one, otherwise the first free one, or the end |
| `GdpfsDir.Dir.AddAtOffset` | src/gdpfs_dir.c:412-431 | the file has the new slot, with the name cut off at 255 bytes; what this does to the names, their uniqueness and to names that are too long is the predicate `Added` |
| `GdpfsDir.Dir.Add` | src/gdpfs_dir.c:200-250 | a name that is there stays; any other is added, and no other name changes; a name that is too long is never there, and makes names ambiguous if and only if its beginning was one; the number of slots is the largest number of names ever live at once |
| `GdpfsDir.Dir.Replace` | src/gdpfs_dir.c:257-331 | the name gets the new log, whether it was there or not, and no other name changes; too long a name is added instead |
| `GdpfsDir.Dir.Remove` | src/gdpfs_dir.c:433-489 | the first live slot of the name goes out of use; no other name changes, and if names are unique the name goes; the status is OK even if the name was not there |
| `GdpfsDir.Dir.DirRead` | src/gdpfs_dir.c:496-517 | from any offset on: the first slot in use, the end, or a slot that is cut short |
| `GdpfsDir.NextIsLive` | src/gdpfs_dir.c:496-517 | from the offset of a slot on, that is the next live name and the offset behind it, or the end |
| `GdpfsDir.Dir.Scan` | src/gdpfs_dir.c:496-517 | a scan from 0 gives the names of the live slots, in order |
| `GdpfsDir.ScanListsAll` | src/gdpfs_dir.c:496-517 | these are all the names in the map, none of them twice |
| `GdpfsDir.Dir.IsEmpty` | src/gdpfs_dir.c:519-534 | the answer is true if and only if no name is in the map |
| `GdpfsDir.PutFinds` | src/gdpfs_dir.c:412-431 | writing a name to its own slot or to a free one is a map update |
| `GdpfsDir.PutUnique` | src/gdpfs_dir.c:412-431 | writing a slot keeps names unique if and only if the name had no slot before, or this one |
| `GdpfsDir.PutHas` | src/gdpfs_dir.c:412-431 | a name that had no slot before, or whose first slot is written, stands for what is written, also if names are not unique |
| `GdpfsDir.RemoveFinds` | src/gdpfs_dir.c:479-480 | taking a slot out of use changes no other name, and is a map removal if names are unique |
| `ListMerge.MergeSorted` | src/list.c:406-430 | merging sorted runs gives a sorted run |
| `ListMerge.MergeStable` | src/list.c:406-430 | elements of equal rank keep their order, those of the first run first |
| `ListMerge.PassMerge` | src/list.c:452-467 | one iteration of a pass keeps the count: at most as many runs as put out, out of at least twice as many |
| `ListImpl.ListSplice` | src/list.c:213-236 | the elements are moved before another one, the links are consistent both ways |
| `ListImpl.FindEndOfRun` | src/list.c:385-402 | the longest run from an element on |
| `ListImpl.InplaceMerge` | src/list.c:406-430 | relinking gives the merge of the two runs in their place |
| `ListImpl.PassSorted` | src/list.c:444-469 | after a pass with one run the list is sorted, after any other it has fewer runs |
| `ListImpl.List.Pass` | src/list.c:452-467 | one pass over the linked list does what a pass should |
| `ListImpl.List.Sort` | src/list.c:431-472 | `list_sort` ends with the same elements, in ascending order of rank, equal ones in their old order, and consistently linked |
| `ListImpl.List.Insert` | src/list.c:198-211 | the element is linked in at that place |
| `ListImpl.List.Remove` | src/list.c:280-288 | the element is taken out; the one that followed it is returned |
| `ListImpl.List.PushFront` | src/list.c:238-245 | the element becomes the first one |
| `ListImpl.List.PopBack` | src/list.c:300-307 | the last element is taken out and returned |
| `PrecreatedRing.EmptyFull` | src/gdpfs_log.c:106-131 | the index tests for empty and full mean what they say |
| `PrecreatedRing.FillingIsApart` | src/gdpfs_log.c:112 | the slot that is filled without the mutex is none that can be read |
| `PrecreatedRing.TakesOldest` | src/gdpfs_log.c:134-135 | a consumer takes the oldest log |
| `PrecreatedRing.TakesInv` | src/gdpfs_log.c:129-137 | the one signal after a take reaches the producer if that one sleeps |
| `PrecreatedRing.PublishesInv` | src/gdpfs_log.c:114-118 | the broadcast reaches every sleeping consumer |
| `PrecreatedRing.RunSafe` | src/gdpfs_log.c:101-139 | over every run with two slots or more: first in, first out, each log to exactly one consumer, no reader of the slot being filled, nobody asleep without reason and without notice |
| `PrecreatedRing.Publishes` | src/gdpfs_log.c:101-122 | from every reachable state in which the ring is not full the producer alone gets to publish a log of any name, which wakes the sleeping consumers if the ring was empty |
| `PrecreatedRing.TwoTurns` | src/gdpfs_log.c:101-122 | in every run, two turns of the producer publish a log, unless it finds the ring full |
| `PrecreatedRing.Served` | src/gdpfs_log.c:101-139 | from every reachable state some steps lead to the end of any call, with the oldest log there is or a new one |
| `PrecreatedRing.Produces` | src/gdpfs_log.c:101-139 | from every reachable state, a full ring too, a log of any name can be published |
| `PrecreatedRing.RunTakes` | src/gdpfs_log.c:101-139 | for any number of slots from two on and any list of names there is a run that hands out logs of these names |
| `PrecreatedRing.TwoSlotsNeeded` | src/gdpfs_log.c:101-139 | a run can end with the producer and a consumer asleep for good if and only if there are fewer than two slots |
| `FileTable.Unused` | src/gdpfs_file.c:729-758 | a count is 0 if and only if no handle, append or checkpoint is for the file |
| `FileTable.Freed` | src/gdpfs_file.c:636-655 | a file that nothing refers to can be taken away without harm to the others |
| `FileTable.OrphanedDropped` | src/gdpfs_file.c:217-242 | dropping a reference makes a file an orphan if and only if it was the last one of another file, this one has to make room, and it has nothing to checkpoint and no checkpoint on its way |
| `FileTable.LeadsOrphans` | src/gdpfs_file.c:217-656 | which files are orphans after any event |
| `FileTable.LeadsOnce` | src/gdpfs_file.c:217-656 | any event leads to one state only: its effect on handles, appends, checkpoints, list, hash and dirty roots says what all counts and flags are |
| `FileTable.OrphanStays` | src/gdpfs_file.c:217-656 | over every sequence of states in which each event leads to the next one, an orphan whose name is not opened stays |
| `FileTable.Table.InUse` | src/gdpfs_file.c:217-253 | a file with a handle or an append in flight is not on the list |
| `FileTable.Table.Open` | src/gdpfs_file.c:282-386 | the file in the table or a new one gets the handle; a recently closed one comes off the list; this, and only this, takes a file out of the orphans |
| `FileTable.Table.Revive` | src/gdpfs_file.c:244-253 | the file comes off the list, the others keep their order |
| `FileTable.Table.Append` | src/gdpfs_file.c:1041-1047 | an append in flight holds a reference; orphans stay as they are |
| `FileTable.Table.Close` | src/gdpfs_file.c:589-602 | the handle goes; with the last reference the file goes to the front of the list; which files are orphans afterwards |
| `FileTable.Table.Acknowledge` | src/gdpfs_file.c:983-999 | the append is no longer in flight; with the last reference the file goes to the front of the list; which files are orphans afterwards |
| `FileTable.Table.Insert` | src/gdpfs_file.c:217-242 | the list never has more than 256 files; the one that has to go is checkpointed if its root is dirty |
| `FileTable.Table.Evict` | src/gdpfs_file.c:714-726 | a file that has to go has no append in flight and is not freed yet; it is an orphan if and only if its root is clean and no checkpoint of it is on its way |
| `FileTable.Table.CheckpointFinish` | src/gdpfs_file.c:604-656 | the file is freed if and only if this was its last checkpoint in flight and no handle, append or place on the list is left; orphans are never freed |
| `FileTable.Table.Step` | src/gdpfs_file.c:217-656 | the handlers lead to the state that the event leads to, and do nothing if it cannot happen |
| `FileTable.Table.Run` | src/gdpfs_file.c:217-656 | over every run of opens, appends, closes, acknowledgements and checkpoints each event leads from one state to the next; an orphan whose name is not opened stays in memory and in the table |
| `FileTable.ReadAll` | src/gdpfs_file.c:217-242 | n files opened, read and closed: all but the last 256 are orphans |

## Left out

- Incremental checkpoints, and writes to trees that are partly in the log: a loaded subtree is not kept, and a write marks only the nodes it touches as dirty.
- Opening a log that has a checkpoint and records behind it, for the same reason; and the record number that is used up when a checkpoint turns out empty.
- The record number that `open_file` takes from an empty log: it comes from a failed read of the log library, which is not part of this model; the model takes 0.
- Files that reach the last byte index (4294967295) or beyond it: byte indices of the tree have 32 bits, and offsets are cut off to them.
- Freeing of tree nodes (`ftn_free`, `mem_free`): nodes that are no longer reached stay in the memory map.
- Dafny objects for tree nodes: nodes are records in an explicit memory map, which is where update in place and absence of aliasing are proved; the capacity of the arrays inside a node shows in the bounds on the lengths of sequences, the tree node itself has no array of five entries.
- FigNodes.NodeStore.PerformDeletes: is stated for marks that leave one block of entries and subtrees, which are the only ones that the scans before it make.
- FigNodes.NodeStore.SubtreeClear: does not model the branch for a subtree that lies in the log.
- FigTreeImpl.FigTree.FtWrite: asks that the write can end well, which is so unless it leaves a piece at the last byte index (`FigOutcome.EndsIfSafe`); what the code makes of the tree when it cannot is not modelled.
- GdpfsFile.File.DoWrite: sizes and offsets stay below the last byte index; appending to the log succeeds and gives the next number; file type and permissions in the records are not modelled.
- GdpfsFile.File.Write: does not model writes that touch the last byte index or lie beyond it.
- GdpfsCache.CachedFile.Write: does not model writes that touch the last byte index or lie beyond it, nor files that were truncated: their cache keeps what was cut off.
- GdpfsDir.Dir.Add: asks for room in the file.
- GdpfsDir.Dir.Replace: the checks that old and new file are of the same type, and that a directory that is replaced is empty, come before and are not modelled; nor is the resolution of paths.
- GdpfsDir.Dir.Remove: models removal of a file of unknown type, without the checks of type and emptiness.
- GdpfsCache.CachedFile.GetCache: models the variant with a bitmap; the default variant asks the file system for holes, block by block.
- BitmapFile.SetRange: input and output succeed; reads come short at the end of the file only.
- FileTable.Table.Close: a handler is one step; races inside handlers, and failures of the log, are not modelled. Of an index the table knows only whether its root is dirty; whether the index of a new file starts dirty, and whether a write touches the root, are parameters of `Open` and `Append`.
- `bitmap_file_get_range`, the handle bitmap, `list_reverse`, `list_unique`, `list_insert_ordered` and the like would only add easy members.
- FUSE handlers, `main.c`, the GDP and libep libraries, log caching on disk, shutdown.
