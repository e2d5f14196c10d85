# The OpenBeOS file system, modelled and proved in Dafny

This project models the hard parts of the BFS implementation in `BeFS/source` and two small
algorithms of the same repository, and proves what they promise. Check it with
`dafny verify dfyconfig.toml`.

- **Journal**: a write-ahead log in a circular area. `LogRing`, `Overlay` and
  `LogEntryFormat` give positions, block writes and the format of an entry; `JournalState`
  the steps and the invariant; `JournalSafety` and `JournalRuns` the proofs for every run;
  `Journal` the object with its loops; `JournalDeviations` what the code does that differs
  from the design.
- **B+tree**: nodes addressed by offset. `TreeNode` and `TreeShape` give nodes and search
  trees, `TreeChange`, `TreeSplit` and `TreeInsert` the changes, `TreeRoom` when a full node
  can be split, `BTree` the object that agrees with a map, `TreeIteration` the walk along
  the leaves, `PlainIteration` the values it returns, `PackedNode` a node as it is packed
  into its block.
- **Duplicates**: `Words`, `Links`, `SortedArrays` and `DuplicateLists` give the words,
  `DuplicateOwners` and `DuplicateSteps` who owns which slot and node, `DuplicateTree` the
  object that agrees with a multimap, `DuplicateIteration` the walk over all values.
- **Inode data stream**: `BlockRuns` and `StreamShape` give runs and streams,
  `StreamLookup` and `StreamDouble` the search for a position, `StreamAccess`,
  `StreamChange`, `StreamBlocks` and `StreamGrowth` reading, writing, cutting and growing,
  `InodeStream` the object.
- **Block allocator**: `BlockBitmap`, `BlockGroups`, `BlockAllocator`; `VolumeBlocks` is
  what a stream sees of it.
- **Queries**: `QueryTerms` (meaning, complement, scores, matching), `QueryPlan`,
  `QuerySearch` (the search along the plan), `QueryParser`, `QueryTexts` and
  `QueryGrammar` (what it accepts), `QueryPatterns`, `QueryCrash` (when it fails).
- **Argument scanning**: `OptionExchange`, `OptionScan`, `OptionPieces` (what a run gives). **Copied files**: `CopiedFiles`.
  **Locks**: `Locks` with the modules `Benaphore` and `TicketLock`.

What the model takes from outside:

- The block cache: blocks of a transaction are locked until their entry is written, the
  versions of one block reach their home in order, and each flush is notified once. Which
  block is flushed when is free.
- The allocator of a stream is a list of runs it will offer; any allocator is some list,
  and `VolumeBlocks` shows that the block allocator is.
- Keys of a tree are compared by an order on numbers. Attribute values, findings about
  them and scores of equations are parameters of a query.
- A node that is allocated again holds any words. The word behind a node is a parameter,
  and so are the words that a value taken for a link leads to.

Where the code departs from its evident design, the theorems about all runs are about the
design, and the code has an exact condition of its own:

- Journal.cpp:115 wraps with `>`: runs replay with the writer's modulus;
  `ReaderFollowsWriter` and `ArrayOverEndMisread` say when and how the code differs.
- Journal.cpp:232 lets an entry fill the log: runs write entries that leave a block free;
  `FullLogLooksEmpty` is the condition for the code.
- Journal.cpp:282-302 can be notified before log_end moves: writing an entry is one step in
  a run; `WrapLeavesStartBehind` is the condition for the code.
- BPlusTree.cpp:843-866 counts bytes at a split so that long keys can make the new node too
  large or leave the old one empty: `SplitExact` is the condition for one node, `RoomFor`
  for an insertion, `LongKeysOverrun` and `LongKeysEmptyTheNode` are examples.
- BPlusTree.cpp:1429-1433 refuses to remove a key whose value looks like a link from a tree
  without duplicates: the plain map of `Run` does so too, and `RemovalAfterInsertion` is
  the condition.
- BPlusTree.cpp:1769-1798 follows a negative value as a link in such a tree, too: `Walk`
  has the condition, -1 is an example (`MinusOneFails`).
- Utility.cpp:24 compares two values by a difference that wraps around: `FindsExactly` is
  the condition for one search, `SearchesRightExactly` and `InsertsRightExactly` those for
  a range of values, `OneMissed` and `OneStays` are examples. Block numbers in the journal
  are never that far apart.
- BPlusTree.cpp:1739-1741 counts the keys of the last leaf at the end of a walk, whichever
  leaf the iterator is at: `GetNextEntry` says when a further call stays at the end.
- Query.cpp:1091-1099 may look at one side of `||` only: `MatchExactly` and `PlanExactly`
  are the conditions.
- Query.cpp:1443-1446 ends a query at the first equation that cannot be prepared:
  `SearchExactly` is the condition, `ValueNotInIndex` an example.
- Query.cpp:1294-1295 takes the complement of a term that may not be there, and
  Query.cpp:603-606 goes on behind a backslash at the end of the text: `CrashesExactly` is
  the condition for both.
- Inode.cpp:894 multiplies in 32 bits: `DoubleOffsetRight` is the condition.
- Inode.cpp:1384-1456 gives up a run it has allocated: `Place` has the condition,
  `LoseBlock` is an example.
- BlockAllocator.cpp:247 shifts the loop bound by two bits so that groups of less than four
  blocks are not scanned; `FullSummary` is the condition.
- Utility.cpp:66 moves one word too many; `RemoveValue` asks for that word to exist.

## Model

| member | source | states |
|---|---|---|
| JournalRuns.CrashSafety | BeFS/source/Journal.cpp:129-305 | In every state of every run of logging, writing entries, flushing blocks in any order the cache allows, crashing between any two writes and replaying: replaying the log found on the disk, with any number of further crashes on the way, gives a volume if and only if it is the one an account of the steps names: the first volume, and on it, for each entry written, the first contents each block was logged with or those it was modified to last, without the transactions a crash has dropped. |
| JournalRuns.CrashSafetyWhileWriting | BeFS/source/Journal.cpp:240-305 | The same for a crash between any two block writes of an entry, when log_end has not moved: the volume is the one without the transaction. |
| JournalRuns.CommittedIsBooked | BeFS/source/Journal.cpp:218-305 | In every run the committed volume and the contents under the running transaction are those of that account, which knows nothing of the log. |
| JournalRuns.TornInv | BeFS/source/Journal.cpp:240-266 | The first blocks of an entry in the log, with the pointers as they were, keep the whole invariant. |
| JournalRuns.RunPointersExact | BeFS/source/Journal.cpp:171-215 | In every state of every run log_start is the start of the oldest live entry, or log_end if none is live; fUsed is the sum of the live lengths and fits beside the free blocks, also when entries complete out of order. |
| JournalRuns.ReplayAppliesLog | BeFS/source/Journal.cpp:129-162 | Replaying applies the writes of all entries between the pointers in order; the result exists and is the only one. |
| JournalRuns.ReplayInterrupted | BeFS/source/Journal.cpp:129-162 | A replay that is cut off after any number of block writes, and begun again, and cut off again, any number of times, restores at last what one replay restores, and nothing else. |
| JournalRuns.CutReplayIs | BeFS/source/Journal.cpp:60-162 | What a replay has done after a number of block writes are exactly the first so many writes of the log, wherever in an entry that is. |
| JournalRuns.RecoveryRestores | BeFS/source/Journal.cpp:129-162 | From the invariant of a state: a replay, cut off as often as may be, restores exactly the committed volume. |
| JournalRuns.ReplayRestores | BeFS/source/Journal.cpp:129-162 | From the invariant of a state: replay restores exactly the committed volume. |
| JournalRuns.NextKeeps | BeFS/source/Journal.cpp:171-305 | Every step keeps the invariant, with the committed volume changing only when an entry is written. |
| JournalRuns.EntriesDisjoint | BeFS/source/Journal.cpp:218-305 | Two entries of the log never share a log block, however they wrap around. |
| JournalRuns.FreeBlocksUnused | BeFS/source/Journal.h:86-92 | No entry uses a log block that FreeLogBlocks counts as free, so that a new entry overwrites none. |
| JournalRuns.ShortEntriesReadable | BeFS/source/Journal.cpp:114-116 | Entries whose array fits into one block are read back even by the reader's own wrap test. |
| JournalSafety.WriteKeeps | BeFS/source/Journal.cpp:218-305 | Writing a log entry keeps the whole invariant: the new entry is stored behind the others, is listed as live with all its blocks pending, and the committed volume gains the transaction. |
| JournalSafety.FlushKeeps | BeFS/source/Journal.cpp:171-215 | Flushing one block and the notification it causes keep the invariant, for a block of any live entry. |
| JournalSafety.LiveAfterFlush | BeFS/source/Journal.cpp:171-203 | The list after a notification is the list of the entries that still wait for blocks, each with the exact number of blocks. |
| JournalSafety.NotifyMovesStart | BeFS/source/Journal.cpp:186-196 | When the head of the list completes, log_start moves to the next live entry or to log_end, past entries that completed before. |
| JournalSafety.FreeIsRest | BeFS/source/Journal.h:86-92 | The pointer arithmetic of FreeLogBlocks gives exactly the log blocks not taken by the entries. |
| JournalSafety.LogBlockKeeps | BeFS/source/Journal.cpp:386-403 | Putting a block under a transaction keeps the invariant. |
| LogEntryFormat.DecodeEncoded | BeFS/source/Journal.cpp:60-119 | Round trip: an entry written at any wrap position, with any number of blocks, is read back as exactly the logged pairs of block number and contents. |
| LogEntryFormat.RoundedUp | BeFS/source/Utility.h:54-55 | The rounded quotient used by reader and writer is the number of blocks that the count word and the block numbers need. |
| LogEntryFormat.ReaderFollowsWriter | BeFS/source/Journal.cpp:114-116 | The reader's wrap test (with `>`) visits the blocks the writer used if and only if the array does not reach past the end of the log. |
| LogEntryFormat.PutKeepsEntry | BeFS/source/Journal.cpp:240-266 | Writing an entry leaves every other stored entry as it was. |
| JournalDeviations.FullLogLooksEmpty | BeFS/source/Journal.cpp:228-238 | After an entry was written start and end are equal if and only if the entry took all free blocks, which the space test allows. |
| JournalDeviations.FullLogReplaysNothing | BeFS/source/Journal.cpp:136-140 | Such a log replays nothing: the result is the home blocks as they are. |
| JournalDeviations.FullLogLosesTransaction | BeFS/source/Journal.cpp:228-238 | A concrete log of two blocks in which the transaction is lost that way. |
| JournalDeviations.ArrayOverEndMisread | BeFS/source/Journal.cpp:114-116 | For every entry whose array runs over the end of the log: the reader as coded takes the block number from behind the log and restores the logged block there. |
| JournalDeviations.WrapLeavesStartBehind | BeFS/source/Journal.cpp:285-304 | With the notifications of FlushDevice arriving before log_end moves, the pointers are exact after an entry if and only if it did not reach the end of the log. |
| JournalDeviations.WrappedEntry | BeFS/source/Journal.cpp:285-304 | A concrete journal of four log blocks whose start pointer is left behind that way. |
| JournalDeviations.StaleStartStays | BeFS/source/Journal.cpp:186-196 | A completed head moves log_start to the next entry if and only if log_start was at the head. |
| JournalDeviations.FlushAllEndsAtEnd | BeFS/source/Journal.cpp:171-215 | Flushing all pending blocks, oldest first, ends with an empty list and log_start at log_end. |
| Journal.Journal.WriteLogEntry | BeFS/source/Journal.cpp:218-305 | The method, loop by loop, does the step WriteEntry, refuses with BadData exactly when the entry does not fit, and does nothing without blocks. |
| Journal.Journal.TransactionDone | BeFS/source/Journal.cpp:364-383 | A small transaction stays in the batch and changes nothing on the disk; a batch that reached the maximum is written as one entry; BadData exactly when that does not fit. |
| Journal.MaxTransactionSizeIs | BeFS/source/Journal.cpp:22-27 | The maximum is a quarter of the log less five from twenty blocks on, half of it less five from ten on, and wraps around to no bound in a shorter log. |
| Journal.Journal.LogBlocks | BeFS/source/Journal.cpp:386-411 | On success the numbers are the old ones and the range, strictly ascending; a block that is new to the transaction holds its buffer; every other keeps what it held. DeviceFull exactly when they could exceed the log, with nothing changed. |
| Journal.Journal.WriteArray | BeFS/source/Journal.cpp:245-254 | The first loop stores the count and the block numbers, block by block, around the end of the log. |
| Journal.Journal.WriteContents | BeFS/source/Journal.cpp:256-266 | The second loop stores the contents behind them; together the whole entry stands in the log and nothing else changed. |
| Journal.Journal.BlockNotify | BeFS/source/Journal.cpp:171-215 | The callback does the step Notify: counts down, moves log_start, removes the entry from the list. |
| Journal.Journal.FlushOne | BeFS/source/Journal.cpp:165-215 | A block flushed to its home followed by its notification is the step FlushBlock. |
| Journal.Journal.ReplayLogEntry | BeFS/source/Journal.cpp:60-119 | Restores exactly what Decode reads and advances by the size of the entry; BadData exactly if the count is out of range, with nothing restored. |
| Journal.Journal.RestoreBlocks | BeFS/source/Journal.cpp:70-117 | The loop over the array blocks restores every pair of the entry. |
| Journal.Journal.ReplayLog | BeFS/source/Journal.cpp:129-162 | From any state of the invariant whose entries are readable: the home blocks become the committed volume and the log is empty. |
| Journal.Journal.BlocksUsed | BeFS/source/Utility.h:54-55 | The computed number is the number of array blocks of the format. |
| Overlay.ApplyPrefixAgain | BeFS/source/Journal.cpp:129-162 | Writing a prefix of the writes and then all of them is the same as writing all of them. |
| LogRing.PutStored | BeFS/source/Journal.cpp:240-266 | Blocks written around the end of the log stand where they should. |
| LogRing.SlotIsRemainder | BeFS/source/Journal.cpp:243-252 | The recursive position in the log is the remainder used in the code. |
| SortedArrays.FindInternal | BeFS/source/Utility.cpp:16-33 | The loop, with its difference that wraps around, does the search whose answers the next rows are about, whatever order the values are in. |
| SortedArrays.FindsExactly | BeFS/source/Utility.cpp:16-33 | In an array in order a value is found if and only if it is there and every value the search has to look at is less than 2^63 away from it. |
| SortedArrays.NearFinds | BeFS/source/Utility.cpp:16-33 | If all values are that near, the search says whether the value is there, and otherwise ends beside its place. |
| SortedArrays.SearchesRightExactly | BeFS/source/Utility.cpp:16-33 | All searches in all arrays between two bounds are right if and only if the bounds are less than 2^63 apart. |
| SortedArrays.InsertsRightExactly | BeFS/source/Utility.cpp:36-56 | All insertions into all such arrays keep the order under the same condition. |
| SortedArrays.OneMissed | BeFS/source/Utility.cpp:24-24 | The value 1 is not found behind the smallest word. |
| SortedArrays.FindPlace | BeFS/source/Utility.cpp:36-51 | The binary search with its correction in longer arrays and the scan in short ones give the place of the model. |
| SortedArrays.InsertIndexRight | BeFS/source/Utility.cpp:36-51 | In arrays of up to eight values, and if all values are near, that is the place in order. |
| SortedArrays.InsertValue | BeFS/source/Utility.cpp:36-56 | In place, with an overlapping move: the words are those with the value inserted at its place, and no other word changes. |
| SortedArrays.InsertedIs | BeFS/source/Utility.cpp:53-56 | The array has exactly this value more, wherever the search led. |
| SortedArrays.RemoveValue | BeFS/source/Utility.cpp:59-70 | In place: exactly one occurrence goes if the search finds the value, or nothing changes; the word too many that is moved has to exist. |
| SortedArrays.SortedInsertKeeps | BeFS/source/Utility.cpp:36-56 | Insertion keeps the order and adds exactly one value. |
| SortedArrays.InsertAnywhere | BeFS/source/Utility.cpp:43-51 | Among equal values the place does not matter. |
| Memory.Move | BeFS/source/Utility.cpp:53-66 | The overlapping move copies every word as it was before, in both directions. |
| TreeNode.FindKey | BeFS/source/BPlusTree.cpp:504-565 | Binary search in a node: found if and only if the key is there, with its index, or the index of the next greater key and the child to go on with. |
| TreeNode.SplitPoint | BeFS/source/BPlusTree.cpp:843-866 | The loop with its running byte counts finds the first place at which, as counted, half a node is reached. |
| TreeNode.LastSplitPoint | BeFS/source/BPlusTree.cpp:843-866 | The new node takes all keys only if the new key goes behind all others and the node is full with it. |
| TreeNode.LeftExact | BeFS/source/BPlusTree.cpp:843-940 | For keys of any length: the new node fits its block if and only if it does not get the new key or the size counted for it is not too large. |
| TreeNode.RightAlways | BeFS/source/BPlusTree.cpp:940-1025 | The part that stays fits its block for all keys of up to 256 bytes. |
| TreeInsert.SplitExact | BeFS/source/BPlusTree.cpp:824-1042 | For all keys of 1 to 256 bytes: a split leaves two nodes that fit, and a separator that keeps the parent in order, if and only if the new node is not counted too large and does not take all keys, or takes those of a leaf whose bound is another key than the new one. |
| TreeNode.ShortKeysSplitProperly | BeFS/source/BPlusTree.cpp:843-866 | With keys of at most 248 bytes every split is proper. |
| TreeNode.LongKeysEmptyTheNode | BeFS/source/BPlusTree.cpp:843-866 | Keys of 226, 226 and 256 bytes and a new one of 256: the split leaves the old node empty. |
| TreeNode.LongKeysOverrun | BeFS/source/BPlusTree.cpp:843-940 | Keys of 226, 226, 256 and 1 bytes and a new one of 256 between the last two: the old node keeps a key, and the new one reaches over the end of its block. |
| TreeRoom.LeafOverruns | BeFS/source/BPlusTree.cpp:1045-1107 | The same as the insertion of a key into a tree of one leaf. |
| TreeRoom.ShortHasRoom | BeFS/source/BPlusTree.cpp:1066-1159 | In a tree whose keys have at most 248 bytes there is room for another such key, whatever has to be split. |
| TreeRoom.RoomAbove | BeFS/source/BPlusTree.cpp:1089-1158 | After a split that works the insertion works if and only if the nodes above have room for the separator. |
| TreeRoom.NoRoom | BeFS/source/BPlusTree.cpp:1089-1107 | It fails if a node on the way is full and cannot be split. |
| TreeShape.LookupInLeaf | BeFS/source/BPlusTree.cpp:1545-1578 | A search ends in the one leaf whose range covers the key and finds what that leaf holds. |
| TreeShape.LeafThrough | BeFS/source/BPlusTree.cpp:570-601 | A search that passes a node reaches the same leaf as a search begun at that node. |
| TreeSplit.SplitOk | BeFS/source/BPlusTree.cpp:824-1042 | A split keeps the tree a search tree: order, ranges, levels, parents and the links between siblings. |
| TreeSplit.SplitLookup | BeFS/source/BPlusTree.cpp:824-1042 | A split changes the result of no search. |
| TreeChange.NewRootLookup | BeFS/source/BPlusTree.cpp:1142-1157 | A new root above the old one changes the result of no search. |
| TreeChange.RemoveUndoesInsert | BeFS/source/BPlusTree.cpp:784-821 | Removing an entry of a leaf and inserting it again gives back the leaf. |
| TreeInsert.HoldsInsert | BeFS/source/BPlusTree.cpp:1081-1088 | An entry more in its leaf makes the tree hold the map with this entry. |
| TreeInsert.HoldsRemove | BeFS/source/BPlusTree.cpp:1395-1462 | An entry less in its leaf makes the tree hold the map without it; empty leaves stay. |
| TreeInsert.HoldsReplace | BeFS/source/BPlusTree.cpp:1495-1532 | A new value in a leaf makes the tree hold the map with that value. |
| TreeInsert.InsertingSplit | BeFS/source/BPlusTree.cpp:1089-1158 | A full node on the way up that can be split is split, for keys of 1 to 256 bytes, and the separator becomes the pair to insert in its parent; all searches stay as they are. |
| TreeInsert.InsertingNewRoot | BeFS/source/BPlusTree.cpp:1089-1158 | A full root is split below a new root. |
| BTree.Tree.constructor | BeFS/source/BPlusTree.cpp:272-317 | An empty tree: the header and one empty leaf. |
| BTree.Tree.Allocate | BeFS/source/BPlusTree.cpp:165-208 | The first node of the free list, or the one behind the last; no place in the stream is lost. |
| BTree.Tree.FreeDuplicateNode | BeFS/source/BPlusTree.cpp:128-161 | The last node shrinks the stream, any other goes to the free list: every place in the stream is in use or on the free list, before and after. |
| BTree.Tree.SeekDown | BeFS/source/BPlusTree.cpp:570-601 | The stack holds the way from the root to the leaf for the key. |
| BTree.Tree.Insert | BeFS/source/BPlusTree.cpp:1045-1161 | For keys of any length: the tree holds the map with the new pair, through splits at any depth and new roots; NameInUse if and only if the key is there; BadValue if and only if the length is out of range; the insertion fails if and only if a node on the way back to the root is full and cannot be split, which keys of up to 248 bytes never cause. |
| BTree.Tree.Enter | BeFS/source/BPlusTree.cpp:1066-1159 | The loop up the stack ends with a well-formed tree of fitting nodes that holds the map if and only if every node that is full can be split. |
| BTree.Tree.Remove | BeFS/source/BPlusTree.cpp:1395-1462 | The tree holds the map without the key; EntryNotFound if and only if it was not there; NameInUse, with the key left in place, if and only if its value looks like a link to duplicates. |
| BTree.RemovalAfterInsertion | BeFS/source/BPlusTree.cpp:1428-1434 | Inserting a key and removing it again gives back the map if and only if the value is from 0 up to 2^62. |
| BTree.LinkedValueStays | BeFS/source/BPlusTree.cpp:1428-1434 | A value of 2^62 keeps its key in the tree. |
| BTree.Tree.Replace | BeFS/source/BPlusTree.cpp:1495-1532 | The tree holds the map with the new value; EntryNotFound if and only if the key was not there. |
| BTree.Tree.Find | BeFS/source/BPlusTree.cpp:1545-1578 | Finds a key if and only if the map has it, with the map's value. |
| BTree.Tree.Run | BeFS/source/BPlusTree.cpp:1045-1578 | Any run of insertions, removals, replacements and searches has the results and the effect it has on a plain map; it ends early only in front of an insertion for which a node cannot be split, and never with keys of up to 248 bytes. |
| TreeIteration.TreeIterator.Rewind | BeFS/source/BPlusTree.cpp:1601-1643 | The iterator stands in front of the first key of the first leaf. |
| TreeIteration.TreeIterator.NextKey | BeFS/source/BPlusTree.cpp:1712-1769 | Gives the smallest key behind the last one with the word in its leaf, over emptied leaves; not found if and only if there is none; a further call then gives a key again if and only if the leaf is not the last one and has more than one key. |
| TreeIteration.TreeIterator.NextLeaf | BeFS/source/BPlusTree.cpp:1717-1745 | The loop over leaves that are used up ends at the first one with a key, or at the last leaf. |
| PlainIteration.PlainIterator.GetNextEntry | BeFS/source/BPlusTree.cpp:1658-1801 | On a tree without duplicates: the next key with its value, unless the value is taken for a link and followed, to an error or to words that stand elsewhere. |
| PlainIteration.AnswerRight | BeFS/source/BPlusTree.cpp:1769-1798 | The answer for a key is its value, as a single one, if and only if the value is not negative, whatever stands in the nodes. |
| PlainIteration.Walk | BeFS/source/BPlusTree.cpp:1658-1801 | Calls up to the end return every entry once, in strictly ascending order and with its value, if and only if no value of the map is negative; the entries in front of the first negative value are right in any case. |
| PlainIteration.NegativeIsLink | BeFS/source/BPlusTree.cpp:1771-1773 | The words with link type 2 or 3 are the negative ones. |
| PlainIteration.MinusOneFails | BeFS/source/BPlusTree.cpp:1775-1779 | For the value -1 the walk answers an error. |
| PlainIteration.TypeOneReturned | BeFS/source/BPlusTree.cpp:1769-1773 | A value of link type 1 is returned as it is, although its key cannot be removed. |
| PackedNode.Node.InsertKey | BeFS/source/BPlusTree.cpp:784-821 | On the packed block: with all overlapping moves, the block afterwards holds the key and value sequences with the pair inserted, inside the block if the size test holds; an index that is too large changes nothing. |
| PackedNode.Node.RemoveKey | BeFS/source/BPlusTree.cpp:1338-1387 | The block afterwards holds the sequences without the pair; dropping the overflow link of an index node drops the last key and makes its value the link. |
| PackedNode.MoveEndsUp | BeFS/source/BPlusTree.cpp:807-813 | The loop over the cumulative lengths and the move of the first ones give the lengths with the new key, although old and new array overlap. |
| PackedNode.MoveEndsDown | BeFS/source/BPlusTree.cpp:1376-1380 | The same for a removal. |
| PackedNode.MoveValuesUp | BeFS/source/BPlusTree.cpp:801-805 | The two moves and the store give the values with the new one. |
| PackedNode.MoveKeysUp | BeFS/source/BPlusTree.cpp:815-820 | The bytes of the keys with the new key among them. |
| PackedNode.RemoveUndoesInsert | BeFS/source/BPlusTree.cpp:1338-1387 | Removing at the index of an insertion gives back the sequences. |
| Links.LinkParts | BeFS/source/BPlusTree.h:406-434 | A link gives back the type, the node offset and the fragment index it was made of. |
| Links.PartsMakeLink | BeFS/source/BPlusTree.h:406-434 | Every 64-bit word is the link made of its parts. |
| Links.PlainValues | BeFS/source/BPlusTree.h:418-422 | A word is taken for a plain value if and only if it is from 0 up to 2^62. |
| DuplicateTree.FragmentsUsed | BeFS/source/BPlusTree.cpp:1962-1973 | Less than two if and only if at most one slot is in use. |
| DuplicateTree.DuplicateTree.FindFreeDuplicateFragment | BeFS/source/BPlusTree.cpp:604-633 | Finds a free slot of a fragment node in use by the leaf; if none is found, all those nodes are full. |
| DuplicateTree.DuplicateTree.InsertDuplicate | BeFS/source/BPlusTree.cpp:636-781 | Through every promotion (single value, slot, node, chain) the key gains exactly the one value, and no other key changes. |
| DuplicateTree.DuplicateTree.InsertIntoFragment | BeFS/source/BPlusTree.cpp:650-707 | A slot with room takes the value; a full one moves to a node of its own, the fragment node itself if no other key uses it. |
| DuplicateTree.DuplicateTree.InsertIntoChain | BeFS/source/BPlusTree.cpp:709-755 | The value goes to the first node of the chain with room, or to a new last node. |
| DuplicateTree.DuplicateTree.FindRoom | BeFS/source/BPlusTree.cpp:713-729 | The walk along the right links stops at the first node with room, or at the last node. |
| DuplicateTree.DuplicateTree.GiveUpSlot | BeFS/source/BPlusTree.cpp:1188-1206 | The one value left in a slot goes back to the leaf, and the slot, or the node if no other slot is used, is given up, so that no node stays without a key: the key loses exactly the removed value and no other key changes. |
| DuplicateTree.DuplicateTree.OpenFragment | BeFS/source/BPlusTree.cpp:757-781 | A single value and the new one go to a free slot, in a shared node if there is one. |
| DuplicateTree.DuplicateTree.LeaveSlot | BeFS/source/BPlusTree.cpp:664-703 | A full slot and one value more become a duplicate node, with the slot or the node given up. |
| DuplicateTree.DuplicateTree.Insert | BeFS/source/BPlusTree.cpp:1045-1079 | On a tree with duplicates: the multimap gains exactly this pair, through splits of the tree and promotions of the values, for keys of any length and words of any value; it fails if and only if the key is new and a node on the way cannot be split; a first value that looks like a link stands in the leaf as it is. |
| DuplicateTree.DuplicateTree.RemoveFromFragment | BeFS/source/BPlusTree.cpp:1164-1208 | One occurrence of the value is gone from the key if the search finds it, and nothing changes otherwise; a value left alone goes back to the leaf, where it may look like a link, and the slot or the node is freed. |
| DuplicateTree.TakenIfNear | BeFS/source/BPlusTree.cpp:1186-1187 | A value that is there is taken out if all values of the key are less than 2^63 away from it. |
| DuplicateTree.OneStays | BeFS/source/BPlusTree.cpp:1186-1187 | The smallest word keeps the value 1 in its slot. |
| DuplicateTree.DuplicateTree.Remove | BeFS/source/BPlusTree.cpp:1395-1462 | A key with one value goes whatever value is named; of two to seven values the named one goes; EntryNotFound if and only if the key is not there. |
| DuplicateTree.DuplicateTree.Run | BeFS/source/BPlusTree.cpp:1045-1462 | Any run of insertions and removals on a tree with duplicates has the effect it has on a plain multimap, and no node is lost: each is reached from a key or is on the free list; it ends early only at an update for which a node cannot be split, a word that looks like a link is left alone, or the values are in nodes of their own and one is to go. |
| DuplicateOwners.StillUsed | BeFS/source/BPlusTree.cpp:636-822 | After a change to one key every node for duplicates is still reached from a key, if those that are new or were its own are. |
| DuplicateSteps.StorageBySize | BeFS/source/BPlusTree.cpp:636-781 | One value is in the leaf, two to seven are in a slot, more in a chain of nodes. |
| DuplicateSteps.KeyGone | BeFS/source/BPlusTree.cpp:1444-1461 | Taking a key with one value out of the leaf leaves all slots, nodes and other keys as they are. |
| DuplicateOwners.OneKeyMoves | BeFS/source/BPlusTree.cpp:636-781 | Moving one key to storage that no other key uses keeps all slots and nodes apart and every other key's values. |
| DuplicateSteps.NodeReused | BeFS/source/BPlusTree.cpp:666-675 | A fragment node with one slot in use becomes a duplicate node without touching another key. |
| DuplicateSteps.SlotLeft | BeFS/source/BPlusTree.cpp:676-698 | A full slot of a shared node moves to a new node and is free afterwards. |
| DuplicateSteps.ChainGrows | BeFS/source/BPlusTree.cpp:733-753 | A new node behind the last one of a chain keeps the chain linked in both directions. |
| DuplicateSteps.PlainToSlot | BeFS/source/BPlusTree.cpp:757-781 | The first promotion adds the value to this key only. |
| DuplicateIteration.DuplicateIterator.GetNextEntry | BeFS/source/BPlusTree.cpp:1658-1801 | Returns the next value of the same key, or the first value of the next key when all values of the last one were returned; the flag says which. |
| DuplicateIteration.NextInChain | BeFS/source/BPlusTree.cpp:1688-1708 | A node that is used up is left for the next one of the chain, and every value of the chain comes once. |
| DuplicateIteration.FirstValue | BeFS/source/BPlusTree.cpp:1771-1798 | The first value of a key with the position behind it. |
| DuplicateIteration.ListAllValues | BeFS/source/BPlusTree.cpp:1658-1801 | A whole walk returns the keys in ascending order and for every key exactly its values, from slots and chains alike. |
| StreamDouble.FindBlockRun | BeFS/source/Inode.cpp:855-949 | Finds a run if and only if the position is covered; the run holds the position and stands where the file has it, in the direct, indirect or double indirect range; if the 32-bit products for this position are too large, the run seems to end before it. |
| StreamLookup.FindInArray | BeFS/source/Inode.cpp:928-946 | The loop over one array of runs. |
| StreamLookup.FindIndirect | BeFS/source/Inode.cpp:896-926 | The loop over the blocks of the indirect range. |
| StreamDouble.TwoLevels | BeFS/source/Inode.cpp:872-894 | Dividing twice finds the entry that dividing once would find in one long table. |
| StreamDouble.DoubleOffsetRight | BeFS/source/Inode.cpp:894-894 | The position computed with 32-bit products is right if and only if the entries of the first level in front make less than two gigabytes; otherwise the run seems to end before the position looked for. |
| StreamDouble.TooFar | BeFS/source/Inode.cpp:894-894 | With blocks of 1024 bytes the run at two gigabytes seems to begin four gigabytes earlier. |
| StreamDouble.SmallInReach | BeFS/source/Inode.cpp:867-895 | All positions of a double indirect range of up to two gigabytes are in reach. |
| StreamDouble.DoubleCovers | BeFS/source/Inode.cpp:867-895 | The entry found in the two tables is the run that holds the position. |
| InodeStream.Inode.ReadAt | BeFS/source/Inode.cpp:952-1067 | Returns the bytes of the file from the position on, as many as asked for and there, however the runs divide the range; BadValue only for a negative position in a file without blocks. |
| StreamAccess.ReadBlocks | BeFS/source/Inode.cpp:1018-1064 | The loop over whole blocks and the last partial block reads exactly the range. |
| InodeStream.Inode.WriteAt | BeFS/source/Inode.cpp:1071-1222 | A write of at least one byte inside the size succeeds; one beyond the size succeeds if and only if growing does, and otherwise gives the failure of growing and leaves the contents; a write in front of the file begins at its first byte and succeeds if and only if there are blocks and the bytes fit into them. After success the file has the new bytes where they were written and the old ones elsewhere below the old size, in all three ranges; the size is the larger of old size and end of the write; blocks of others keep their contents; nothing is allocated inside the old size. |
| InodeStream.Inode.WriteInside | BeFS/source/Inode.cpp:1100-1222 | Inside the blocks there are: success if and only if the position lies in front of their end and the bytes fit, which they do when the range lies inside the size. |
| InodeStream.Inode.WriteBlocks | BeFS/source/Inode.cpp:1158-1217 | The writing loop replaces exactly the range, as far as there are blocks. |
| InodeStream.Inode.Overwrite | BeFS/source/Inode.cpp:1100-1222 | The part behind the growth: the first partial block and the loop. |
| InodeStream.Inode.GrowStream | BeFS/source/Inode.cpp:1310-1462 | The stream keeps its blocks and gets more behind them; ranges match the runs; what is allocated is held, except a run that found no place; stream, volume and the lost run are those of the step by step account. |
| InodeStream.Inode.Place | BeFS/source/Inode.cpp:1361-1456 | A run that was allocated is lost if and only if the direct range does not take it, and the indirect blocks are full, or there are none and the volume has no four blocks for them; otherwise its blocks are the last ones of the file. |
| StreamGrowth.FreeEntriesSuffice | BeFS/source/Inode.cpp:1351-1382 | Nothing is lost while the direct range has an entry for every block that is needed. |
| StreamGrowth.GrowsInside | BeFS/source/Inode.cpp:1310-1322 | Growing inside the blocks there are always succeeds and allocates nothing. |
| StreamGrowth.GrowsInOneRun | BeFS/source/Inode.cpp:1325-1382 | With a free direct entry and one long enough run on offer, growing succeeds, the file goes on with exactly the blocks of that run, and nothing is lost. |
| StreamGrowth.RequestIs | BeFS/source/Inode.cpp:1334-1342 | At least what is needed is asked for; more, up to 64 KB, if and only if less than that is needed and more than 128 blocks are free. |
| StreamGrowth.BlockLost | BeFS/source/Inode.cpp:1384-1390 | A concrete file of twelve scattered blocks whose thirteenth is lost. |
| InodeStream.LoseBlock | BeFS/source/Inode.cpp:1310-1462 | For that file the volume has thirteen blocks in use afterwards, and the file holds twelve. |
| InodeStream.Inode.PlaceDirect | BeFS/source/Inode.cpp:1361-1382 | A run goes to the first free direct entry or is joined to the last one. |
| InodeStream.Inode.PlaceIndirect | BeFS/source/Inode.cpp:1384-1456 | The same in the indirect range, which is begun with four empty blocks if there is none; fails if and only if there is no free entry or no four blocks. |
| InodeStream.Inode.FreeStreamArray | BeFS/source/Inode.cpp:1532-1571 | The blocks kept are the first ones, enough for the size and at most one more; exactly the others are freed; offset and max come out as described. |
| InodeStream.Inode.FreeIndirect | BeFS/source/Inode.cpp:1588-1600 | The same over all arrays of the indirect range. |
| InodeStream.Inode.ShrinkStream | BeFS/source/Inode.cpp:1574-1614 | The blocks kept are the first ones; they cover the size and reach at most one block beyond it, all others are freed; the indirect blocks go if and only if none of their runs is left. |
| InodeStream.Inode.SetFileSize | BeFS/source/Inode.cpp:1617-1645 | Shrinking always succeeds and keeps what ShrinkStream keeps; growing has the outcome of the step by step account; a negative size is refused. Success sets the size, failure restores the old one; the blocks of the common part stay; the used blocks change by what the stream holds more or less and the blocks of the one run that was lost, which was free before. |
| InodeStream.Inode.Resize | BeFS/source/Inode.cpp:1617-1645 | Along any run of size changes, which ends early only at a negative size or a growth that fails, blocks allocated minus blocks freed are the blocks held, none of them twice, and those of the run lost in the last one. |
| VolumeBlocks.Allocate | BeFS/source/BlockAllocator.cpp:279-393 | Every answer of the block allocator is one that a stream can be offered: it finds a run if and only if the run is on offer, and the blocks whose bits are set change as the used blocks of the stream's account do. |
| VolumeBlocks.Free | BeFS/source/BlockAllocator.cpp:456-514 | The same for the blocks of a run that a stream gives back. |
| VolumeBlocks.UsedBlocksCount | BeFS/source/BlockAllocator.cpp:353-357 | The number of used blocks that is kept is the number of set bits. |
| StreamChange.AddRunBlocks | BeFS/source/Inode.cpp:1368-1378 | Adding or joining a run appends its blocks to those of the array. |
| StreamBlocks.ShrunkBlocks | BeFS/source/Inode.cpp:1532-1614 | Freeing what is not kept leaves exactly what is kept, and the blocks of others alone. |
| BlockBitmap.AllocationBlock.Allocate | BeFS/source/BlockAllocator.cpp:99-121 | The word masks set exactly the bits of the range. |
| BlockBitmap.AllocationBlock.Free | BeFS/source/BlockAllocator.cpp:124-146 | The word masks clear exactly the bits of the range. |
| BlockBitmap.MaskFills | BeFS/source/BlockAllocator.cpp:113-120 | One mask changes the bits of one word and no others. |
| BlockBitmap.AllocationBlock.IsUsed | BeFS/source/BlockAllocator.cpp:90-96 | The bit, or used behind the last block. |
| BlockGroups.ScanGroup | BeFS/source/BlockAllocator.cpp:243-259 | The scan at mount time finds the number of free blocks, the first one and the longest free range; a group of less than four blocks is not looked at. |
| BlockGroups.FullSummary | BeFS/source/BlockAllocator.cpp:247-247 | What that says of a small group is right if and only if it has no free block. |
| BlockGroups.FindRange | BeFS/source/BlockAllocator.cpp:325-344 | Finds the first place from a block on with the wanted number of free blocks, up to the maximum of them; if the result is too short there is none. |
| BlockAllocator.BlockAllocator.constructor | BeFS/source/BlockAllocator.cpp:217-276 | After mounting, the counters and hints of all groups and the number of used blocks are exact. |
| BlockAllocator.BlockAllocator.AllocateBlocks | BeFS/source/BlockAllocator.cpp:279-393 | If some group has maximum consecutive free blocks (the first one: from its start hint on), exactly so many at the first such place of the first such group in turn; otherwise the first whole free range of at least minimum blocks in turn. Exactly the bits of the run change, it shares no block with what was handed out, and the counters stay exact; DeviceFull if and only if no group has minimum consecutive free blocks (with minimum equal to maximum, blocks in front of the start hint of the first group do not count). |
| BlockAllocator.BlockAllocator.AllocateInGroup | BeFS/source/BlockAllocator.cpp:305-386 | One round of the search: the first range that will do with its whole length up to the maximum, or there is none from the start on. |
| BlockAllocator.FoundInRound | BeFS/source/BlockAllocator.cpp:290-386 | What a round finds is the answer of its pass: every group in front of it in turn has nothing that would do. |
| BlockAllocator.BlockAllocator.Free | BeFS/source/BlockAllocator.cpp:456-514 | Exactly the bits of the run are cleared, be it a whole run, a part of one or several joined, and the counters and the hint stay right; an invalid or reserved run is refused and nothing changes. |
| BlockAllocator.NowhereFound | BeFS/source/BlockAllocator.cpp:288-392 | After both passes, or the first one if the second is pointless, no place is left that would do. |
| BlockGroups.FillCounts | BeFS/source/BlockAllocator.cpp:353-357 | Taking or giving back a run changes the number of free blocks by its length. |
| QueryTerms.ComplementNegates | BeFS/source/Query.cpp:1103-1113 | The complement of every tree means the opposite if every attribute can be compared. |
| QueryTerms.ComplementNegatesExactly | BeFS/source/Query.cpp:738-771 | On an inode the complement of every tree means the opposite if and only if every attribute can be compared; a missing attribute fails both ways. |
| QueryTerms.ComplementTwice | BeFS/source/Query.cpp:738-749 | The complement of the complement is the tree. |
| QueryTerms.MatchSound | BeFS/source/Query.cpp:1082-1100 | What Operator::Match accepts has the meaning of the tree, whatever the scores. |
| QueryTerms.MatchExactly | BeFS/source/Query.cpp:1082-1100 | Operator::Match agrees with the meaning on all inodes if and only if every or-operator has the better score on its right side. |
| QueryTerms.MatchFails | BeFS/source/Query.cpp:1082-1100 | Matching fails only if an attribute cannot be read, and always if none can. |
| QueryTerms.ScoreBelow | BeFS/source/Query.cpp:1124-1139 | The score of a tree is below a bound if and only if the tree is true when an equation is taken to hold if its own score is below the bound. |
| QueryTerms.HoldsOfDifference | BeFS/source/Query.cpp:701-734 | With a difference as its operand a comparison is that of the two numbers. |
| QueryPlan.PlanFinds | BeFS/source/Query.cpp:1009-1040 | An inode has the meaning of the expression if and only if some equation of the plan holds for it and every && sibling on the way to the root holds; independent of the scores. |
| QueryPlan.PlanSound | BeFS/source/Query.cpp:1009-1040 | With the siblings matched as coded nothing wrong is found. |
| QueryPlan.PlanExactly | BeFS/source/Query.cpp:1404-1424 | With the siblings matched as coded and all equations prepared, a query finds all it should if and only if every or-operator outside the plan has the better score on its right side. |
| QueryPlan.MakePlan | BeFS/source/Query.cpp:1404-1424 | The stack loop chooses every equation of the plan once and no other, from the right of the tree to the left. |
| QueryPlan.CheckUpwards | BeFS/source/Query.cpp:1009-1040 | The loop over the parents accepts if and only if every && sibling matches. |
| QuerySearch.Search | BeFS/source/Query.cpp:1436-1461 | Going through the equations in the order in which they are popped, up to the first that cannot be prepared, finds an inode if and only if it is found at one of them. |
| QuerySearch.SearchExactly | BeFS/source/Query.cpp:1436-1461 | A query finds just the inodes it is asked for, among all that can be met, if and only if no equation that fails to be prepared comes in front of one by which an inode can be found, and the && siblings are matched rightly. |
| QuerySearch.SearchAnything | BeFS/source/Query.cpp:1436-1461 | If every equation may hold for some inode, that is: all equations of the plan are prepared, and every or-operator that is only matched has the better score on its right side. |
| QuerySearch.InTimeIs | BeFS/source/Query.cpp:1404-1461 | An inode is found before the query ends if and only if, term by term from the left, everything in front of it could be prepared. |
| QuerySearch.ValueNotInIndex | BeFS/source/Query.cpp:947-950 | A value that is not in its index hides what the other side of an or-operator asks for, whatever the scores. |
| QuerySearch.EqualityPrepared | BeFS/source/Query.cpp:883-959 | An indexed equality without pattern is prepared if and only if its value is in the index. |
| QuerySearch.OthersPrepared | BeFS/source/Query.cpp:883-959 | Every other comparison fails only for want of an index, a value or a key to start at. |
| QuerySearch.PreparedExactly | BeFS/source/Query.cpp:883-959 | For every comparison and all circumstances: an equation can be prepared if and only if it has an index to go through, a value that converts, a key of a legal length where a search starts, and that key in the index for an equality without pattern. |
| QueryParser.RoundTrip | BeFS/source/Query.cpp:1263-1369 | Parsing the bracketed text of a tree gives back the tree and the end of the text. |
| QueryParser.NegationParses | BeFS/source/Query.cpp:1292-1295 | A negated bracket gives the complement. |
| QueryParser.EquationParses | BeFS/source/Query.cpp:444-571 | An equation with quoted strings is read back, with the position behind it. |
| QueryCrash.CrashesExactly | BeFS/source/Query.cpp:1263-1356 | For every text and position: the parser crashes if and only if it comes to a term that negates a closed bracket without a term in it, or to a quoted string that is read beyond the end of the text. |
| QueryCrash.OverrunExactly | BeFS/source/Query.cpp:595-613 | A quoted string is read beyond the end of the text if and only if no quote closes it and the backslashes at the end are not in pairs. |
| QueryCrash.NeverCrashes | BeFS/source/Query.cpp:1263-1356 | A text that does not end in a backslash and has no negation in front of a bracket never crashes the parser. |
| QueryCrash.NegationOfNothing | BeFS/source/Query.cpp:1283-1297 | A text that begins with the negation of a closed bracket without a term crashes it, whatever follows. |
| QueryCrash.StringLeftOpen | BeFS/source/Query.cpp:595-613 | A text that is a string left open crashes it if and only if the backslashes at its end are not in pairs. |
| QueryCrash.ShortCrashes | BeFS/source/Query.cpp:595-1297 | The texts !() and a quote with a backslash. |
| QueryParser.OrTerm | BeFS/source/Query.cpp:1335-1356 | The loop over or-operators; it ends on every text. |
| QueryParser.AndTerm | BeFS/source/Query.cpp:1311-1332 | The loop over and-operators; it ends on every text. |
| QueryParser.TermParses | BeFS/source/Query.cpp:1263-1308 | Wherever the bracketed text of a tree stands, the parser for one term gives back the tree and the position behind it and the blanks that follow. |
| QueryTexts.SpellingParses | BeFS/source/Query.cpp:444-571 | An equation at any position, its strings with or without quotes, any of the seven signs (a single = too) and any blanks between and around its parts: it is parsed to exactly its attribute, comparison and value, without the blanks, if it can be stored, and refused otherwise. |
| QueryTexts.QueryParses | BeFS/source/Query.cpp:1263-1369 | A query written with brackets, negations, and-operators and or-operators is parsed to the tree in which and-operators bind closer and group to the right, or-operators group to the left, and a negated bracket is the complement. |
| QueryGrammar.AcceptsExactly | BeFS/source/Query.cpp:1236-1369 | A text is read to its end with a tree as result if and only if it is such a written query for this tree: the parser accepts this grammar and no other text. |
| QueryGrammar.EquationRead | BeFS/source/Query.cpp:444-571 | Whatever is accepted as an equation is spelled in that way and can be stored. |
| QueryPatterns.ValidExactly | BeFS/source/Query.cpp:267-304 | A pattern is valid if and only if it consists of characters, escaped characters, and sets with at least one member and no minus behind a minus. |
| OptionExchange.Exchange | tools/stubgen/getopt.c:254-308 | In place, for all segment lengths: the segments are exchanged and each keeps its order. |
| OptionExchange.ExchangedIs | tools/stubgen/getopt.c:239-245 | The exchange is the concatenation of the two segments the other way round. |
| OptionExchange.BottomShort | tools/stubgen/getopt.c:270-285 | Swapping the shorter bottom segment leaves a smaller exchange with the same result. |
| OptionExchange.TopShort | tools/stubgen/getopt.c:286-301 | The same for a shorter top segment. |
| OptionScan.ScanArguments | tools/stubgen/getopt.c:419-519 | A complete run leaves the options with their arguments, the delimiter included, in their order in front of the other arguments in theirs, with optind at the first of those, and returns the events of a plain scan. |
| OptionPieces.Run | tools/stubgen/getopt.c:419-740 | Every argument vector is made of pieces: other arguments, elements of flags with an option argument behind them in the same or the next element or without one, an end, a delimiter, or an option that lacks its argument. A complete run returns the events of these pieces in order, leaves the options with their arguments in front of the others, and optind at the first of those. |
| OptionPieces.PiecesScan | tools/stubgen/getopt.c:419-740 | The plain scan of arguments made of pieces gives what the pieces stand for, whatever option string they fit: c with a colon takes the text behind it or the next element whole, with two colons only text behind it, without one nothing, and any other character is invalid. |
| OptionPieces.TailRead | tools/stubgen/getopt.c:692-735 | A character with one or two colons behind its first place in the option string takes the text behind it; without text one with a single colon takes the next element or lacks it, and one with two takes nothing. |
| OptionPieces.OneFlag | tools/stubgen/getopt.c:667-691 | A character without a colon takes nothing and one that is not listed is invalid; the next character of the element is the next event. |
| OptionPieces.KindTakes | tools/stubgen/getopt.c:667-735 | Every character is not listed or has none, one or two colons behind its first place. |
| OptionPieces.OneWay | tools/stubgen/getopt.c:419-740 | However arguments are taken apart into pieces, the events, options and others are the same. |
| OptionScan.ScanKeeps | tools/stubgen/getopt.c:444-519 | The division loses and adds no argument. |
| OptionScan.Getopt.Next | tools/stubgen/getopt.c:419-740 | One call returns the next event of the scan, or ends it. |
| OptionScan.Getopt.Advance | tools/stubgen/getopt.c:444-504 | The part that goes to the next option element: exchange, skip, delimiter, end. |
| OptionScan.Getopt.OneCharacter | tools/stubgen/getopt.c:667-739 | One option character, with its argument from the same or the next element. |
| CopiedFiles.Table.Remember | applications/bin/gnu/cp-hash.c:174-235 | Returns the path the inode of the device has already, or remembers the new one; the first path stays. |
| CopiedFiles.Table.Rehash | applications/bin/gnu/cp-hash.c:179-232 | Doubling in place inserts every entry again where it stands and loses none. |
| CopiedFiles.Table.InsertEntry | applications/bin/gnu/cp-hash.c:130-167 | Finds the entry in its chain or puts a new one at the head; chains run towards the first entry. |
| CopiedFiles.Table.Find | applications/bin/gnu/cp-hash.c:136-158 | The search along a chain ends and finds an entry if and only if it is in the table. |
| CopiedFiles.Table.ForgetAll | applications/bin/gnu/cp-hash.c:113-124 | The table is empty. |
| CopiedFiles.RememberAll | applications/bin/gnu/cp-hash.c:174-235 | Over every sequence of files and every initial size the table agrees with the map of first paths. |
| CopiedFiles.ChainedMore | applications/bin/gnu/cp-hash.c:160-164 | A new entry at the head keeps all chains. |
| Benaphore.MutualExclusion | BeFS/source/Lock.h:37-49 | For any number of threads and any interleaving never two hold the lock. |
| Benaphore.NoLostWakeup | BeFS/source/Lock.h:37-49 | While a thread waits and none holds the lock, there is one token in the semaphore or one thread about to release one; with no one inside the next thread gets the lock at once. |
| Benaphore.Progress | BeFS/source/Lock.h:37-49 | A waiting thread can go on, or another thread can. |
| Benaphore.StepKeeps | BeFS/source/Lock.h:37-49 | Every step keeps the count of threads in the counter and the single right to the lock. |
| Benaphore.StepMoves | BeFS/source/Lock.h:37-49 | In every reachable state: who enters holds the lock at once if and only if no one is inside, and waits otherwise; who acquires holds it; who leaves wakes a waiter if and only if there is one; all other threads stay where they are. |
| TicketLock.MutualExclusion | BeFS/source/Lock.h:296-310 | Never two threads hold the lock, with counters of 32 bits that wrap around. |
| TicketLock.AdmittedInOrder | BeFS/source/Lock.h:296-310 | Over every run the threads get the lock in the order in which they drew tickets, and none is passed over. |
| TicketLock.InTicketOrder | BeFS/source/Lock.h:296-302 | Whoever can leave the waiting loop has the lowest ticket. |

## Left out

- BTree.Tree.Insert: says nothing about the tree after an insertion that fails, when the code has written over the end of a block or put the same separator into a node twice.
- BTree.Tree.Run: ends in front of such an insertion.
- DuplicateTree.DuplicateTree.Insert: asks for a stream of less than 2^62 bytes; says nothing about the multimap once a word that looks like a link stands alone in a leaf.
- DuplicateTree.DuplicateTree.Remove: covers keys with up to seven values, which are in the leaf or in a fragment; the branch for duplicate nodes goes on with a stale array after moving to a sibling (BeFS/source/BPlusTree.cpp:1267-1277) and is not modelled.
- StreamDouble.FindBlockRun: asks for a position inside the stream when there is a double indirect range, because the tables are read without a check, and for blocks of up to 16384 bytes.
- InodeStream.Inode.WriteAt: the bytes between the old end and a position behind it are not specified, since filling the gap is switched off (BeFS/source/Inode.cpp:1235); a stream that has to grow has no double indirect range, into which growing is not implemented.
- InodeStream.Inode.SetFileSize: is modelled for streams without a double indirect range; allocation groups have less than 65536 blocks, so that the 16-bit lengths of joined runs do not wrap around.
- BlockAllocator.BlockAllocator.constructor: asks that a group of less than four blocks has none free, the exact condition for its counters to be right.
- BlockAllocator.BlockAllocator.AllocateBlocks: is modelled for one bitmap block per group of up to 65534 blocks; the code for several blocks inverts a test (BeFS/source/BlockAllocator.cpp:366).
- BlockAllocator.BlockAllocator.Free: is called with blocks that are in use or an invalid run, as CheckBlockRun demands.
- OptionScan.ScanArguments: is about short options without the environment of the shell; long options, the other two orderings and the messages are not modelled.
- CopiedFiles.Table.constructor: asks for sizes greater than zero; the sizes do not wrap around.
- TicketLock.AdmittedInOrder: there are at most 2^32 threads at the lock; time-outs and the sleeping between two looks are not modelled.
- QueryParser.RoundTrip: strings have no quotes and no backslashes and at most 255 characters; texts hold no character with the code zero.
- QueryGrammar.AcceptsExactly: is about texts read to their end; a query with anything behind it is accepted too, with a note at most (BeFS/source/Query.cpp:1250-1251).
- JournalRuns.CrashSafety: torn writes of the super block and errors of the device are not modelled; the space test of a run is strict.
- Splitting nodes byte by byte: `SplitNode` is modelled on the sequences of keys and values, since the code moves key bytes before lengths (BeFS/source/BPlusTree.cpp:1004-1018).
- TreeIterator::Update, SkipDuplicates and backward traversal; UpdateIterators; max_number_of_levels.
- QuerySearch.Search: what an equation finds in its index is a parameter, and so is the result of converting its value; what calls after the end of a query return is not modelled.
- Matching patterns and comparing typed values in queries, iterating over indices, live queries.
- FreeStaticStreamArray, attributes, small data, directories, vnodes, the volume and the kernel interface.
- The read/write lock, the time-out that writes a batch after two seconds, FlushLogAndBlocks.
- Allocation policies of inodes and streams, failures of memory allocation, errors of the device.
- AllocationGroup's fLargest is exact at mount time only; the code does not keep it up to date.
- Everything outside `BeFS/source`, `tools/stubgen/getopt.c` and `applications/bin/gnu/cp-hash.c`.
