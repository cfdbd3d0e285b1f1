# RediSearch's inverted index, its collector, and what reads it

This project models the core of RediSearch and proves that its moving parts agree with a plain list of
`(document, payload)` entries.

- **Codecs and blocks.** Records are encoded in one of fourteen layouts as deltas (`RecordCodec`, `Qint`, `Varint`,
  `NumericCodec`, `Buffers`), and packed into blocks with a first and a last id (`Blocks`). `Index` appends to the block
  list. The abstract view of everything is `Entries`, the entries of all blocks in order.
- **Reading.** `IndexReader` reads, seeks (block search, in-block scan, and the two dedicated seekers, the raw one over
  the binary search of `RawSeeker`), reopens and rewinds; `ReaderRuns` runs writers, readers and collections against each
  other. `ReaderLimits` holds the inputs at which they part from their promises.
- **Fork garbage collector.** `BlockRepair` and `ForkGc` are the child's work on a snapshot; `GcApply`, `GcMemory`,
  `GcParent`, `GcMeaning` and `GcRuns` are the splice into an index that was appended to meanwhile, down to which buffer
  is freed. `GcSafety` is the step system of put, pop, append, fork, apply, abandon and drop; `GcWrites` shows that the
  index's writes and the document table (`DocTable`) take its steps, and `GcReaders` ties it to the readers. `GcSend` and
  `GcWire` are the two ends of the pipe, `GcReport` the structures sent through it, and `GcRound` a whole round.
- **Query iterators.** `Iterators` has id lists, flat unions, heap unions and intersections in trees of any shape, over
  the contract of `IteratorContract`, with `MinHeap` and `KidSets` below and whole call sequences in `IteratorRuns`.
  `ReaderLeaf` shows that an index reader answers like a leaf.
- **Numeric tree.** `NumericRanges`, `NumericTree`, `NumericLookup`, `NumericTrim` and `NumericIndex`, over runs of
  adding, collecting and trimming. `NumericSample` is what arrives of a collected range's sample, `NumericGc` takes what
  a collection does to a range from the collector's runs, and `NumericLimits` holds runs from an empty tree at which it
  parts from its search order.
- **Smaller algorithms.** `Slop` (both slop checks), `Cursors` (the cursor list), `Highlight` (whole-document
  highlighting).

Fork is copying a value and the pipe is a byte sequence. Clocks, random numbers, allocation addresses, separators and
term streams are parameters. Integers are unbounded except where a width matters: 32-bit deltas, ids in the seeker and
token distances, 16-bit match lengths, 64-bit lengths on the wire. Floating-point values in the numeric tree are reals.

## Where the code and its promises part

These are stated as results.

- The numeric encoder takes its delta as a 32-bit number, although no block is opened for wider gaps and the header
  allows seven delta bytes. `Index.InvertedIndex.WriteEntry` stores the right id exactly when the gap from the last
  block's last id fits 32 bits; otherwise the entry ends up under a smaller id: `ReaderLimits.WideGap`.
- The seeker for full records computes ids in 32 bits. It delivers the entry a scan finds, under its own id, if and only
  if that id is below 2^32: `IndexReader.SeekExact`, `IndexReader.Reader.Seek`, `ReaderLimits.WideSeek`.
- The raw seeker overwrites only the low half of the record's id. What it finds does not depend on the half that stays,
  but the id delivered does: it is the entry's own if and only if the record before had no upper half
  (`IndexReader.Reader.RawSeek`). `ReaderLimits.WideRecord` reads 2^32 + 1, seeks 2^32 + 2 and gets 2^33 + 2.
- When the entry the raw seeker reads first is the last of its block and still below the target, it goes by the number
  stored behind the contents. `IndexReader.Reader.SkipTo` says when: exactly if the block it starts in ends below the
  target and that number is not below the distance to it; then the id delivered is that number's. `ReaderLimits.StraySeek`
  delivers a document the index never had.
- Reopening a reader after a collection seeks to its last id from the start. What remains afterwards is what was due if
  and only if nothing from the last id on is left, or exactly one id from there up to the one passed last:
  `IndexReader.ResumeExact` and, for the reader's own state, `IndexReader.Reader.Reopen`. So the next document is lost if
  the last one was collected; a reader that has delivered nothing loses the first document, although nothing was removed
  (`ReaderLimits.FreshReopen`); and since the raw seeker does not write the last id, documents come twice and out of order
  (`ReaderLimits.LaggingReopen`). The reader never takes over the new marker, so every later reopening seeks again.
- Rewinding does not forget the document a multi-value reader delivered last: `IndexReader.RewindExact`,
  `ReaderLimits.RewindOnce`.
- Of the sample the collector sends for a numeric range only a sum arrives, and it is a sum of whole parts whose bits
  are read as doubles; the sample is empty. So the next split value need not be a mean of the range's values. Adding
  keeps the search order if and only if the split value is not outside the leaf's interval: `NumericTree.SplitOrdered`,
  `NumericTree.AddOrdered`, `NumericIndex.RangeTree.Add`. While nothing was collected it always is inside. For a
  collected range `NumericIndex.SplitAfterSweep` says it of the values: what the sampled values arrive as, together,
  must not be more than what the values sampled since lie below the upper bound. Values below 2^62 arrive as less than 2
  each, so they cost the order only where intervals are narrow; larger ones arrive as up to about 1.8e308.
  `NumericLimits.SplitOutside` is a tree of 355 documents, one of them collected, that leaves the order. After more
  documents a rotation makes a lookup miss a stored value: `NumericLimits.RotationMisses`. Exactly when lookups are
  exact is `NumericLookup.ExactIffParted`.
- Interior ranges are collected one by one, so they may keep entries of dead documents that the leaves lost:
  `NumericLimits.CopiesDiverge`, again a run. For live documents they stay copies: `NumericIndex.SweptCopies`.
- The unordered slop check skips windows whose positions are all equal and then moves the first term on. It finds
  exactly the choices that do not start, with the first term, at a position all terms have: `Slop.WithinUnordered`,
  `Slop.AllVisible`, `Slop.CommonPositionHides`. With one term it always fails.
- Trimming takes a range that an interior node kept off the range count twice: `NumericTrim.TrimContents`,
  `NumericTrim.TrimMiscounts`.
- `UI_SkipTo` merges only one child into a result that was not found exactly, `UI_SkipToHigh` all children at the id; ids
  and return codes are the same.

## Model

| member | source | states |
|---|---|---|
| Qint.RoundTrip | src/qint.c:48-203 | up to four 32-bit numbers decode to what was encoded, using exactly their own bytes, whatever follows |
| Buffers.Buffer.Grow | src/buffer.c:11-17 | enough capacity for the extra bytes, contents kept |
| Buffers.Buffer.Write | src/buffer.h:115-134 | the bytes follow the contents; what lies behind them stays when nothing had to grow |
| Buffers.Buffer.WriteAt | src/buffer.c:90-97 | wherever it writes, also behind the contents or the capacity, exactly the addressed bytes of the contents change and the offset is back where it was |
| Buffers.EncodeOne | src/qint.c:48-64 | one number's bytes up to its highest non-zero one are appended, and counted |
| Buffers.QintEncode | src/qint.c:14-43 | the loop with the patched leading byte appends exactly the codec's bytes; nothing for other than one to four numbers |
| Buffers.QintDecode | src/qint.c:115-158 | the decoding loop computes the codec's numbers and byte count |
| Varint.RoundTrip | src/varint.c:20-38 | a number below the modulus decodes to itself and uses exactly its own bytes |
| NumericCodec.RoundTrip | src/inverted_index.c:362-438 | delta and value of every kind (small, integer, infinite, float, double) survive the bit-packed header, without numericCompress |
| RecordCodec.RoundTrip | src/inverted_index.c:156-245 | for all fourteen layouts, decoding gives the delta and the parts of the record the layout keeps, and uses exactly the record's bytes |
| RecordCodec.ProjectIdempotent | src/inverted_index.c:621-818 | what a layout keeps of a record is kept entirely when it is written again |
| Blocks.MakeRoundTrip | src/inverted_index.c:1071-1083 | parsing a block the writer built gives back its entries, for deltas from the previous and from the first id |
| Blocks.DecodeAt | src/inverted_index.c:1071-1083 | at the offset of entry k the decoder finds that entry's delta and record and ends at the next offset |
| Index.AppendedEntries | src/inverted_index.c:503-563 | growing the last block or adding one appends exactly one entry to the index |
| Index.AppendedNumDocs | src/inverted_index.c:551-557 | a write adds a document exactly when the last stored entry is of another one |
| Index.WriteResult | src/inverted_index.c:503-563 | which block list every case of a write leaves, and which entry it stores when the delta overflows |
| Index.InvertedIndex.constructor | src/inverted_index.c:55-78 | a new index is one empty block without entries |
| Index.InvertedIndex.WriteEntry | src/inverted_index.c:503-563 | a repeated document is dropped unless numeric; everything else becomes the last entry, block ranges stay strictly increasing, and the overflowing numeric delta is stored under the truncated, smaller id |
| IndexReader.EntriesSorted | src/inverted_index.c:503-563 | the entries of all blocks are sorted, strictly unless numeric, and no document spans two blocks |
| IndexReader.SeekId | src/inverted_index.c:646-702 | the id the seeker computes is the entry's id modulo 2^32 |
| IndexReader.Reader.DecodeNext | src/inverted_index.c:1071-1083 | decoding at the reader's offset gives the next entry of the index |
| IndexReader.Reader.FindBlock | src/inverted_index.c:1067-1074 | stepping over block ends keeps the position, and fails only at the end of the index |
| IndexReader.Reader.Read | src/inverted_index.c:1060-1115 | the next entry of a linear scan that passes the filter and is of a new document, or the end |
| IndexReader.Reader.SkipToBlock | src/inverted_index.c:1119-1153 | the binary search ends at the last block from the current one on that does not start above the target, and never passes an entry that is not below it |
| IndexReader.Reader.Seek | src/inverted_index.c:646-702 | within a block, the first entry that passes the filter and whose id modulo 2^32 is not below the target; it is the entry a scan finds, under its own id, if and only if that id is below 2^32 |
| IndexReader.SeekExact | src/inverted_index.c:646-702 | searching by ids modulo 2^32 delivers the scan's entry under its own id if and only if that id fits 32 bits |
| RawSeeker.RawWord | src/inverted_index.c:230-233 | in a raw block the 32-bit number at index i is the distance of entry i to the first id |
| RawSeeker.Search | src/inverted_index.c:829-857 | the binary search finds the first number not below the distance, or none; with nothing left to search the number behind the contents decides |
| IndexReader.FindRaw | src/inverted_index.c:820-870 | where a raw search of a block ends and the id it returns, for every target, every upper half of the record and every number behind the block |
| IndexReader.Reader.RawSeek | src/inverted_index.c:820-870 | for every target and record: the first entry of the block from the target on, under its own id if and only if the record had no upper half; the number behind the block exactly if the last entry is read and still below; the last id is not written |
| IndexReader.Reader.SkipRaw | src/inverted_index.c:1198-1224 | seeking block by block finds what a linear scan finds if and only if no number behind a block decides |
| IndexReader.Reader.SkipTo | src/inverted_index.c:1155-1239 | only a matching entry not below the target is delivered; above what was passed it is the one a linear scan finds, OK exactly when equal and EOF exactly when there is none; in the raw layout if and only if no number behind a block decides, and otherwise the id it delivers |
| IndexReader.Reader.ReadDoc | src/inverted_index.c:1060-1115 | reading keeps the iterator contract: the least remaining document id |
| IndexReader.Reader.SkipToDoc | src/inverted_index.c:1155-1239 | seeking keeps the iterator contract, in the raw layout unless a number behind a block decides |
| IndexReader.Reader.Reopen | src/inverted_index.c:104-143 | without a collection the reader stays at its entry although blocks grew; without the index it ends; after a collection the remaining ids are those with another one from its last id on below them, and these are the ids above what it passed if and only if nothing from the last id on is left or exactly one id up to the one passed last |
| IndexReader.ResumeExact | src/inverted_index.c:130-142 | for any set of ids, seeking to the last id leaves exactly what is above the one passed last if and only if nothing from the last id on is left or exactly one id lies between them |
| IndexReader.ResumesWhen | src/inverted_index.c:130-142 | that is, if the last id is the one passed last, that document is still there or nothing from it on is; and for a reader that has passed nothing, nothing is left |
| IndexReader.SeekLeavesBeyond | src/inverted_index.c:130-142 | behind the first matching entry from an id on remain exactly the ids with another one from there on below them |
| ReaderLimits.FreshReopen | src/inverted_index.c:130-142 | a new reader, reopened after a collection that removed nothing, delivers the second document first |
| ReaderLimits.LaggingReopen | src/inverted_index.c:820-870 | a raw reader delivers documents 1, 3 and then 2 |
| ReaderLimits.StraySeek | src/inverted_index.c:829-857 | a raw seek behind the last document delivers one the index never had |
| ReaderLimits.WideSeek | src/inverted_index.c:646-702 | a document with an id above 2^32 is not found by the seeker |
| ReaderLimits.WideRecord | src/inverted_index.c:820-870 | after a document with an id above 2^32 the raw seeker delivers one the index never had |
| ReaderLimits.WideGap | src/inverted_index.c:503-563 | a numeric entry stored under another document |
| IndexReader.Reader.Rewind | src/inverted_index.c:1321-1329 | back at the first entry, with the document to skip not forgotten |
| IndexReader.RewindExact | src/inverted_index.c:1321-1329 | a rewound multi-value reader starts like a new one if and only if its first document is not the one delivered last |
| ReaderLimits.RewindOnce | src/inverted_index.c:1321-1329 | a rewound multi-value reader does not deliver its only document again |
| ReaderRuns.ReadAll | src/inverted_index.c:1060-1115 | reading to the end delivers exactly what filtering the entries one by one gives |
| ReaderRuns.WriteAll | src/inverted_index.c:503-563 | any list of writes in id order leaves exactly the accepted entries |
| ReaderRuns.WriteThenRead | src/inverted_index.c:1060-1115 | the round trip over all writes, across block boundaries, for every layout |
| ReaderRuns.TakeYield | src/inverted_index.c:104-143 | letting the index change and taking it back keeps the reader beyond what it delivered, if its last id does not lag when it has to seek |
| ReaderRuns.Drive | src/inverted_index.c:104-143 | under any interleaving of reads, seeks, writes, collections and reopenings the delivered ids strictly increase and each entry was in the index when delivered; in the raw layout when, once there was a collection, an entry is read before each yielding, and zeros lie behind the blocks |
| ReaderRuns.Session | src/redis_index.c:295-331 | the same from the opening of a non-empty index on |
| ReaderLeaf.RunReader | src/index_iterator.h:72-78 | any sequence of reads and seeks on an index reader answers like a cursor over the ids it has to deliver; raw readers with any numbers behind the blocks that lead no further than the blocks' last ids |
| ReaderLeaf.LikeALeaf | src/inverted_index.c:1331-1352 | under the same condition on raw readers, a reader gives a parent the same answers, call by call, as a leaf or any iterator tree over the same ids |
| BlockRepair.SurvivorsChain | src/inverted_index.c:1357-1480 | the survivors of a block can be encoded in one block again |
| BlockRepair.Repair | src/inverted_index.c:1357-1480 | the repaired block is the one the writer would have built for the live entries, with their ids and counts; the result counts the dead documents and the dead entries; an untouched block is returned as it was |
| DocTable.Bucket | src/doc_table.c:45-47 | every id has a bucket below the table's maximum |
| DocTable.Grown | src/doc_table.c:117-127 | growing makes room for the bucket and stays within the maximum |
| DocTable.Table.Exists | src/doc_table.c:86-105 | true exactly for the ids of the documents in the table |
| DocTable.Table.Put | src/doc_table.c:217-264 | a known key keeps its id and nothing changes; a new one gets an id larger than every earlier one, and only that becomes live |
| DocTable.Table.Pop | src/doc_table.c:341-373 | exactly the key's document disappears, and the largest id given out stays |
| ForkGc.ChildRepair | src/fork_gc.c:172-266 | the child's message is the filtered block list, the deleted blocks, the repaired blocks with their old and new places, and the counts, computed from the snapshot |
| GcApply.OverlayBuilds | src/fork_gc.c:704-707 | writing the repaired blocks over the child's list gives the final headers |
| GcApply.CheckedMessage | src/fork_gc.c:594-639 | refusing the last block turns the message into the one for the blocks before it |
| GcApply.BaseIsGood | src/fork_gc.c:643-702 | in every case of the last block and of a missing block list, the array the repaired blocks go into is right |
| GcMemory.SplicedViews | src/fork_gc.c:641-707 | after the splice the headers show the child's result for the taken blocks and the live blocks after them |
| GcMemory.SplicedOwnership | src/fork_gc.c:641-707 | no buffer is shared by two blocks, leaked, or used after it was freed |
| GcParent.LiveIndex.ReceiveAll | src/fork_gc.c:532-543 | every repaired block is received into its own new buffer |
| GcParent.LiveIndex.FreeOld | src/fork_gc.c:644-652 | exactly the buffers of repaired and deleted blocks are freed |
| GcParent.LiveIndex.Apply | src/fork_gc.c:594-711 | the block array, the memory, the document count, the marker and the global block count after taking over a report, and when the last block is refused |
| GcMeaning.OutsEntries | src/fork_gc.c:172-266 | the child's blocks hold the live entries of the snapshot's blocks, in order |
| GcMeaning.OutsNumDocs | src/fork_gc.c:222-228 | the documents the child reports are the documents its blocks lost |
| GcMeaning.OutsOrdered | src/fork_gc.c:172-266 | the child's blocks keep strictly increasing id ranges |
| GcMeaning.RemnantsKeepLive | src/inverted_index.c:1408-1428 | filtering by the documents alive at the fork loses no entry of a document alive now |
| GcRuns.SpliceMeaning | src/fork_gc.c:594-711 | applying a report is filtering: entries after it are those before minus exactly the ones the child found dead, with the snapshot's last block kept whole if it was appended to; order, ids and document count stay consistent |
| GcSafety.ApplyKeeps | src/fork_gc.c:641-711 | taking over a report keeps the invariant |
| GcSafety.AppendKeeps | src/inverted_index.c:503-563 | appending beside a running child keeps the invariant |
| GcSafety.NextKeeps | src/fork_gc.c:1097-1228 | every step of put, pop, append, fork, apply, abandon and drop keeps the invariant |
| GcSafety.DropKeeps | src/fork_gc.c:753-768 | giving up a term without documents, and starting its index anew, keeps the invariant |
| GcWrites.WrittenViews | src/inverted_index.c:503-563 | the block array and the memory a write leaves stand for the blocks it leaves, and only the last block was touched |
| GcWrites.WriteIsStep | src/inverted_index.c:503-563 | in every reachable state a write of the index is a step of the runs |
| GcWrites.PutIsStep | src/doc_table.c:217-264 | putting a document into the table is a step of the runs, or changes nothing |
| GcWrites.PopIsStep | src/doc_table.c:341-373 | taking a document out of the table is a step of the runs, or changes nothing |
| GcSafety.RunsAreFaithful | src/fork_gc.c:594-711 | in every state of every run the index holds, for the live documents, exactly the entries added for them in order, and its document count is right |
| GcReaders.RemnantsAreAlive | src/fork_gc.c:172-266 | in the blocks the child looked at nothing is left of documents dead at the fork, but for blocks whose ids spread too wide |
| GcReaders.ApplyIsCollection | src/fork_gc.c:641-711 | in every reachable state taking over a report is one of the collections the readers' runs allow |
| GcWire.Pipe.RecvFixed | src/fork_gc.c:86-98 | partial reads add up to exactly the bytes asked for |
| GcWire.Pipe.RecvBuffer | src/fork_gc.c:107-125 | a buffer, an empty one and the terminator are told apart |
| GcWire.Pipe.RecvInvIdx | src/fork_gc.c:545-579 | the report on an index is recovered, with as many blocks as announced |
| GcWire.Pipe.RecvCards | src/fork_gc.c:801-824 | the optional list of sampled values is recovered |
| GcWire.Pipe.HandleTerms | src/fork_gc.c:713-724 | all terms up to the terminator are recovered |
| GcWire.Pipe.HandleNumerics | src/fork_gc.c:880-896 | all numeric fields, each up to its null pointer, are recovered |
| GcWire.Pipe.HandleTags | src/fork_gc.c:969-1011 | all tag fields, each up to its null pointer, are recovered |
| GcWire.Pipe.HandleFromChild | src/fork_gc.c:1063-1078 | everything sent is recovered and nothing is left over |
| GcSend.Writer.SendInvIdx | src/fork_gc.c:241-258 | the bytes of one report |
| GcSend.Writer.CollectTerms | src/fork_gc.c:273-298 | repaired terms only, and the terminator |
| GcSend.Writer.CollectNumericField | src/fork_gc.c:415-450 | nothing for a field without repairs; otherwise the header, the repaired ranges with their samples, and a null pointer |
| GcSend.Writer.CollectTagField | src/fork_gc.c:463-496 | the same for tag values |
| GcSend.Writer.ScanIndexes | src/fork_gc.c:504-520 | the whole stream of a scan |
| GcSend.Transfer | src/fork_gc.c:1063-1078 | what the parent recovers is exactly what the child found to repair |
| GcReport.ReportRoundTrip | src/fork_gc.c:133-164 | a report, packed field by field into the structures that are sent, is read back as it was |
| GcRound.SendReport | src/fork_gc.c:240-258 | a report sent through the pipe arrives unchanged |
| GcRound.CollectTerm | src/fork_gc.c:713-768 | a whole round for one term, from the child's repair through the pipe to the splice, leaves exactly the index that filtering describes, and changes nothing if the child found nothing |
| MinHeap.RootIsLeast | src/util/heap.c:182-186 | the root of the heap has the least id |
| MinHeap.PushDown | src/util/heap.c:109-136 | sinking the root restores the heap and keeps its items |
| MinHeap.Poll | src/util/heap.c:158-169 | exactly the root leaves the heap |
| MinHeap.Offer | src/util/heap.c:92-149 | exactly the item joins the heap |
| MinHeap.MatchingExact | src/util/heap.c:233-252 | descending from the root visits exactly the items with its key |
| MinHeap.MatchingOnce | src/util/heap.c:233-252 | and none of them twice |
| Iterators.Iter.SkipUnion | src/index.c:445-536 | the flat union's seek keeps the contract in both modes; on a hit in full mode it merges exactly the children at the id |
| Iterators.Iter.ReadUnion | src/index.c:306-371 | the flat union's read delivers the least remaining id of the union |
| Iterators.Iter.HeapSeek | src/index.c:539-602 | the heap union's seek keeps the contract, also while stale children stay in the heap, and merges exactly the children at the id |
| Iterators.Iter.ReadHeap | src/index.c:374-434 | the heap union's read delivers the least remaining id of the union |
| Iterators.Iter.ReadMeet | src/index.c:1043-1129 | the intersection's read delivers the least common id that passes the slop filter, and ends because the id looked for grows |
| Iterators.Iter.SkipMeet | src/index.c:894-963 | the intersection's seek keeps the contract |
| Iterators.Iter.Read | src/index_iterator.h:72-74 | in a tree of any shape, the least remaining id of the set expression |
| Iterators.Iter.SkipTo | src/index_iterator.h:76-78 | in a tree of any shape, the least remaining id from the target on, OK exactly when it is the target |
| Iterators.Iter.Rewind | src/index.c:139-152 | all ids are to come again, for the whole tree |
| Iterators.Iter.Union | src/index.c:154-228 | a new union, flat or over a heap, stands for the union of its children |
| Iterators.Iter.Intersect | src/index.c:850-892 | a new intersection stands for the filtered intersection of its children |
| IteratorRuns.AnswersUnique | src/index.c:306-602 | the contract leaves a call sequence only one answer |
| IteratorRuns.AnswersRise | src/index.c:306-602 | delivered ids are members and strictly increase |
| IteratorRuns.NothingSkipped | src/index.c:306-371 | reading to the end delivers every id |
| IteratorRuns.Run | src/index.c:306-1129 | any call sequence on any tree answers like a cursor over the set the tree stands for |
| IteratorRuns.RunBoth | src/index.c:374-602 | the heap union gives the same ids and return codes as the flat union, call by call |
| NumericRanges.AddKeeps | src/numeric_index.c:113-148 | the bounds cover all values, samples are distinct and counted, and what the recorded sum has beside them does not change |
| NumericRanges.EveryTenth | src/numeric_index.c:113-134 | exactly every tenth value added is sampled, and counted |
| NumericRanges.SplitInside | src/numeric_index.c:150-153 | if the recorded sum is that of the sample, the split value, a mean, is not outside the interval of the sampled values |
| NumericRanges.PartsTogether | src/numeric_index.c:162-166 | the two halves of a split are the entries |
| NumericRanges.Split | src/numeric_index.c:150-170 | the loop fills the left range with the entries below the split value and the right one with the others, in order |
| NumericTree.RotationMovesNoRange | src/numeric_index.c:216-236 | with depth limits up to 2 a rotation never moves a node that has a range |
| NumericTree.BalanceContents | src/numeric_index.c:216-236 | rotations keep the leaves' entries in order |
| NumericTree.BalanceOrdered | src/numeric_index.c:216-236 | rotations neither break nor mend the search order |
| NumericTree.SplitOrdered | src/numeric_index.c:150-170 | a split keeps the search order if and only if the split value is not outside the leaf's interval |
| NumericTree.AddGrew | src/numeric_index.c:238-292 | the leaves hold exactly one entry more, and the reported records and ranges are the real changes of the counts |
| NumericTree.AddShallow | src/numeric_index.c:262-271 | only nodes within the depth limit keep a range, and nothing below them was rotated |
| NumericTree.AddOrdered | src/numeric_index.c:238-292 | adding keeps the search order, also across splits and rotations, if and only if the split value of the leaf that takes the entry is not outside its interval |
| NumericTree.UncollectedSplits | src/numeric_index.c:150-153 | in a tree that was never collected it never is outside |
| NumericTree.AddUncollected | src/numeric_index.c:238-292 | adding keeps the summaries of all leaves exact |
| NumericSample.SmallArrives | src/fork_gc.c:320-333 | a sampled value below 2^62 arrives as less than 2 |
| NumericSample.SmallSums | src/fork_gc.c:378-405 | the sum sent for values below 2^62 is at most two for each |
| NumericSample.InsideIff | src/numeric_index.c:150-153 | a split value is inside an interval if and only if the excess of the recorded sum fits between the sampled values and the bounds |
| NumericSample.CollectedSplits | src/fork_gc.c:851-862 | a range that was collected splits inside its interval if and only if what its sampled values arrived as is at most the room below the upper bound; two for each is enough room for values below 2^62 |
| NumericTree.AddCopies | src/numeric_index.c:238-292 | every kept range keeps holding exactly the entries of the leaves below it, for any set of documents |
| NumericTree.AddInIdOrder | src/numeric_index.c:238-292 | every range stays in document order |
| NumericLookup.YieldExact | src/numeric_index.c:519-533 | dropping the filter when both bounds match never admits another entry |
| NumericLookup.SelectExact | src/numeric_index.c:295-345 | without limit and offset the selected ranges yield every matching entry of the documents the kept ranges copy, as often as it is stored, and nothing else, in either direction |
| NumericLookup.OrderedParted | src/numeric_index.c:327-341 | the search order parts the values at every node |
| NumericLookup.SelectNoMore | src/numeric_index.c:295-345 | a search never yields an entry more often than it is stored |
| NumericLookup.Misses | src/numeric_index.c:327-341 | a tree that does not part its values has an entry that the search for its value misses |
| NumericLookup.ExactIffParted | src/numeric_index.c:295-345 | where interior nodes keep no range, every search is exact if and only if the tree parts its values at every node |
| NumericLookup.LimitCutsTail | src/numeric_index.c:295-345 | a limit only cuts off the end of the selection, and not before enough documents were counted |
| NumericTrim.TrimContents | src/numeric_index.c:444-505 | trimming keeps the entries in order, an empty result is one empty leaf, and the reported change of ranges is off by the interior ranges given up |
| NumericTrim.TrimMiscounts | src/numeric_index.c:472-479 | a tree whose trimming reports a wrong count |
| NumericTrim.TrimShallow | src/numeric_index.c:444-505 | trimming keeps ranges within the depth limit, whether or not the tree is in search order |
| NumericTrim.TrimOrdered | src/numeric_index.c:444-505 | trimming keeps the search order |
| NumericTrim.TrimCopies | src/numeric_index.c:444-505 | trimming keeps every kept range a copy of what is below it, whether or not the tree is in search order |
| NumericIndex.RangeTree.Add | src/numeric_index.c:402-422 | in every tree: exactly one more entry, refused repeats, counters that match the tree; in one in search order: the order stays if and only if a split value is inside, which it is while nothing was collected |
| NumericIndex.RangeTree.Collect | src/fork_gc.c:851-878 | collecting keeps every entry of a live document, the search order and the counts of ranges; kept ranges stay copies for live documents |
| NumericIndex.RangeTree.TrimEmptyLeaves | src/numeric_index.c:507-512 | the entries, their order, the search order and the copies stay, and the range count is off by exactly the interior ranges given up |
| NumericIndex.RangeTree.Find | src/numeric_index.c:354-368 | the ranges found for a filter yield exactly the matching entries, of all documents where no range is kept and otherwise of those the kept ranges copy |
| NumericIndex.ThinnedCounts | src/fork_gc.c:863-877 | a collection adds nothing and takes nothing of a live document |
| NumericIndex.SweptExcess | src/fork_gc.c:801-824 | what the recorded sum of a swept range has beside its sample is what the sampled ones of its own entries arrive as |
| NumericIndex.SplitAfterSweep | src/numeric_index.c:150-170 | a leaf that is collected and then filled until it splits keeps the search order if and only if what its sampled entries arrive as is at most the room below the upper bound; entries from 0 up to 2^62 need room for two each |
| NumericIndex.SweptOrdered | src/fork_gc.c:851-877 | resetting samples and thinning entries keeps the search order |
| NumericIndex.SweptKeeps | src/fork_gc.c:851-877 | the id order and the ranges stay, and the tree's entries are thinned, in every tree |
| NumericIndex.SweptCopies | src/fork_gc.c:851-877 | for live documents kept ranges stay copies of the leaves |
| NumericGc.ApplyThins | src/fork_gc.c:863-867 | in every reachable state taking over a report thins a numeric index's entries as the tree expects |
| NumericLimits.SplitOutside | src/numeric_index.c:150-153 | adding 355 documents, with one collection that takes one of them, leaves the search order, which held before the last |
| NumericLimits.RotationMisses | src/numeric_index.c:216-236 | the same run, continued to document 3086: a rotation makes the lookup of a stored value miss it |
| NumericLimits.CopiesDiverge | src/fork_gc.c:863-877 | a run of 21 documents and a collection after which a kept range is no copy of the leaves |
| Slop.WithinInOrder | src/index_result.c:360-402 | true if and only if some choice of positions in order has every prefix within the slop |
| Slop.ArrayMin | src/index_result.c:404-414 | the least position and the first place it is at |
| Slop.ArrayMax | src/index_result.c:416-426 | the greatest position and the last place it is at |
| Slop.WithinUnordered | src/index_result.c:430-469 | true if and only if some close choice does not start, with the first term, at a position all terms have |
| Slop.IsWithinRange | src/index_result.c:476-515 | which of the checks decides, over the children that have positions; true for one child or without positions |
| Slop.AllVisible | src/index_result.c:430-469 | without a common position the check is sound and complete |
| Slop.CommonPositionHides | src/index_result.c:430-469 | two vectors whose only close choice is not found |
| Cursors.IdFrom | src/cursor.c:170-185 | ids are never 0 and their parity leads back to their own list |
| Cursors.SwapRemove | src/cursor.c:43-60 | swapping the last cursor into the gap keeps all places right |
| Cursors.CursorList.RemoveFromIdle | src/cursor.c:43-60 | exactly that cursor leaves the idle list |
| Cursors.CursorList.FreeInternal | src/cursor.c:65-91 | exactly that cursor is forgotten and its index counts one less |
| Cursors.CursorList.Sweep | src/cursor.c:93-154 | a sweep removes exactly the idle cursors past their deadline, although removals swap cursors during the iteration |
| Cursors.CursorList.GcInternal | src/cursor.c:143-154 | when a sweep runs, and what it leaves |
| Cursors.CursorList.IncrCounter | src/cursor.c:164-168 | every 500th operation sweeps if a sweep is due; the others change no cursor |
| Cursors.CursorList.GenerateId | src/cursor.c:181-189 | an unused id of the list's parity |
| Cursors.CursorList.Reserve | src/cursor.c:191-231 | a new cursor in use, or none only if the index has no room and no idle cursor is left to sweep or no sweep is due; counts never exceed the cap |
| Cursors.CursorList.Pause | src/cursor.c:233-250 | the cursor becomes idle with its new deadline |
| Cursors.CursorList.TakeForExecution | src/cursor.c:252-271 | an idle cursor is taken, one in use is not |
| Cursors.CursorList.Purge | src/cursor.c:273-292 | the cursor is gone, idle or not |
| Highlight.FragmentList.AddMatchingTerm | src/fragmenter.c:53-85 | the match joins the last fragment exactly when it is near enough, and comes behind all earlier ones |
| Highlight.FragmentList.TokenLen | src/fragmenter.c:451-454 | the token ends at the next separator or the end |
| Highlight.FragmentList.FragmentizeIter | src/fragmenter.c:423-462 | matches are ordered and disjoint over all fragments, inside the document, and at positions of the stream |
| Highlight.FragmentList.WriteFragment | src/fragmenter.c:151-190 | the text before each match and the match between the tags |
| Highlight.FragmentList.HighlightWholeDoc | src/fragmenter.c:192-217 | the output is the document with every match between the tags |
| Highlight.HighlightErases | src/fragmenter.c:192-217 | taking the tags out gives back the document |

## Left out

- Redis module calls, replies, persistence, configuration parsing, locks, timers and the forking itself.
- Byte and entry statistics of the collector; only document counts and block counts are claimed.
- IndexReader.Reader.SkipTo: for full records it asks for ids below 2^32, and for raw ones for a record without an upper
  half; what the seekers do otherwise is stated one block at a time.
- ReaderRuns.Drive: for the raw layout the condition is sufficient; the exact one is that of each single seek and
  reopening.
- ReaderLeaf.RunReader: the condition on what lies behind raw blocks is sufficient; the exact one is that of each seek.
- NumericCodec.RoundTrip: with numericCompress a double that is near a single-precision number is rounded to it before it
  is written; that loss is not modelled, and neither is a value that is not a number.
- IndexReader.Reader.Read: aborting readers through the shared validity flag is not modelled.
- GcWrites.WriteIsStep: the write is the block list of `Index.InvertedIndex.WriteEntry` laid out in headers and memory;
  the writer's own buffer handling is in `Buffers`. A numeric write whose delta overflows is no step.
- GcReport.ReportRoundTrip: asks that every number fits its field, among them the 16-bit count of a block's entries.
- GcApply.CheckedMessage: the parent's copy of the message is a value here, not updated in place.
- BlockRepair.Repair: blocks are values, and a block must span at most 32 bits of ids, as the child checks before.
- Id-list iterators with their own binary search; leaves of iterator trees are sorted id lists searched linearly.
- NOT, OPTIONAL, wildcard, hybrid and unsorted iterators; the slop test of an intersection is a predicate on document ids.
- Iterators.Iter.ReadMeet: the field-mask test, which an intersection makes when reading but not when seeking, is not
  modelled.
- Iterators.Iter.SkipTo: targets are above the id delivered last (so never 0), and an iterator that reported the end is
  not called again before a rewind.
- Iterators.Iter.Intersect: asks for at least one child.
- Records, frequencies and field masks that iterators merge; a union's result is the list of its merged children.
- Tree nodes of the numeric index are values: updating nodes in place and sharing them is not captured. Values are
  finite reals.
- NumericTree.AddGrew: bytes reported by adding and splitting are not counted.
- NumericIndex.RangeTree.Add: the ids of a multi-value field do not go down; the documents handed to it have rising ids.
- NumericIndex.RangeTree.Collect: which counts a collection leaves is open, and so is what it reports. The sum is exact
  where every sampled value is from 0 up to 2^63 - 2^52; for others, whose conversion is undefined or whose bits are no
  finite positive double, it is open. Only what holds for all of them is claimed.
- NumericTrim.TrimContents: a leaf is empty when it has no entries. The source asks whether its account of the range's
  bytes is 0, which can stay positive after the collector was refused a last block; then the source keeps the leaf.
- NumericIndex.RangeTree.TrimEmptyLeaves: empty means without entries, as in `NumericTrim.TrimContents`.
- NumericLookup.SelectExact: geo filters, which always keep their test, are not modelled.
- Cursors are records found by their id; pointers to them, their execution state and their locks are not modelled.
- Cursors.CursorList.GenerateId: asks that one of the random numbers drawn gives an unused id.
- nextIdleTimeoutNs of the cursor list is a hint and nothing is claimed about it.
- Highlight.FragmentList.FragmentizeIter: terms of the stream must be inside the document, as the source assumes.
- Ranking of fragments, contextual fragments and the tokenizer.
- Document payloads, sorting vectors, reference counts and memory sizes of the document table; replacing a key.
- Parsing a broken stream: GcWire covers streams as the child sends them.
- 16-bit overflow of a block's entry count and 32-bit overflow of token counts.
