# Realm change tracking, in Dafny

This project models the part of the Realm object store that says *what changed*: index sets that
renumber themselves, the builder of collection changesets, the observer of a transaction log, the
combination of changesets for notifiers that start at different versions, and the protocols
around them (deep change search, callback delivery, sync sessions, the watch stream, the check
for cycles of embedded types).  Nothing is executed; every claim below is a contract that the
Dafny verifier checks.  `dafny verify dfyconfig.toml` checks the whole project.

## How it is laid out

| file | what is in it |
|---|---|
| `IndexAlgebra.dfy` | sets of naturals, `Shift` and `Unshift`, and the set meaning of every index set operation |
| `IndexRanges.dfy`, `RangeEdits.dfy` | sorted ranges in chunks with cached bounds and counts; what an edit of ranges does to the set |
| `IndexSets.dfy` | the class `IndexSet`: every operation, in place, through iterators |
| `IndexBuilding.dfy`, `BulkEdits.dfy` | the builder behind the bulk operations and the two-cursor argument about them |
| `TailCounts.dfy` | when adding indices in bulk leaves the cached counts exact |
| `ChangeSets.dfy` | a changeset, the relation `Linked` between old and new positions, composition |
| `Merging.dfy`, `MergeTheorems.dfy` | stale moves and the merge of two changesets |
| `LogOperations.dfy`, `ListLog.dfy` | insert, erase, move, clear; whole runs of log events on a list |
| `ChangeBuilder.dfy` | the class `CollectionChangeBuilder`, on three index sets and a list of moves |
| `ChangeInfo.dfy` | lists observed by several notifiers and how their changesets are combined |
| `Matching.dfy`, `Diff.dfy`, `Alignment.dfy`, `Calculation.dfy`, `Sorting.dfy` | the difference of two result sequences |
| `MissedBlocks.dfy`, `KeptRows.dfy` | which rows stay, and which are moved although they could stay |
| `DeepChange.dfy`, `Related.dfy`, `LinkedChanges.dfy` | the memoised search for modified linked objects, the tables it goes over, and both together |
| `Delivery.dfy`, `FullPass.dfy` | calling callbacks while callbacks come and go, and when nobody is passed over |
| `Syncing.dfy` | the session's states and its ledger of completion callbacks |
| `Watching.dfy` | the incremental server-sent-event parser (section 9.2.6 of the WHATWG HTML Living Standard) |
| `Embedding.dfy` | the search for cycles of embedded types |

The meaning of everything about changesets is `ChangeSets.Linked(c, i, j)`: the changeset presents
old position `i` and new position `j` as one element, because it survived in order or because it
moved.  `Describes` says that linked positions hold equal elements and that the sizes agree;
`Tracks` says, for collections whose elements have identities, that *exactly* the positions of the
same element are linked.  The theorems about changesets are about set functions (`IndexAlgebra`,
`LogOperations`, `Merging`); the methods of `IndexSet` are proved to compute just these on chunks of
ranges, and those of `CollectionChangeBuilder` to do so through its three index sets, with one proviso
about cached counts, which is the second of the following points.

## Where the code does not do what one would expect

The model follows the code in each of these places, but for the last one and for what is said
under the second.

* `IndexSet::count` with a non-zero start leaves out part of a range.  `IndexSet.Count` says exactly
  when (`Straddles`) and by how much; `CountLeavesOutPart` is an instance.  From zero it is exact, and
  so is `unshift`.  With `start > end` the difference is negative (and wraps around in the source).
* `ChunkedRangeVectorBuilder::push_back` writes the count 1 into a chunk that was not planned for,
  whatever the length of its first range (src/index_set.cpp:244).  The builder is modelled both ways:
  with `asWritten` it writes 1, and otherwise the length of the range, which is what is meant.  Of
  the bulk operations only `add_shifted_by` pushes longer ranges.  Its set is right in any case; as
  written, its counts are exact if and only if they survive (`CountsSurvive`, a condition on the three
  sets alone).  They do if the values are no more than the ranges that the last planned chunk has room
  for (`GuardSuffices`); `AddShiftedByMiscounts` is an input on which they do not.
  `merge` brings the new deletions in through `add_shifted_by` and then decides by counting which
  moves are stale.  `CollectionChangeBuilder.Merge` is modelled both ways, too: it computes the `Merged`
  that the theorems are about if the builder is as meant, and as written if
  `CountsSurvive(deletions, insertions, c.deletions)` holds beforehand.  What happens on sets whose
  counts are already wrong is not modelled, and `CombineLists` merges as meant, which is a deviation
  from the source.
* `IndexSet::remove` with count zero, strictly inside of a range, leaves two ranges that touch
  (`Remove`: the invariant is kept if and only if that is not so; the set is right in any case).
  `RemoveNothingTouches` is an instance.
* `find_longest_matches` compares the end of a block in the *old* sequence with the window of the
  *new* one, so that what lies to the right of a block is not always searched.  The result is still
  correct, and the common prefix and a longest block are kept.  A row that could stay in addition is
  missed exactly when it lies in a window that was skipped (`MissedAt`, `MaximalIff`, and for two results
  without duplicates the contract of `Calculate`); that window begins, in the old sequence, beyond its end
  in the new one (`SkippedBeyondEnd`), which takes a block that comes earlier in the new sequence than in
  the old one (`ForwardIsMaximal`, `ForwardSuffices`).  `FourIsMissed` is an
  instance, whichever blocks are preferred: 0 to 8 become 1, 2, 4, 6, 7, 8, 0, 3, 5, and 4 does not stay.
* `merge` forgets the modification of an element that was inserted by the first change and moved by
  the second (`MergeModifications`; `ForgottenModification` is an instance).  Such an element is an
  insertion of the merged changeset, so that no reported modification is affected
  (`MergeKeepsModifications`).
* `remove_callback` decrements the count of callbacks to notify even for a callback that was added
  after packaging.  A pass then goes on only while more callbacks are due than there were such
  removals (`Delivered`).  Nobody is passed over if and only if that is so at every turn of the full
  pass, the one that does not count and hence follows from the roster and the script alone
  (`NobodyPassedOverIff`); `StrayRemovalSkips` and `StrayScriptVisitsOne` are an instance.  Without
  such removals delivery is exact.
* A client resync holds the pending completion callbacks aside while the lock is free.  Callbacks given
  in the meantime are overwritten (`InterruptedResyncLoses`); `NothingLostIff` says exactly when
  nothing is lost.
* `feed_line` goes on to look at `line[0]` after dispatching on an empty line.  Here the model departs
  from the code: it returns.

## Model

| member | source | states |
|---|---|---|
| `IndexAlgebra.Shift` | src/index_set.hpp:178-179 | the result is not a member, and removing the members below it gives the argument back |
| `IndexAlgebra.ShiftUnshift` | src/index_set.cpp:656-671 | shifting undoes unshifting for every position outside of the set; with `Shift`'s own contract the two are mutually inverse |
| `IndexAlgebra.UnshiftMonotone` | src/index_set.cpp:667-671 | unshifting keeps the order, strictly on non-members |
| `IndexAlgebra.ShiftStrict` | src/index_set.cpp:656-665 | shifting is strictly increasing |
| `IndexAlgebra.UnshiftInjective` | src/index_set.cpp:667-671 | two non-members with the same unshifted position are the same |
| `IndexAlgebra.SurviveInverse` | src/index_set.hpp:178-181 | carrying a surviving position forward and back again is the identity |
| `IndexAlgebra.SurviveMonotone` | src/index_set.hpp:178-181 | survivors keep their order |
| `IndexAlgebra.ComposeDeletionsMember` | src/impl/collection_change_builder.cpp:126-128 | a position is deleted by two changes in a row exactly if the first deletes it or the second deletes where it survived to |
| `IndexAlgebra.ComposeInsertionsMember` | src/impl/collection_change_builder.cpp:130-132 | a position is inserted by two changes in a row exactly if the second inserts it or the first inserted where it came from |
| `IndexAlgebra.ComposeSurvive` | src/impl/collection_change_builder.cpp:126-132 | the survivor map of the composed sets is the composition of the survivor maps, for all four sets |
| `IndexAlgebra.InsertAtIsBulk` | src/index_set.cpp:430-533 | inserting or shifting for a run of positions equals the bulk operation on that run |
| `IndexAlgebra.EraseAtIsBulk` | src/index_set.cpp:535-571 | erasing one position equals the bulk erasure of it |
| `IndexRanges.CountPrefix` | src/index_set.cpp:305-315 | summing the lengths of whole ranges counts the members below a point between ranges |
| `IndexRanges.CountPartial` | src/index_set.cpp:317-320 | and adding the part of a straddled range counts the members below a point inside of it |
| `IndexRanges.Inserted` | src/index_set.cpp:88-104 | inserting into one chunk is inserting into the sequence of all ranges, at the rank of the position |
| `IndexRanges.ChunkSplit` | src/index_set.cpp:106-142 | splitting a chunk changes neither the ranges nor the rank of a position |
| `IndexSets.IndexSet.SetRange` | src/index_set.cpp:30-43 | replaces just one range and keeps begin, end and count of its chunk exact |
| `IndexSets.IndexSet.Adjust` | src/index_set.cpp:45-57 | moves the two ends of one range and keeps the caches exact |
| `IndexSets.IndexSet.ShiftBy` | src/index_set.cpp:59-70 | moves one range and keeps the caches exact |
| `IndexSets.IndexSet.PushBack` | src/index_set.cpp:72-86 | appends a range, to a chunk within its size, caches exact |
| `IndexSets.IndexSet.EnsureSpace` | src/index_set.cpp:106-142 | same ranges, and the position with the same rank is in a chunk that has room |
| `IndexSets.IndexSet.Insert` | src/index_set.cpp:88-104 | the ranges get one more at the rank of the position, where the result points; caches exact |
| `IndexSets.IndexSet.Erase` | src/index_set.cpp:144-170 | the ranges lose the one at the position; the result points to the next one, also across chunks |
| `IndexSets.IndexSet.LowerBound` | src/index_set.cpp:339-341 | the first range of a chunk, from an offset on, that ends after the index |
| `IndexSets.IndexSet.Find` | src/index_set.cpp:323-344 | the range that contains an index or else the first one after it, found through the chunk caches |
| `IndexSets.IndexSet.Next` | src/index_set.hpp:283-290 | stepping forward raises the rank by one, across chunks |
| `IndexSets.IndexSet.Prev` | src/index_set.hpp:300-311 | stepping backward lowers the rank by one, across chunks |
| `IndexSets.IndexSet.Stepped` | src/index_set.hpp:205-213 | stepping over single indices leaves exactly the members that are still to come |
| `IndexSets.IndexSet.Contains` | src/index_set.cpp:273-277 | membership |
| `IndexSets.IndexSet.Count` | src/index_set.cpp:279-321 | the number of members between two points, if and only if the end is not inside of the first range of the chunk after the one that the start is strictly inside of; otherwise short by exactly that part |
| `IndexSets.CountLeavesOutPart` | src/index_set.cpp:298-301 | a set of two chunks of which counting finds five of ten members |
| `IndexSets.IndexSet.Unshift` | src/index_set.cpp:667-671 | the chunk-skipping count gives the set's `Unshift`, for every index |
| `IndexSets.IndexSet.Shift` | src/index_set.cpp:656-665 | the loop over ranges gives the set's `Shift` |
| `IndexSets.IndexSet.DoAdd` | src/index_set.cpp:678-707 | union with one index, whether it extends, joins or stands alone; the invariant is kept |
| `IndexSets.IndexSet.Add` | src/index_set.cpp:346-349 | union with one index |
| `IndexSets.IndexSet.AddAll` | src/index_set.cpp:351-357 | union with another set, which may be the same object |
| `IndexSets.IndexSet.AddShifted` | src/index_set.cpp:359-373 | skipping whole chunks, returns the set's `Shift` of the index and adds it |
| `IndexSets.IndexSet.InsertAt` | src/index_set.cpp:430-454 | members at or after the index move back and the gap is filled; the invariant is kept |
| `IndexSets.IndexSet.ShiftForInsertAt` | src/index_set.cpp:487-506 | members at or after the index move back and the gap stays empty, splitting a range if need be |
| `IndexSets.IndexSet.DoErase` | src/index_set.cpp:597-615 | the index is removed and the members after it move forward, joining ranges that come to touch |
| `IndexSets.IndexSet.EraseAt` | src/index_set.cpp:535-540 | the same for any index |
| `IndexSets.IndexSet.EraseOrUnshift` | src/index_set.cpp:573-595 | nothing for a member and its `Unshift` otherwise; the set is as after `EraseAt` |
| `IndexSets.IndexSet.DoRemove` | src/index_set.cpp:617-639 | difference with a run of indices, whatever ranges it cuts |
| `IndexSets.IndexSet.Remove` | src/index_set.cpp:641-644 | difference with a run of indices for every count; the invariant is kept if and only if the run is not empty or not inside of a range |
| `IndexSets.IndexSet.RemoveAll` | src/index_set.cpp:646-654 | difference with another set, also when it stops early |
| `IndexSets.IndexSet.Set` | src/index_set.cpp:422-428 | the indices below a length |
| `IndexSets.IndexSet.Interleaved` | src/index_set.cpp:465-484 | the two-cursor loop gives every member shifted by the positions, and the positions |
| `IndexSets.IndexSet.InsertAllAt` | src/index_set.cpp:456-485 | the same for all pairs of sets, empty ones included; the invariant is kept |
| `IndexSets.IndexSet.Spread` | src/index_set.cpp:515-532 | the two-cursor loop gives every member shifted by the positions |
| `IndexSets.IndexSet.ShiftForInsertAllAt` | src/index_set.cpp:508-533 | the same for all pairs of sets, the shortcuts included; the invariant is kept |
| `IndexSets.IndexSet.Sieved` | src/index_set.cpp:547-570 | the two-cursor loop gives every member outside of the positions, unshifted by them |
| `IndexSets.IndexSet.EraseAllAt` | src/index_set.cpp:542-571 | the same for all pairs of sets; the invariant is kept |
| `IndexSets.IndexSet.BroughtOver` | src/index_set.cpp:388-415 | for all three sets: the members, and every value outside of `shifted_by`, unshifted by it and shifted by the members; the counts are exact if and only if the length is written into unplanned chunks or the counts survive writing 1 |
| `IndexSets.IndexSet.AddShiftedBy` | src/index_set.cpp:375-420 | the same in place: the invariant is kept if and only if the counts survive as written, or always as meant; as many values as the planned chunks have room for are always fine |
| `IndexSets.AddShiftedByMiscounts` | src/index_set.cpp:414-415 | 256 single indices added in front of a range of two: the set is right and the invariant is broken |
| `IndexSets.RemoveNothingTouches` | src/index_set.cpp:625-629 | removing no index from the middle of ten breaks the invariant and leaves the set |
| `IndexSets.IndexSet.CopyTail` | src/index_set.cpp:414-414 | copying the rest as whole ranges leaves the counts exact if and only if no unplanned chunk begins with a range of several indices that comes after all that was brought in |
| `TailCounts.SameRanges` | src/index_set.cpp:172-180 | sorted ranges that never touch are determined by the set |
| `TailCounts.CountsSurviveIff` | src/index_set.cpp:241-252 | the condition on the three sets is the condition on the ranges of the result |
| `TailCounts.GuardSuffices` | src/index_set.cpp:208-217 | a guard that a caller can check: no more values than ranges that the planned chunks still have room for |
| `TailCounts.CountsNeedNotSurvive` | src/index_set.cpp:241-252 | two indices far right and 256 even ones in front of them do not meet the condition |
| `TailCounts.AddingRanges` | src/index_set.cpp:375-416 | adding indices makes at most as many more ranges |
| `IndexBuilding.ChunkedRangeVectorBuilder.PushBack` | src/index_set.cpp:224-252 | the ranges with one more, joined to the last if they touch; as written, counts stay exact if and only if no range of several indices opens an unplanned chunk, otherwise always |
| `IndexBuilding.ChunkedRangeVectorBuilder.Finalize` | src/index_set.cpp:254-265 | the chunks that were filled, in order, all but the last one full; they satisfy the invariant if and only if the counts are exact |
| `TailCounts.GrownChunkMiscounts` | src/index_set.cpp:243-244 | 256 pushes of single indices and one of a range of two, after which a count of the chunks built is wrong |
| `BulkEdits.TakeFirst` | src/index_set.cpp:468-470 | with the positions below passed, a member plus the running shift is its `Shift`, beyond everything built so far |
| `BulkEdits.KeepFirst` | src/index_set.cpp:553-555 | with the positions below passed, a member minus the running shift is its `Unshift`, beyond everything built so far |
| `ChangeSets.LinkedInjective` | src/impl/collection_change_builder.cpp:273-283 | a changeset links no position twice, on either side |
| `ChangeSets.DescribesWithout` | src/impl/collection_change_builder.cpp:532-557 | the old sequence without the deletions is the new one without the insertions, in order |
| `ChangeSets.VerifyChangeset` | src/impl/collection_change_builder.cpp:532-557 | erasing and inserting as a changeset says turns the old sequence into the new one |
| `ChangeSets.ComposeLinks` | src/impl/collection_change_builder.cpp:40-144 | composed sets and composed moves link exactly what the two changes link in a row |
| `ChangeSets.FitsSize` | src/impl/collection_change_builder.cpp:212-217 | old size plus insertions is new size plus deletions |
| `Merging.DropKeepsLinks` | src/impl/collection_change_builder.cpp:146-158 | dropping a stale move with its delete and its insert changes no link |
| `Merging.CleanMeaning` | src/impl/collection_change_builder.cpp:146-158 | the whole pass keeps every link, the moves well formed, the sizes and the modifications, whichever moves were dropped before |
| `Merging.CleanLeavesNoStale` | src/impl/collection_change_builder.cpp:146-158 | and after it no move is stale, although dropping one changes the sets that decide about the others |
| `MergeTheorems.MergedMovesCompose` | src/impl/collection_change_builder.cpp:69-124 | the merged moves are exactly the pairs that the two changesets link in a row and that are a move in one of them |
| `MergeTheorems.MergeComposes` | src/impl/collection_change_builder.cpp:40-144 | for all well-formed changesets the merge, as a function of the two, links exactly what they link in a row; each move goes from a deletion to an insertion and no two share an end |
| `MergeTheorems.MergeFits` | src/impl/collection_change_builder.cpp:40-144 | the sizes fit, end to end |
| `MergeTheorems.MergeDescribes` | src/impl/collection_change_builder.cpp:40-144 | changesets from A to B and from B to C merge into one from A to C, moves included |
| `MergeTheorems.MergeModifications` | src/impl/collection_change_builder.cpp:69-140 | which positions are modified after a merge, if and only if |
| `MergeTheorems.ForgottenModification` | src/impl/collection_change_builder.cpp:99-115 | a row inserted and modified by the first change and moved by the second is not called modified |
| `MergeTheorems.MergeKeepsModifications` | src/impl/collection_change_builder.cpp:69-140 | outside of the insertions: exactly those modified by the second change, or by the first and carried over |
| `LogOperations.InsertComposes` | src/impl/collection_change_builder.cpp:178-192 | an insertion is recorded as the composition with it |
| `LogOperations.EraseComposes` | src/impl/collection_change_builder.cpp:194-210 | an erasure is recorded as the composition with it, moves included |
| `LogOperations.MoveComposes` | src/impl/collection_change_builder.cpp:226-271 | a move is recorded as the composition with it: collapsed with an earlier move, or dropped for an inserted row |
| `LogOperations.ClearComposes` | src/impl/collection_change_builder.cpp:212-224 | a clear is recorded as the deletion of the whole original collection |
| `ListLog.SwapIsTwoMoves` | src/impl/transact_log_handler.cpp:337-347 | the two moves that stand for a swap exchange the two elements, in either order of the arguments, adjacent or not |
| `ListLog.ObserveTracks` | src/impl/transact_log_handler.cpp:315-360 | after any event the builder links exactly the positions of the same element |
| `ListLog.ObserveMarks` | src/impl/transact_log_handler.cpp:315-360 | and its modifications are exactly the positions of the elements that were set |
| `ListLog.RunTracks` | src/impl/transact_log_handler.cpp:315-360 | both for every run of insert, erase, set, move, swap and clear, from any earlier changeset |
| `ListLog.ReportIsTheChange` | src/impl/transact_log_handler.cpp:279-282 | and for what is reported, after stale moves are cleaned up |
| `ListLog.ReportInPositions` | src/impl/transact_log_handler.cpp:279-360 | for every run: old minus deletions is new minus insertions, the sizes add up, every move joins the same element, and none is stale |
| `ChangeBuilder.CollectionChangeBuilder.Insert` | src/impl/collection_change_builder.cpp:178-192 | in place, on the index sets: the composition of what they held with the insertion, moves retargeted; the invariant of the sets is kept |
| `ChangeBuilder.CollectionChangeBuilder.Modify` | src/impl/collection_change_builder.cpp:160-166 | adds a modification and leaves the rest |
| `ChangeBuilder.CollectionChangeBuilder.Erase` | src/impl/collection_change_builder.cpp:194-210 | in place, on the index sets: the composition of what they held with the erasure, the move of the erased row dropped |
| `ChangeBuilder.CollectionChangeBuilder.Clear` | src/impl/collection_change_builder.cpp:212-224 | in place, on the index sets: the composition of what they held with the deletion of everything, for a size that fits |
| `ChangeBuilder.CollectionChangeBuilder.MoveRow` | src/impl/collection_change_builder.cpp:226-271 | in place, on the index sets: the composition of what they held with the move, whichever of the three cases applies |
| `ChangeBuilder.CollectionChangeBuilder.CleanUpStaleMoves` | src/impl/collection_change_builder.cpp:146-158 | the loop that erases from the moves while it goes through them keeps every link and leaves no stale move |
| `ChangeBuilder.CollectionChangeBuilder.Merge` | src/impl/collection_change_builder.cpp:40-144 | in place, on six index sets: as meant always, and as written if the counts survive bringing the deletions in, what the two builders linked in a row is linked, all sets keep their invariant, and the other builder is left empty |
| `ChangeBuilder.CollectionChangeBuilder.MergeSets` | src/impl/collection_change_builder.cpp:126-132 | deletions and insertions become those of the composition; as written the deletions keep exact counts under the condition |
| `ChangeBuilder.CollectionChangeBuilder.RedirectMoves` | src/impl/collection_change_builder.cpp:69-97 | every old move is carried on with its row, along a new move if there is one, and dropped with a deleted row |
| `ChangeBuilder.CollectionChangeBuilder.Finalize` | src/impl/collection_change_builder.cpp:653-673 | hands out the builder's own deletions, insertions and moves, as modified in the new numbering the modified rows that are not inserted, and as modified in the old one exactly the rows that are not deleted and survive to a modified position |
| `ChangeBuilder.FinalizeMatches` | src/impl/collection_change_builder.cpp:653-673 | of every builder's value: what is handed out is what it holds, and the old and the new modifications match one to one through the survivor map and are equally many; none is deleted or inserted |
| `ChangeInfo.ReportsMerge` | src/impl/realm_coordinator.cpp:880-889 | reports over two stretches of a list's history merge into a report over both, no element having left and come back, which the records guarantee |
| `ChangeInfo.AttachKeepsConsistent` | src/impl/realm_coordinator.cpp:841-853 | attaching a list at a later version keeps every earlier record right |
| `ChangeInfo.EventKeepsConsistent` | src/impl/transact_log_handler.cpp:262-273 | an event that goes to the last record of a list keeps every record right |
| `ChangeInfo.CleanKeepsConsistent` | src/impl/transact_log_handler.cpp:279-282 | so does cleaning up stale moves |
| `ChangeInfo.CombineStep` | src/impl/realm_coordinator.cpp:880-889 | merging a later record into an earlier one extends what the earlier one covers, in the order of the nested loops |
| `ChangeInfo.TransactionChangeInfo.AddList` | src/impl/list_notifier.cpp:64-64 | one more record, of the list as it is now; all others stay right |
| `ChangeInfo.TransactionChangeInfo.SelectList` | src/impl/transact_log_handler.cpp:308-313 | events go to the last record of the list from now on, if there is one |
| `ChangeInfo.TransactionChangeInfo.FindList` | src/impl/transact_log_handler.cpp:262-273 | the last record of a list, and none if and only if there is no record of it |
| `ChangeInfo.TransactionChangeInfo.OnEvent` | src/impl/transact_log_handler.cpp:315-360 | the event changes the list and just the builder that is selected; all records stay right |
| `ChangeInfo.TransactionChangeInfo.ParseComplete` | src/impl/transact_log_handler.cpp:279-282 | every builder is cleaned; all records stay right |
| `ChangeInfo.TransactionChangeInfo.CombineLists` | src/impl/realm_coordinator.cpp:880-889 | afterwards every notifier's builder links exactly the same elements between its own version and the final one, and marks, of the elements that were there at its own version, exactly those that were set since |
| `Sorting.Sort` | src/impl/collection_change_builder.cpp:512-514 | sorted and a permutation |
| `Matching.BlockEndingIsLongest` | src/impl/collection_change_builder.cpp:404-413 | the length that the search computes for a cell is at least that of any common block ending there |
| `Matching.LongestCommonSubsequenceCalculator.MatchRow` | src/impl/collection_change_builder.cpp:415-461 | one row of the search: an entry for every match in the window, and the best block so far |
| `Matching.LongestCommonSubsequenceCalculator.FindLongestMatch` | src/impl/collection_change_builder.cpp:392-462 | a common block in the window, no shorter than any other, whatever the tie-break |
| `Matching.LongestCommonSubsequenceCalculator.FindLongestMatches` | src/impl/collection_change_builder.cpp:464-479 | terminates; appends, in order, the blocks of a search in which each is a longest one of its window and both sides of it are searched where the code does |
| `Matching.SearchIsChain` | src/impl/collection_change_builder.cpp:464-479 | the blocks of any such search are genuine, inside of the window, and in order and disjoint in both sequences |
| `Matching.SearchHasLongest` | src/impl/collection_change_builder.cpp:464-479 | no common block of the window is longer than all of them |
| `MissedBlocks.MissedAt` | src/impl/collection_change_builder.cpp:464-479 | a common key could stay in addition to all blocks if and only if it lies in a window to the right of a block that is not searched |
| `MissedBlocks.MaximalIff` | src/impl/collection_change_builder.cpp:477-478 | nothing that could stay is left out if and only if no such window has a common key |
| `MissedBlocks.SkippedBeyondEnd` | src/impl/collection_change_builder.cpp:477-478 | such a window with a common key begins in the old sequence at or beyond its end in the new one |
| `MissedBlocks.ForwardIsMaximal` | src/impl/collection_change_builder.cpp:464-479 | nothing is left out unless a block comes earlier in the new sequence than in the old one |
| `MissedBlocks.FourIsMissed` | src/impl/collection_change_builder.cpp:477-478 | nine rows of which one is moved although it could stay, whichever blocks are preferred |
| `Diff.KeptDescribes` | src/impl/collection_change_builder.cpp:520-529 | keeping any aligned subsequence and deleting and inserting the rest is a correct changeset |
| `Diff.BuildRowInfo` | src/impl/collection_change_builder.cpp:616-623 | the rows with their positions, sorted by key |
| `Diff.Pair` | src/impl/collection_change_builder.cpp:563-588 | each old row is paired with at most one new row of the same key; just the unpaired ones are deleted or inserted |
| `Diff.TableOrderDescribes` | src/impl/collection_change_builder.cpp:604-605 | for strictly increasing sequences the pairing alone is correct |
| `Alignment.Align` | src/impl/collection_change_builder.cpp:520-529 | what is kept are exactly the common prefix and the runs of the matched blocks, and deletions and insertions are exactly the rest |
| `Alignment.KeptAtLeast` | src/impl/collection_change_builder.cpp:464-529 | prefix and blocks together are no shorter than any common block of the two orders |
| `Alignment.CalculateMovesSorted` | src/impl/collection_change_builder.cpp:482-530 | the rows that stay are exactly those of the longest common prefix and of the blocks of a search of the rest; the sets are correct for the two sequences, no common block of the paired rows is longer than the rows that stay are many, and equal orders change nothing |
| `Calculation.ModifiedRows` | src/impl/collection_change_builder.cpp:598-602 | exactly the rows whose key did change |
| `Calculation.Calculate` | src/impl/collection_change_builder.cpp:559-630 | for all sequences, with duplicates: a maximal pairing by key, of which exactly prefix and blocks stay; the changeset turns the old sequence into the new one, equal ones give no change, and modified are exactly the paired rows with a changed key. Without duplicates: at least as many rows stay as any common block has, and no row that is deleted and inserted again is in order with all that stay if and only if no window that was skipped has a common row, in particular if no row that stays has come forward. In table order for all strictly increasing sequences |
| `Calculation.SearchedWithoutRepeats` | src/impl/collection_change_builder.cpp:464-529 | without duplicates, for the two results and the change alone: which rows stay, by their rank among the rows in both results, and when nothing else could |
| `KeptRows.SharedIs` | src/impl/collection_change_builder.cpp:563-588 | the paired rows in either order are the rows of one result that are in the other, too |
| `KeptRows.StaysByRank` | src/impl/collection_change_builder.cpp:520-529 | a row stays if and only if its rank among those rows is in the common prefix or in a block |
| `KeptRows.MaximalMeans` | src/impl/collection_change_builder.cpp:464-479 | that the blocks leave nothing out means that every common key outside of them is out of order with one that stays |
| `KeptRows.NothingElseIff` | src/impl/collection_change_builder.cpp:477-478 | every row that is deleted and inserted again is out of order with one that stays if and only if no window that was skipped has a common row |
| `KeptRows.ForwardSuffices` | src/impl/collection_change_builder.cpp:464-479 | and that is so if before no row that stays there are more common rows in the old result than in the new one |
| `Calculation.EqualArePaired` | src/impl/collection_change_builder.cpp:563-588 | between equal sequences every row is paired, duplicates or not |
| `Calculation.DistinctKeepLongest` | src/impl/collection_change_builder.cpp:482-530 | without duplicates a common block of the results is one of the paired rows, so that at least as many rows stay |
| `DeepChange.Links.ReachOrReturn` | src/impl/collection_notifier.cpp:122-134 | a path to a modified object that goes through a blocked link either avoids it or comes back to where it starts |
| `DeepChange.MemoRulesOut` | src/impl/collection_notifier.cpp:177-180 | what is remembered as unmodified stays ruled out for every later search, at every depth |
| `DeepChange.SearchedColumn` | src/impl/collection_notifier.cpp:136-150 | a link that was searched without result is ruled out as far as the search may be cut short |
| `DeepChange.DeepChangeChecker.AlreadyChecking` | src/impl/collection_notifier.cpp:122-134 | an entry that is being searched already marks the path from it on as cut short; otherwise it is put on the path |
| `DeepChange.DeepChangeChecker.CheckRow` | src/impl/collection_notifier.cpp:155-181 | true only if a modified object is in reach; false rules the object out, relative to the path |
| `DeepChange.DeepChangeChecker.Check` | src/impl/collection_notifier.cpp:183-188 | for any links, single ones and lists, and any queries before: true if and only if the object, or one behind at most three links, is modified |
| `Related.RelatedTables.SetTable` | src/impl/collection_notifier.cpp:74-94 | exactly the tables that can be reached through link columns, once each, each with all its links |
| `Related.RelatedColumnsIdentifyTables` | src/impl/collection_notifier.cpp:74-94 | where column keys belong to one table, so do the links of the related tables |
| `LinkedChanges.ReachIsModifiedWithin` | src/impl/collection_notifier.cpp:74-153 | what can be reached over the related tables is what the link and list columns of the catalog lead to, within any number of links |
| `LinkedChanges.CheckAll` | src/impl/collection_notifier.cpp:74-188 | for any catalog whose keys identify columns, looking up the tables and asking for any objects in turn: true if and only if the object, or one behind at most three links or list entries of the catalog, is modified |
| `Delivery.CollectionNotifier.AddCallback` | src/impl/collection_notifier.cpp:208-220 | a new token at the end; the pass under way is not affected |
| `Delivery.CollectionNotifier.RemoveCallback` | src/impl/collection_notifier.cpp:222-246 | removes just that callback and keeps index and count in step with the pass, short by the removals of callbacks that were not packaged |
| `Delivery.CollectionNotifier.PackageForDelivery` | src/impl/collection_notifier.cpp:383-392 | everything present is packaged |
| `Delivery.CollectionNotifier.ForEachCallback` | src/impl/collection_notifier.cpp:394-406 | whatever the script of the callbacks adds and removes: visited, in order and once each, are exactly the packaged callbacks that no earlier one has removed and that are not still due in the end; the roster is what the script of those visited makes of it; the pass goes on exactly while more are due than there were stray removals; it stops only if the script removes what is not there, or after more strays than callbacks |
| `Delivery.CollectionNotifier.DeliverError` | src/impl/collection_notifier.cpp:358-375 | the same for errors; without stray removals each callback present is visited unless an earlier one removed it, and none of them is left; if nothing is removed, all are visited in order |
| `Delivery.CollectionNotifier.RunActions` | src/impl/collection_notifier.cpp:208-246 | the roster after a callback's additions and removals, who was removed before their turn, and how many removals were strays |
| `Delivery.PassedOverAreDue` | src/impl/collection_notifier.cpp:394-406 | those passed over are exactly those still due in the end |
| `FullPass.FullPassIsFull` | src/impl/collection_notifier.cpp:394-406 | for every roster and script: the full pass visits the next callback in turn until no packaged one is due |
| `FullPass.FullPassUnique` | src/impl/collection_notifier.cpp:394-406 | and it is the only pass that does |
| `FullPass.FullyDeliveredIff` | src/impl/collection_notifier.cpp:394-406 | a delivery visits the beginning of the full pass, and all of it if and only if at every turn of the full pass more callbacks are due than there have been stray removals |
| `FullPass.NobodyPassedOverIff` | src/impl/collection_notifier.cpp:239-239 | the same condition on roster and script holds if and only if every packaged callback that no earlier one has removed is visited |
| `FullPass.FullPassOfTwo` | src/impl/collection_notifier.cpp:239-239 | for the roster and the script of the instance the full pass visits both, and the condition fails |
| `Delivery.AllDelivered` | src/impl/collection_notifier.cpp:394-406 | with a script that removes packaged callbacks only, nobody is passed over, and after an error nobody is left |
| `Delivery.NobodyRemoved` | src/impl/collection_notifier.cpp:394-406 | with a script that removes nobody, everybody is visited in order |
| `Delivery.StrayRemovalSkips` | src/impl/collection_notifier.cpp:239-239 | a callback that adds another and removes it makes the pass end before a packaged one is visited |
| `FullPass.StrayScriptVisitsOne` | src/impl/collection_notifier.cpp:239-239 | with that script every pass visits the first of two callbacks only, although nobody removes the second |
| `Syncing.StepKeepsConsistent` | src/sync/sync_session.cpp:109-258 | each step moves callbacks between pending, in flight, aside, invoked and lost and neither drops nor duplicates one |
| `Syncing.RunConsistent` | src/sync/sync_session.cpp:109-258 | in every run, at every point, each callback that was given is in exactly one of these places |
| `Syncing.InvokedAtMostOnce` | src/sync/sync_session.cpp:723-756 | in every run every callback is invoked at most once, and only if it was given |
| `Syncing.GivenIsAccounted` | src/sync/sync_session.cpp:723-756 | a callback that was given is pending, in flight, aside or invoked if and only if it was not lost |
| `Syncing.NothingLostIff` | src/sync/sync_session.cpp:366-378 | a run loses nothing if and only if no resync ends while other callbacks are pending |
| `Syncing.UninterruptedResync` | src/sync/sync_session.cpp:366-378 | with the resync taken as one step nothing is ever lost |
| `Syncing.InterruptedResyncLoses` | src/sync/sync_session.cpp:366-378 | a run that loses a callback |
| `Syncing.RunRegistered` | src/sync/sync_session.cpp:121-130 | in particular while no resync ends after a revival, every pending request of a live session will be reported |
| `Syncing.StepKeepsRegisteredIff` | src/sync/sync_session.cpp:121-130 | a step keeps all pending requests known to a live session if and only if it puts no unknown entries back into one |
| `Syncing.RunRegisteredIff` | src/sync/sync_session.cpp:121-130 | they are known throughout a run if and only if no step of it does that |
| `Syncing.StaleRequestIsIgnored` | src/sync/sync_session.cpp:121-130 | after a revival the completion of an earlier request has no effect at any later point of the run, until a resync puts an entry of that request back |
| `Syncing.RunInOrder` | src/sync/sync_session.cpp:723-740 | in every run pending requests, and those set aside, are on record in the order of their numbers, no two of them the same |
| `Syncing.RequestTakesOutItsOwn` | src/sync/sync_session.cpp:744-755 | in every run the completion of a request takes out exactly the callback filed under it, if there is one, and leaves all others pending in order |
| `Syncing.FiledAsGiven` | src/sync/sync_session.cpp:113-130 | through any number of revivals and resyncs every callback stays filed for the kind of transfer that it was given for |
| `Syncing.DeactivatesIff` | src/sync/sync_session.cpp:132-246 | which steps end a live session, and that all that was pending is then about to be invoked, but for a resync |
| `Syncing.ActivatesIff` | src/sync/sync_session.cpp:113-130 | which steps make a session active, and that what was pending is filed again in order, for the same kind, under the next numbers |
| `Syncing.UploadEndsItsOwnPeriod` | src/sync/sync_session.cpp:175-193 | an upload completion that deactivates the session was awaited in the very period of dying that it ends |
| `Syncing.SessionExistsIff` | src/sync/sync_session.cpp:113-236 | in every run the underlying session exists exactly while active or dying |
| `Syncing.SyncSession.AdvanceToActive` | src/sync/sync_session.cpp:113-130 | in place: active with an underlying session, which knows of all pending callbacks, filed again in order, for the same kind, under the next numbers |
| `Syncing.SyncSession.AdvanceToInactive` | src/sync/sync_session.cpp:224-246 | in place: inactive without an underlying session, and all pending callbacks are about to be invoked, in order |
| `Syncing.SyncSession.AdvanceToDying` | src/sync/sync_session.cpp:175-193 | in place: dying for the next time with everything as it was, or inactive without an underlying session |
| `Syncing.SyncSession.CancelWaits` | src/sync/sync_session.cpp:545-555 | in place: all pending callbacks are about to be invoked, in order, and nothing else changes; the ledger is kept |
| `Syncing.SyncSession.AddCompletionCallback` | src/sync/sync_session.cpp:723-740 | in place: filed under the next request, which a live underlying session is told |
| `Syncing.SyncSession.WaitForCompletion` | src/sync/sync_session.cpp:758-768 | in place: one more callback is given, and pending under the next number for its kind; the ledger is kept |
| `Syncing.SyncSession.ReviveIfNeeded` | src/sync/sync_session.cpp:202-207 | in place: active afterwards, from either other state; the ledger is kept |
| `Syncing.SyncSession.CloseSession` | src/sync/sync_session.cpp:144-158 | in place: inactive, unchanged or dying, as the stop policy says; the ledger is kept |
| `Syncing.SyncSession.LogOutSession` | src/sync/sync_session.cpp:132-135 | in place: inactive afterwards; the ledger is kept |
| `Syncing.SyncSession.OnUploadCompleted` | src/sync/sync_session.cpp:185-192 | in place: deactivates only the period of dying that it was registered in; the ledger is kept |
| `Syncing.SyncSession.OnRequestCompleted` | src/sync/sync_session.cpp:744-755 | in place: exactly the callback filed under the request is about to be invoked, the others stay pending in order, and without one nothing changes; the ledger is kept |
| `Syncing.SyncSession.BeginResync` | src/sync/sync_session.cpp:366-372 | in place: the pending callbacks are set aside and not cancelled; the ledger is kept |
| `Syncing.SyncSession.EndResync` | src/sync/sync_session.cpp:374-376 | in place: they replace whatever is pending by then, which is lost; the ledger is kept |
| `Watching.DecodeEncode` | src/sync/mongo_collection.cpp:575-604 | decoding undoes the encoding of percent signs, line feeds and carriage returns, for every string |
| `Watching.DecodeData` | src/sync/mongo_collection.cpp:570-606 | the loop over percent signs computes that decoding |
| `Watching.UnknownEscapeStays` | src/sync/mongo_collection.cpp:597-602 | an escape that the server does not send stays as it is, and so does one that is cut off |
| `Watching.LineGathers` | src/sync/mongo_collection.cpp:522-568 | an event line sets the type, a data line appends its value and a line feed, comments and other fields change nothing, in each way to write them and with either line ending |
| `Watching.SentIsReceived` | src/sync/mongo_collection.cpp:490-568 | a stream of any events is read as one outcome after another: with data, the decoded values joined by line feeds, as a document or a malformed event, as a server error, or as nothing, by the last event line; an error ends it |
| `Watching.ReadAppend` | src/sync/mongo_collection.cpp:490-520 | reading a stream in two pieces, wherever it is cut, is reading it at once |
| `Watching.WatchStream.FeedLine` | src/sync/mongo_collection.cpp:522-568 | in place: what a written line adds to the event in preparation, an empty line dispatches and starts anew |
| `Watching.WatchStream.AdvanceBufferState` | src/sync/mongo_collection.cpp:496-520 | consuming complete lines and sliding the rest does not change what the stream still means |
| `Watching.WatchStream.FeedBuffer` | src/sync/mongo_collection.cpp:490-494 | what the stream still means is continued by the input |
| `Watching.WatchStream.NextEvent` | src/sync/mongo_collection.hpp:466-472 | the event handed out is the first of what the stream still means |
| `Watching.Watch` | src/sync/mongo_collection.cpp:490-520 | fed in any pieces and drained in between, events and error are those of the concatenation read at once, and if that is a stream of written events, those that they mean |
| `Watching.ReadEvents` | src/sync/mongo_collection.cpp:522-606 | a stream of properly written events, any texts, is read as those events, with nothing left over |
| `Embedding.CleanWalk` | src/schema.cpp:91-118 | a clean search reaches along every walk without meeting a type twice |
| `Embedding.CleanMeansNoCycle` | src/schema.cpp:91-118 | a search from a type on a cycle is not clean |
| `Embedding.CleanLeadsNowhere` | src/schema.cpp:91-118 | from a type whose search is clean no cycle can be reached |
| `Embedding.DoCheck` | src/schema.cpp:91-118 | terminates; a path is reported if and only if a cycle can be reached from the type |
| `Embedding.CheckForEmbeddedObjectsLoop` | src/schema.cpp:120-134 | one error for each embedded type from which a cycle can be reached, and so at least one if and only if the links between embedded types contain a cycle |

## Left out

- The per-column maps of a builder and `m_track_columns`: the argument about `modifications`, once per column.
- 64-bit wrap-around: indices are naturals and `npos` is an option; a builder is cleared with a size that fits its changeset.
- `max_size` is 256 as in release builds; debug builds use 4, which is even as well.
- ChangeBuilder.CollectionChangeBuilder.Merge: as written only where the counts survive; what it does on sets with inexact counts is not modelled.
- ChangeInfo.TransactionChangeInfo.CombineLists: says nothing about marks of rows inserted since the notifier's own version, which merges may forget and delivery drops.
- IndexSets.IndexSet.DoRemove: not for an empty run, which is `IndexSets.IndexSet.RemoveNothing`.
- IndexSets.IndexSet.RemoveAll: the other set must be another object, since the source would iterate over what it removes.
- Minimality of the calculated changeset: blocks are chosen greedily, longest first; what is claimed is which rows stay and when none of the rest could stay in addition.
- The tie-break between equally long blocks is an arbitrary function of the two positions, since it rests on the inexact count.
- `insert` without tracking moves keeps only the modifications in step, and nothing is claimed about the other sets.
- What happens to the records of a list when its owning object is removed or its table is cleared.
- `ObjectChangeSet` and its merge, and the tables of a `TransactionChangeInfo`.
- `get_modification_checker` and its shortcuts; the single-table shortcut is not the deep check.
- `ListResultsNotifier` and the translation for key-value observation.
- `ConnectionChangeNotifier` delivers in the same way as `CollectionNotifier` and is not written out again.
- Threads, condition variables and the lifetimes of weak and shared pointers: a step is what happens while a lock is held.
- Assertions in the source are preconditions, or make a step not enabled: a second transition to the state a session is in, a fatal error of a dying session followed by a client reset.
- Failing to create the underlying session, the refresh of access tokens as more than one step, progress notifiers and user switching.
- `bson::parse` is an uninterpreted reader of texts; `id` and `retry` lines are ignored as in the source.
- The text of an error path of the embedded check: only whether there is an error is claimed.
- Schema migration, schema caches, list assignment, network, credentials, files and metadata.
- The core types `Group`, `Table`, `Query`, `TableView` and `Transaction`: a list is a sequence and a link graph is a relation.
