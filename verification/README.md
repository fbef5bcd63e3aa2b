# Operational transformation of text in libinftext

This project models the text core of libinftext, the collaborative editing engine of libinfinity, and proves
that it does what it is for: every participant ends up with the same text, whoever wrote what and in whatever
order edits arrive; a deletion that travelled as a position and a length can still be undone; and the data
structure that holds the text is a sequence of characters with their authors.

| file | what it holds |
|---|---|
| `text.dfy`, `masks.dfy` | characters with authors; sequences seen through insertions and deletions |
| `operations.dfy` | insertions and deletions (default, remote, split) and how one is transformed against another |
| `effects.dfy` | what operations do to a document; transforming an operation carries its effect along |
| `convergence.dfy` | effects and requests carried past one another; any number of requests in any order |
| `truth.dfy` | a default deletion always names the text that stands where it deletes |
| `reconstruction.dfy`, `reversal.dfy` | what a remote deletion collects on its way, and that it is the whole text |
| `siblings.dfy` | the parts of a split, the two ends of a connection |
| `paths.dfy` | two operations in either order and three along either path, remote deletions included |
| `sites.dfy` | sites that take in each other's requests, remote deletions included, and their logs |
| `merging.dfy` | the document to which concurrent requests lead, told without transforming; whose text stands first |
| `leaves.dfy` | how many leaves a deletion has after any run, and when one of them is empty |
| `splitundo.dfy` | reverting a split deletion: a tree of insertions, and when it brings the document back |
| `utf8.dfy`, `encoding.dfy` | characters as bytes, after section 4 of RFC 3629, and as the encodings of character numbers, after section 3 |
| `segments.dfy`, `joints.dfy`, `edits.dfy`, `equality.dfy` | lists of segments: canonical form, cutting, joining, comparing |
| `chunk.dfy` | the chunk, a rope of segments that is changed in place |
| `buffers.dfy`, `defaultoperations.dfy`, `remotedelete.dfy` | the buffer and the operations as objects, with the loops of the source |
| `sync.dfy` | sending the text to a new participant and taking it in |
| `selection.dfy`, `throttle.dfy` | caret and selection past edits of others, and the delay of their broadcast |

## How the model is built

*Effects.* A deletion of a document of n characters is a mask of n Booleans, an insertion is a gap and a text. The
transformation functions are written out branch by branch as in the source; the lemmas of `effects.dfy` say that
each of them carries the mask or the gap of an operation through the other operation. Convergence is then a
statement about masks and gaps, and `Merging.IntegrateMerges` says which document concurrent requests come to.

*Assertions.* Code that contains an assertion which can fail returns an `Outcome`: `Done` with a value, or
`AssertionFailed`. Which assertions can fail, and when they cannot, is part of what is proved.

*Splits.* Both parts of a split deletion stand in one document. Applying a split applies the first part and then the
second one transformed against it; transforming against a split goes the same way; transforming a split transforms
both parts (`libinfinity/adopted/inf-adopted-split-operation.c:259-297`, `347-365`, `545-567`).

*Objects.* The chunk, the buffer, the default and the remote operations and the session's record of a local user are
classes whose methods change their fields as the source does. Their contracts give the whole new state, as a function
of the old one.

*Assumptions, made once.* Numbers are unbounded: no document, offset or length reaches the width of an unsigned
integer. Inserted texts are not empty where a tie that a deletion made is concerned. Operations lie inside the document
they are defined on. The encoding of a chunk is UTF-8.

## Where the code does not do what its documentation says

* `inf_text_chunk_equal` promises that the same segments were written by the same authors but never looks at an
  author. `Equality.SameTextsMeansSameChanges` says what it does find out, `Equality.AuthorsAreNotCompared` gives two
  chunks that differ in the author and are found equal.
* `inf_text_move_operation_transform_delete` turns a selection round if the deletion reaches from inside the selection
  over its right end (lines 542-546 and 577-581). `Selections.SelectedPastLeaf` says that this is the only case in
  which the selection is not what is left of it, `Selections.SelectionTurnsRound` gives two examples, and
  `Selections.SelectedPastDeletion` gives the case for deletions that have been split.
* The parts of a split deletion can come to meet, when the text that once split them is deleted
  (`SplitUndo.LeavesCanMeet`). Reverting such a split runs into the assertion behind the remark that two such insertions at one position are illegal
  (`libinftext/inf-text-insert-operation.c:236-245`, `SplitUndo.SplitReverts`).
* The check of the texts before a default deletion is applied (compiled out in releases) does not compare authors, so
  a deletion can pass it and still not be undone exactly (`DefaultOperations.MatchIgnoresAuthors`);
  `DefaultOperations.DeleteAndRevert` gives the exact condition.
* A text without characters leaves a chunk, and a buffer, that is not canonical, unless a segment by the same author
  takes it in (`Chunks.Chunk.InsertText`, `Synchronization.ProcessXmlSync`).

## Model

| member | source | states |
|---|---|---|
| Sites.SitesConverge | libinfinity/adopted/inf-adopted-algorithm.c:1479-1600 | requests are made concurrently on one document; a site takes them in in any order, its own deletions as default and those of others as remote ones, each brought to the current state along any path through the log, applied, and logged as made reversible: no assertion fails, all sites end with the same document with authors, and every log holds the requests as they were made |
| Merging.IntegrateMerges | libinfinity/adopted/inf-adopted-algorithm.c:900-984 | taking in any number of concurrent requests one after the other, each transformed past those before, gives the document that a definition without any transformation gives: the old characters that none of them deletes, and every inserted text at its position, at one position in the order of the users with the larger number first |
| Merging.SitesMerge | libinfinity/adopted/inf-adopted-algorithm.c:1479-1600 | every site ends with that document, whatever its order of requests and its paths |
| Merging.LargerUserFirst | libinfinity/adopted/inf-adopted-request.c:701-716 | when two users type at one position, the text of the user with the larger number stands first, in whatever order the requests are taken in |
| Merging.EarlierTextFirst | libinftext/inf-text-insert-operation.c:156-191 | when a third user deletes all that stands between two insertions, the text that came in at the earlier position stands first, whoever the users are and in every order |
| Sites.TextIsNotSent | libinftext/inf-text-session.c:1698-1714 | what a site gets to see of another user's deletion does not depend on the deleted text |
| Sites.TakenIn | libinfinity/adopted/inf-adopted-algorithm.c:1542-1600 | one such step: a remote deletion does to the document what it would do if its text had been known, and is logged with exactly that text |
| Sites.TranslateGenuine | libinfinity/adopted/inf-adopted-algorithm.c:1080-1135 | a request that matches the common document matches the current one along any path, and nothing fails |
| Sites.TranslateDeletion | libinfinity/adopted/inf-adopted-algorithm.c:900-984 | a deletion, default or remote, goes past the operations as which the requests of the path are executed, whatever ids are given |
| Sites.IntegrateSnoc | libinfinity/adopted/inf-adopted-algorithm.c:900-984 | taking in one request more applies what it is past all the others, so the path seen from its end and from its beginning lead to one document |
| Paths.ThreeWayConvergence | libinftext/inf-text-insert-operation.c:124-191 | an insertion, a default deletion, split or not, or a remote deletion with whatever it has recorded has the same effect past two logged requests along both paths (TP2), when a tie goes by the operations on the common document and a true tie by user; nothing fails |
| Paths.TwoWayConvergence | libinftext/inf-text-delete-operation.c:173-311 | for every document, both orders of two operations, nested splits included and one of them possibly a remote deletion on its way, give the same document (TP1), and nothing fails |
| Paths.NewIsRecorded | libinftext/inf-text-session.c:1698-1714 | a remote deletion as it arrives, a position and a length inside the document, is one that these results cover |
| Paths.RecordedPast | libinftext/inf-text-remote-delete-operation.c:522-651 | past any matching operation a remote deletion stays complete and its parts in order |
| Paths.RemotePastRemote | libinftext/inf-text-remote-delete-operation.c:537-540 | the assertion against another remote deletion fails if and only if the two overlap |
| Convergence.TieMadeByDeletion | libinftext/inf-text-insert-operation.c:156-191 | the two paths of an insertion past a deletion and another insertion meet if and only if a tie that the deletion made goes by the positions before it |
| Convergence.ReversibleNeverFails | libinftext/inf-text-default-delete-operation.c:199-227 | insertions and default deletions never fail an assertion, neither when applied nor when transformed, and stay what they are |
| Convergence.TransformRequestCarries | libinfinity/adopted/inf-adopted-request.c:665-730 | transforming a request, remote deletions included, carries its effect, with the place among insertions given by original position and user |
| Convergence.CarryPaths | libinftext/inf-text-insert-operation.c:260-296 | the core of TP2 on effects: any edit past two others ends up the same along both paths |
| Convergence.CarryKeepsCoherence | libinftext/inf-text-insert-operation.c:204-247 | insertions keep the order of their places past any third edit |
| Convergence.EnactAnyOrder | test/README:28-33 | a set of coherent edits has one outcome, whatever the order |
| Effects.DeletionAgainstDeletionMask | libinftext/inf-text-delete-operation.c:225-311 | a deletion past a deletion, splits on both sides, deletes exactly what the other one left of its characters |
| Effects.LeafAgainstLeafInterval | libinftext/inf-text-delete-operation.c:225-311 | in all overlap cases the range starts at the image of its start and loses what it shares |
| Effects.DeletionAgainstInsertMask | libinftext/inf-text-delete-operation.c:173-212 | a deletion past an insertion deletes the same characters and none of the new ones, split or not |
| Leaves.PiecesPastInsert | libinftext/inf-text-delete-operation.c:196-211 | an insertion makes one leaf more of every leaf that it comes strictly inside of, none of any other, and makes no leaf empty |
| Leaves.NoneEmptyPastDeletion | libinftext/inf-text-delete-operation.c:252-305 | past a deletion of any shape a leaf is empty if and only if that has taken all its text |
| Leaves.PiecesAlong | libinftext/inf-text-delete-operation.c:173-311 | over any run the number of leaves grows by exactly the insertions strictly inside leaves |
| Leaves.NoneEmptyAlong | libinftext/inf-text-delete-operation.c:173-311 | over any run a leaf is empty in the end if and only if it was in the beginning or a deletion has taken all the text a leaf still had |
| Effects.PositionAgainstDeletionRank | libinftext/inf-text-insert-operation.c:260-296 | an insertion past a deletion stands behind as many survivors as before |
| Effects.ApplyDeletion | libinfinity/adopted/inf-adopted-split-operation.c:347-365 | applying the first part and then the transformed second one deletes the union of both |
| Truth.GenuinePastGenuine | libinftext/inf-text-default-delete-operation.c:52-90 | an operation that matches the text still does after it has been transformed against one that is then applied |
| Truth.TruthfulPastInsert | libinftext/inf-text-default-delete-operation.c:357-404 | every leaf of a default deletion still names the text at its position past an insertion, in two parts if it was split |
| Truth.TruthfulPastDeletion | libinftext/inf-text-default-delete-operation.c:329-355 | the same past a deletion of any shape: what is cut out of the chunk is what was cut out of the document |
| Reversal.UndoReconstruction | libinftext/inf-text-remote-delete-operation.c:391-482 | a remote deletion of any range, past any sequence of insertions and matching default deletions, becomes without a failed assertion the default deletion at its original position whose chunk is the original text, author for author |
| Reversal.RecoversAlong | libinftext/inf-text-remote-delete-operation.c:522-651 | over a whole run the leaves tile the original text at their recon offsets and nothing is lost |
| Reversal.CollectsAll | libinftext/inf-text-remote-delete-operation.c:429-470 | collecting the leaves in order yields the text without a gap, so the equality assertion never fails |
| Reversal.LeafAppends | libinftext/inf-text-remote-delete-operation.c:435-466 | one leaf yields its own part of the original text, from what it recorded and what is still in the document |
| Reconstruction.FeedRecords | libinftext/inf-text-remote-delete-operation.c:139-196 | feeding a text into a recon list keeps it sorted, disjoint and without empty texts, and keeps the original text complete |
| Reconstruction.SplitRecords | libinftext/inf-text-remote-delete-operation.c:598-641 | dealing a recon list out to two parts keeps each of them a complete record of its part, and no assertion fails |
| Reconstruction.RecordedAtTheCut | libinftext/inf-text-remote-delete-operation.c:603-620 | what was recorded exactly where the deletion is cut stays with the first part, and the second part counts on behind it |
| Reconstruction.RecordsLength | libinftext/inf-text-remote-delete-operation.c:139-196 | the length that is left and the recorded texts add up to the original length |
| Reconstruction.RecoversPastInsert | libinftext/inf-text-remote-delete-operation.c:573-651 | an insertion, splitting or not, takes nothing from the text a remote deletion recovers |
| Reconstruction.RecoversPastDeletion | libinftext/inf-text-remote-delete-operation.c:522-571 | a matching deletion of any shape takes nothing from it, and the overlap of two remote deletions is not reached |
| Reconstruction.OverlapFeeds | libinftext/inf-text-delete-operation.c:252-305 | in every overlap case what is fed is the shared text, at the place where it stood |
| Siblings.SenderAndReceiverAgree | libinftext/inf-text-remote-delete-operation.c:497-651 | a default and a remote deletion of one range have the same leaves past any run, both apply, and both leave the same document |
| Siblings.OrderedAlong | libinftext/inf-text-remote-delete-operation.c:573-651 | the parts of a split stay in order and do not overlap, over any run |
| Siblings.ApartNeverOverlap | libinftext/inf-text-remote-delete-operation.c:537-540 | deletions that stand apart never reach the overlap that asserts a default deletion |
| Siblings.OrderedApplies | libinfinity/adopted/inf-adopted-split-operation.c:347-365 | a split with its parts in order can be applied |
| Siblings.SameShapeAlong | libinftext/inf-text-default-delete-operation.c:311-404 | deletions that differ only in what they know about their text keep the same leaves past any run |
| Siblings.TruthfulAlong | libinftext/inf-text-default-delete-operation.c:252-279 | a default deletion still matches the document after any run |
| SplitUndo.SplitReverts | libinfinity/adopted/inf-adopted-split-operation.c:367-393 | reverting a default deletion that has been split, however often, restores the document if and only if no two of its leaves meet; if two do, an assertion fails |
| SplitUndo.LeavesCanMeet | libinftext/inf-text-insert-operation.c:236-245 | a run of matching operations after which two leaves meet and undoing fails |
| SplitUndo.RevertIs | libinfinity/adopted/inf-adopted-split-operation.c:367-393 | the insertions that revert a deletion stand in order, and two of them tie exactly if two of its leaves meet |
| SplitUndo.PastEarlier | libinfinity/adopted/inf-adopted-split-operation.c:545-567 | insertions past earlier ones, splits on both sides, move by their length, unless any two of them tie |
| RemoteDeleteOperations.ReconFeed | libinftext/inf-text-remote-delete-operation.c:139-196 | the loop over the list computes the fed list, with chunks of its own |
| RemoteDeleteOperations.ReconCopy | libinftext/inf-text-remote-delete-operation.c:98-119 | the copy is the same list with chunks of its own |
| RemoteDeleteOperations.SplitRecon | libinftext/inf-text-remote-delete-operation.c:598-620 | the loop deals the list out to two, and fails exactly when the assertion does |
| RemoteDeleteOperations.RemoteDeleteOperation.TransformPosition | libinftext/inf-text-remote-delete-operation.c:497-520 | only the position changes, and the result shares no list with the operation |
| RemoteDeleteOperations.RemoteDeleteOperation.TransformOverlap | libinftext/inf-text-remote-delete-operation.c:522-571 | the shared text moves from the length to the recon list |
| RemoteDeleteOperations.RemoteDeleteOperation.TransformSplit | libinftext/inf-text-remote-delete-operation.c:573-651 | two operations with their own lists and offsets, or the failed assertion |
| RemoteDeleteOperations.AppendAll | libinftext/inf-text-remote-delete-operation.c:456-466 | the growing chunk holds what has been recorded, and a gap is noticed |
| RemoteDeleteOperations.MakeReversible | libinftext/inf-text-remote-delete-operation.c:391-482 | the loops over leaves and lists build the collected text from the buffer, or fail with the assertion |
| RemoteDeleteOperations.MakeReversibleRecovers | libinfinity/adopted/inf-adopted-algorithm.c:1562-1592 | what is made reversible after any run of genuine operations is the deletion of the original text at the original position |
| Utf8.IndexIsEncodedLength | libinftext/inf-text-chunk.c:164-194 | the byte index of a character is the encoded length of the characters before it |
| Utf8.CharsAt | libinftext/inf-text-chunk.c:164-194 | cutting bytes where a character starts cuts the characters there |
| Utf8.CharsAppend | libinftext/inf-text-chunk.c:521-537 | texts put side by side are their characters side by side |
| Utf8.CharsOfBytes | libinftext/inf-text-chunk.c:121-211 | encoding and decoding is a round trip, so characters are uniquely decodable |
| Utf8.BytesOfChars | libinftext/inf-text-chunk.c:121-211 | decoding and encoding is one, too |
| Encoding.CharIsEncoding | libinftext/inf-text-chunk.c:188-201 | the byte sequences taken for one character are exactly the encodings of the Unicode character numbers |
| Encoding.WidthOfEncoding | libinftext/inf-text-chunk.c:188-201 | the first byte tells how many bytes a character takes, and different numbers have different encodings |
| Encoding.TextOfCodePoints | libinftext/inf-text-chunk.c:188-201 | a text made of character numbers has as many characters, the encodings of these numbers, and character k starts where the encodings of the first k end |
| Encoding.WellFormedIsEncoded | libinftext/inf-text-chunk.c:188-201 | every text the model works on is the encoding of some character numbers |
| Segments.CanonicalUnique | libinftext/inf-text-chunk.c:88-119 | the characters and authors determine the canonical list of segments, offsets included |
| Segments.SearchFinds | libinftext/inf-text-chunk.c:144-166 | searching by offset ends behind the last segment that starts at the position or before |
| Segments.NextOffsetIs | libinftext/inf-text-chunk.c:73-86 | the next offset is the one where the characters of a segment end |
| Edits.PlaceIsUnique | libinftext/inf-text-chunk.c:121-211 | there is one segment for a position, the later one at a boundary and the last one at the end |
| Edits.ForAuthor | libinftext/inf-text-chunk.c:480-491 | the segment an insertion picks is the author's if and only if a segment of the author holds the position or ends at it |
| Chunks.Chunk.GetSegment | libinftext/inf-text-chunk.c:121-211 | the segment and the byte index of a position, and for an empty chunk the end of the list; its assertions hold |
| Chunks.BytesBefore | libinftext/inf-text-chunk.c:168-194 | converting character by character into a buffer for one finds the byte index, which is the encoded length of the character numbers before, and each conversion stops for want of space |
| Chunks.Chunk.CheckIntegrity | libinftext/inf-text-chunk.c:88-119 | holds exactly if the first segment starts at 0 and none has more characters than bytes or no characters; a canonical chunk passes |
| Edits.ContiguousIs | libinftext/inf-text-chunk.c:88-119 | what that check establishes: offsets that begin with 0 and grow up to the length, in each segment by no more than its bytes |
| Chunks.Chunk.Copy | libinftext/inf-text-chunk.c:262-292 | a new chunk with the same segments |
| Chunks.Chunk.Substring | libinftext/inf-text-chunk.c:350-441 | a new canonical chunk with exactly the characters and authors of the range |
| Chunks.Chunk.InsertText | libinftext/inf-text-chunk.c:455-565 | the text comes in at the position and nothing else changes; canonical if and only if the text has characters or a segment of the author takes it in |
| Chunks.Chunk.InsertChunk | libinftext/inf-text-chunk.c:576-842 | in all boundary, split and merge cases the other chunk's characters and authors come in at the position, and the chunk stays canonical if the other one is |
| Chunks.Chunk.Erase | libinftext/inf-text-chunk.c:852-1032 | exactly the range goes, the chunk stays canonical, equal authors that meet are merged, and no assertion fails |
| Chunks.Chunk.GetText | libinftext/inf-text-chunk.c:1045-1082 | the bytes of all segments in order |
| Chunks.Chunk.Equal | libinftext/inf-text-chunk.c:1094-1133 | true if and only if there are the same texts in the same segments |
| Equality.TextOfIsEncoding | libinftext/inf-text-chunk.c:1045-1082 | the text of a chunk is the encoding of its characters, whoever wrote them |
| Equality.SameTextsMeansSameChanges | libinftext/inf-text-chunk.c:1094-1133 | two canonical chunks are found equal if and only if they hold the same characters and the author changes at the same places |
| Equality.EqualContentsAreFoundEqual | libinftext/inf-text-chunk.c:1094-1133 | the same characters and authors are always found equal |
| Equality.AuthorsAreNotCompared | libinftext/inf-text-chunk.c:1084-1093 | two chunks that differ in the author and are found equal |
| Joints.JoinGood | libinftext/inf-text-chunk.c:648-706 | joining two canonical lists, merging where one author meets himself, is canonical and keeps the characters |
| Joints.ErasedCells | libinftext/inf-text-chunk.c:852-1032 | cutting a list at two places and joining the ends is a canonical list without the characters in between |
| Joints.BetweenCells | libinftext/inf-text-chunk.c:350-441 | what lies between two places is a canonical list with the characters of the range |
| Buffers.DefaultBuffer.GetSlice | libinftext/inf-text-default-buffer.c:173-181 | a chunk with the range of the buffer |
| Buffers.DefaultBuffer.InsertChunk | libinftext/inf-text-default-buffer.c:183-201 | the chunk comes in, and the buffer counts as modified |
| Buffers.DefaultBuffer.InsertText | libinftext/inf-text-buffer.c:187-219 | the text comes in under the number of the user, 0 for none |
| Buffers.DefaultBuffer.EraseText | libinftext/inf-text-default-buffer.c:203-225 | the range goes, and listeners are told the text that went |
| DefaultOperations.DefaultInsertOperation.constructor | libinftext/inf-text-default-insert-operation.c:72-95 | an operation with a copy of the chunk |
| DefaultOperations.DefaultInsertOperation.TransformPosition | libinftext/inf-text-default-insert-operation.c:253-271 | only the position changes |
| DefaultOperations.DefaultInsertOperation.Apply | libinftext/inf-text-default-insert-operation.c:207-225 | the buffer afterwards holds what the operation makes of the document |
| DefaultOperations.DefaultInsertOperation.Revert | libinftext/inf-text-default-insert-operation.c:227-236 | the deletion of the same text at the same place |
| DefaultOperations.DefaultDeleteOperation.TransformPosition | libinftext/inf-text-default-delete-operation.c:311-327 | only the position changes |
| DefaultOperations.DefaultDeleteOperation.TransformOverlap | libinftext/inf-text-default-delete-operation.c:329-355 | a copy of the chunk without the shared text; the operation itself does not change |
| DefaultOperations.DefaultDeleteOperation.TransformSplit | libinftext/inf-text-default-delete-operation.c:357-404 | two operations with the two parts of the chunk around the inserted text |
| DefaultOperations.DefaultDeleteOperation.TextMatch | libinftext/inf-text-default-delete-operation.c:52-90 | true if and only if the buffer holds the same characters, whoever wrote them |
| DefaultOperations.DefaultDeleteOperation.Apply | libinftext/inf-text-default-delete-operation.c:252-279 | the buffer afterwards holds what the operation leaves of the document |
| DefaultOperations.DefaultDeleteOperation.Revert | libinftext/inf-text-default-delete-operation.c:281-293 | the insertion of the same text at the same place |
| DefaultOperations.InsertAndRevert | libinftext/inf-text-default-insert-operation.c:207-236 | an insertion and its reverse leave every segment of the buffer as it was |
| DefaultOperations.DeleteAndRevert | libinftext/inf-text-default-delete-operation.c:252-293 | a deletion and its reverse leave every segment as it was if and only if the deletion carries the characters and authors the buffer holds there |
| DefaultOperations.RevertTwice | libinftext/inf-text-default-insert-operation.c:227-236 | reverting twice gives the same position and the same segments |
| DefaultOperations.RevertDeletionTwice | libinftext/inf-text-default-delete-operation.c:281-293 | the same for a deletion |
| DefaultOperations.MatchIgnoresAuthors | libinftext/inf-text-default-delete-operation.c:52-90 | a deletion that matches the characters, differs in the author, and is not undone by its reverse |
| DefaultOperations.TextsByBytes | libinftext/inf-text-default-delete-operation.c:70-84 | equal bytes are equal characters |
| Synchronization.SegmentToXml | libinftext/inf-text-session.c:104-138 | a message holds whole characters, at least one and at most 1024 bytes of them, and as many as fit |
| Synchronization.SegmentToMessages | libinftext/inf-text-session.c:1049-1062 | the loop ends, and its messages hold the characters of the segment under its author; all but the last one are full |
| Synchronization.ToXmlSync | libinftext/inf-text-session.c:1022-1073 | the messages hold the characters and authors of the buffer, each of them at most 1024 bytes |
| Synchronization.ProcessXmlSync | libinftext/inf-text-session.c:1075-1158 | a message that has an author nobody is known by is an error and leaves the buffer alone; any other, also one without an author, has its text appended |
| Synchronization.KnownAuthors | libinftext/inf-text-session.c:1104-1133 | the authors of the messages that have one are known if and only if the authors of the characters that have one are |
| Synchronization.Synchronize | libinftext/inf-text-session.c:1022-1158 | the round trip rebuilds the same segments, and it goes through if and only if the receiver knows every author there is; text without an author always goes through |
| Selections.SelectedPastInsert | libinftext/inf-text-move-operation.c:431-486 | for both directions, what was selected stays selected, and of the new text exactly what comes in strictly inside |
| Selections.CaretPastInsert | libinftext/inf-text-move-operation.c:431-486 | without a selection as many old characters stand before the caret as ever, and the neighbour on the side that gravity decides is never a new one |
| Selections.MovedPastLeaf | libinftext/inf-text-move-operation.c:500-592 | past a deletion the caret keeps its place among the survivors, as many characters are selected as survive, and no assertion fails |
| Selections.SelectedPastLeaf | libinftext/inf-text-move-operation.c:500-592 | the selection is what is left of it if and only if the deletion does not reach from inside over its right end |
| Selections.SurvivorsStaySelected | libinftext/inf-text-move-operation.c:500-592 | in that case the selected characters are exactly the survivors |
| Selections.SelectionTurnsRound | libinftext/inf-text-move-operation.c:542-581 | two selections, one of either direction, that are turned round |
| Selections.CaretPastDeletion | libinftext/inf-text-move-operation.c:128-184 | the caret keeps its place among the survivors past deletions of any shape |
| Selections.SelectedPastDeletion | libinftext/inf-text-move-operation.c:128-184 | past a deletion of any shape both ends of the selection keep their places among the survivors if and only if no leaf reaches over the right end or nothing of the selection survives |
| CaretThrottle.TimevalDiff | libinftext/inf-text-session.c:90-102 | the difference of the times rounded to milliseconds, never negative |
| CaretThrottle.Throttled | libinftext/inf-text-session.c:198-304 | over all runs: broadcasts tell the current selection; a timer runs if and only if a selection waits that was asked for, and it was set to run out after that time, at most the interval later, and as soon as the interval since the last broadcast is over; without flushes broadcasts are the interval apart from one another and from the time of joining |
| CaretThrottle.SentAtOnce | libinftext/inf-text-session.c:282-302 | a selection asked for is broadcast at once if and only if the interval is over; otherwise a timer runs |
| CaretThrottle.ApplyingSendsNothing | libinftext/inf-text-session.c:641-672 | while a request is applied, selections that it moves are neither broadcast nor wait, and afterwards selections can be asked for |
| CaretThrottle.FlushSendsWhatWaits | libinftext/inf-text-session.c:2068-2084 | a flush broadcasts the current selection if a selection waits, and does nothing otherwise |
| CaretThrottle.StepKeeps | libinftext/inf-text-session.c:254-304 | every event keeps the invariant, every event but a flush keeps the broadcasts apart |
| CaretThrottle.FlushComesEarly | libinftext/inf-text-session.c:2068-2084 | a run in which a flush does not wait for the interval |
| CaretThrottle.Session.AddLocalUser | libinftext/inf-text-session.c:306-329 | the state in which a user joins |
| CaretThrottle.Session.BroadcastCaretSelection | libinftext/inf-text-session.c:198-242 | the current selection is sent, the time noted, the timer removed |
| CaretThrottle.Session.CaretUpdateTimeout | libinftext/inf-text-session.c:244-252 | the step of the timer |
| CaretThrottle.Session.SelectionChanged | libinftext/inf-text-session.c:254-304 | the step of a changed selection: send, or start a timer if none runs, or do nothing while a request is applied |
| CaretThrottle.Session.FlushRequests | libinftext/inf-text-session.c:2068-2084 | the step of a flush: send if a timer runs |

## Left out

- The request log, state vectors, undo grouping and the search for a path in the algorithm: requests are concurrent requests on one document, one of each user, a path through them is any order of them, and a tie goes by the operations on that document, which for them is the state the algorithm looks the operations up in.
- The move operation is not among the operations that converge, because it does not change the document; `Selections` models it by itself.
- Paths.TwoWayConvergence: two remote deletions that overlap are not covered, because they do not transform (`Paths.RemotePastRemote`); no site transforms one past the other, because what it has executed is in its log as made reversible.
- A split of insertions, which reverting a split deletion makes, is reverted to, transformed against its like and applied in `splitundo.dfy`; transforming it against other operations is not modelled.
- Chunks.Chunk.GetSegment: for an empty chunk the source reads the index it is about to write, and fails if it is given no place for it; the index here is the 0 that it ends up with.
- Chunks.Chunk.InsertChunk: requires the other chunk not to be the same object, because inserting a chunk into itself would read memory that is being moved.
- RemoteDeleteOperations.RemoteDeleteOperation.TransformOverlap: takes a default deletion; that the other case is not reached is `Siblings.ApartNeverOverlap` and `Reconstruction.RecoversPastDeletion`.
- RemoteDeleteOperations.MakeReversible: takes the leaves in order; taking a split apart is the function `Operations.Unsplit`.
- Segments are values in a sequence and places in it are indices, so pointers to segments, moves of memory and what they may alias are not modelled; operations hold copies of chunks as in the source.
- In `operations.dfy` chunks are sequences of characters with authors; `defaultoperations.dfy` and `remotedelete.dfy` tie the objects that hold chunks to them.
- Encodings other than UTF-8 and the conversion between them; malformed text; XML and its errors.
- Several local users at once: each has his own record, and the flag that a request is being applied is the only thing they share.
- The source reads the clock once for the time since the last update and once more for the new update; the two readings are one here.
- Signals, properties, reference counting, user colours, user status, and everything that draws or stores text.
