# Editor core

A model of the core of Nova Editor (`src/nova_editor/core`), with proofs. The core holds a document of any size as a
sequence of pieces of immutable byte sources and answers questions about its rows without reading it whole. Every
module here is compared with something very simple: a string of bytes, its split into rows at LF, CRLF and lone CR,
its decoding from UTF-8 (section 4 of RFC 3629) with one escaped byte where no well-formed sequence starts, or a
small file system.

The source changes its structures in place, so the model does too: tree nodes, the piece table, the stores, the
indexes, the save job and the cached source are classes whose methods are proved against functions of their old
state. What those functions mean is proved as lemmas.

## What is proved

- **Pieces and rows** (`Rows`, `Pieces`, `PieceSeq`, `Navigation`, `TailText`). Break counts form a monoid in which a
  CR meeting an LF counts once. Piece facts are those of the bytes read alone, however a range cuts a CRLF of its
  source. A sequence of pieces without contiguous neighbours is determined by the places of its bytes; that is why an
  undo restores the identical pieces.
- **The counted B+ tree** (`TreeShape`, `TreeOps`, `TreeRange` on values; `TreeNode`, `TreeBuild`, `TreeCursor`,
  `PieceTree` in place). Insertion, deletion, range deletion with its repair loop, rebalancing and bottom-up building
  keep depth, occupancy, counts and aggregates, and contain exactly the pieces they should. `find_break` and `row_of`
  agree with the joined bytes.
- **The piece table** (`OriginalSource`, `SourceMap`, `OpenTail`, `PieceTable`, `TableRuns`). The document is the tree followed by
  the open tail of the original, whose line scan may make any progress between two calls. `splice` and `content`
  refine the same operations on a byte string, an edit and its undo cancel out, and every row answer is the row of the
  current document.
- **Add store, scanner and line index** (`AddStore`, `SparseRows`, `RowScanner`, `LineIndex`). The sparse structures
  are those of the whole bytes for any chunking and any sequence of appends; budgeted walks are right and, with room,
  total.
- **Save and rebase** (`SaveLayout`, `SaveDisk`, `Save`, `Rebase`). The sweep gives the map of first occurrences; every
  content denotes after a save the bytes it denoted before, and old files are kept exactly when the new one lacks too
  much; the replace is atomic to readers under any failure, and a crash leaves the old or the whole new file, the new
  one for sure once the directory is flushed.
- **Long rows** (`Utf8`, `TextWidth`, `LongRow`, `LongLineIndex`, `LongRowRuns`). Chunked decoding loses nothing, checkpoints are
  exact, an edit of the index equals a rescan, and queries agree with decoding the whole row.
- **Sources** (`ByteSource`, `CloseProtocol`, `RowSource`). The cached source gives the file as opened whatever other
  threads do; in every interleaving of readers and closers nothing reads a closed descriptor.

## Conventions

`S: Sources` maps piece numbers to sources. A source is its bytes and the sets `mute` and `unplaced` of offsets and
rows that its row oracle cannot answer for, because the scan has not come that far or a walk would exceed the budget;
nothing is assumed about these sets unless said. `Doc(pieces, S)` is the document, `Addr(pieces)` the place of each of
its bytes. `Index` is the state of a line index as the piece table sees it; `LineIndex.View` is the `Index` of a real
one, and `Advances` is any progress of its scan. A tree or table is `Merged` or `Tidy` when no two neighbours are
contiguous. What the environment does is an input wherever an answer depends on it: which system calls fail and how
much they give (`fails`, `gives`), which old ranges cannot be read (`broken`), from which look on a cancel is
requested (`cancel`), how many rows one call of the index can afford (`room`). The other choices of the environment
are variables assigned `*`: the size of a block, a short write, a step of another thread, a failing call of the disk.
The constants `smooth` and `alone` say that there is no failure and no other thread; a disk and a save record in
`trouble` which calls went wrong.

## Where the code and its documentation differ

- `splice` and `content` promise to change nothing on an error (`src/nova_editor/core/piece_tree.py:438-481`). When the
  second of their two cuts is refused by the row oracle, the first one stays. The bytes are the same, but two
  contiguous neighbours remain unless the first cut fell on a piece edge (`PieceSeq.RefusedEditSeam`, with a run over a
  file of two rows in `RefusedEdit.RefusedEditRun`). From then on an undo need not restore the identical pieces.
- The fast path for an unchanged document (`src/nova_editor/core/piece_table.py:178-187`) does not come back while the
  scan runs once the tail has been cut, even when an undo restored the document. `PieceTable.IsIdentity` states exactly
  for which tables it is taken, and `TableRuns.CutAndUndoneRun` is such an edit.
- For an empty original whose scan has not finished, and as long as nothing was inserted, `row_range(0)` gives no answer
  on the fast path, while the general path would give one. The row queries are total but for exactly this state
  (`Starving`; `TableRuns.StarvingRun`).
- `SaveFailed.committed` is meant to say that the replace has happened (`src/nova_editor/core/save.py:131-143`). When
  building the line index fails afterwards and then closing the adopted source raises too
  (`src/nova_editor/core/save.py:329-337`), the failure reports an uncommitted save. `Save.SaveJob.Run` states exactly
  when the flag is right, `Save.CommitLostRun` is a run in which it is wrong; the `committed` property of the job itself
  is always right.
- An error of the directory flush behind the replace is suppressed (`src/nova_editor/core/save.py:300-301`), so a save
  that reports success may still be undone by a crash: `Save.SureWhenSettled`.
- The check for a document that changed its length during the save (`src/nova_editor/core/save.py:288-289`) can never
  fail: the stream ends exactly at that length.
- Display columns behind a splice are exact if and only if no tab follows or the width change is a multiple of the tab
  width. The columns are kept in unsigned arrays. From an index with exact columns every edit gives ascending,
  non-negative columns (`LongLineIndex.ExactEditsFit`). From one with inexact columns the first checkpoint behind the
  removed range decides: the edit raises `OverflowError`, or leaves it to the scan of a very long text, exactly when that
  column plus the width change is negative, and the columns go on ascending exactly when that column is not left of the column at the edit plus the removed width
  (`LongLineIndex.FirstDecides`). `LongRowRuns` has an input for each. The error comes after the characters were
  extended (`src/nova_editor/core/long_line_index.py:404-407`), and the caller expects only `ValueError` and
  `SourceChanged` (`src/nova_editor/document/_lazy_document.py:1213-1221`).
- `PreadSource.check` is not counted as a read in flight and may look at a descriptor that has been closed
  (`CloseProtocol.CheckAfterClose`).

## Model

| member | source | states |
|---|---|---|
| `Rows.CountSlice` | src/nova_editor/core/pieces.py:131-145 | Counting terminators in a slice, also one that begins or ends inside a CRLF, is counting in the whole minus what lies in front, plus one for a CRLF cut at its end |
| `Rows.CountConcat` | src/nova_editor/core/pieces.py:86-96 | Terminators of a concatenation: those of both parts, one less when a CR meets an LF at the seam |
| `Rows.RowAtFacts` | src/nova_editor/core/line_index.py:36-46 | The naive split is a split: a row starts where the one before it ends, its content holds neither CR nor LF, only the last row lacks a terminator |
| `Rows.RowHolds` | src/nova_editor/core/line_index.py:299-343 | Every offset lies in the row that the number of terminators in front of it names; the end of the data lies in the last row |
| `Rows.SearchRank` | src/nova_editor/core/line_index.py:115-127 | The leftmost match of the terminator pattern from a place on is the next terminator by rank; no match means that none is left |
| `Pieces.SrcRoundTrip` | src/nova_editor/core/pieces.py:25-43 | Numbering a generation and a segment is a bijection; only a segment out of range is refused |
| `Pieces.AggOfConcat` | src/nova_editor/core/pieces.py:86-96 | `combine` of two aggregates is the aggregate of the concatenated bytes, CRLF over the seam included |
| `Pieces.CombineAssociative` | src/nova_editor/core/pieces.py:86-96 | `combine` is associative |
| `Pieces.MakePieceTrue` | src/nova_editor/core/pieces.py:131-145 | `make_piece` refuses exactly an empty or reversed range (or an offset whose row the oracle refuses) and else yields the facts of the bytes read alone, even when the range starts or ends inside a CRLF of the source |
| `Pieces.MergeTrue` | src/nova_editor/core/pieces.py:148-156 | A merged piece carries the facts of its bytes |
| `Pieces.SplitTrue` | src/nova_editor/core/piece_tree.py:415-434 | Cutting a piece where no CRLF is cut gives two pieces with true facts that merge back into the original |
| `Pieces.TrueSurvivesGrowth` | src/nova_editor/core/pieces.py:106-128 | A piece stays true, and reads the same, when sources grow, also when an LF is appended behind a CR that ends it |
| `Pieces.Canonical` | src/nova_editor/core/piece_tree.py:546-555 | Two sequences of true pieces without contiguous neighbours that denote the same places are the same sequence |
| `TailText.TailCharsOf` | src/nova_editor/core/pieces.py:159-180 | `tail_chars_of` counts the characters behind the last terminator of the joined bytes; neither the windows nor the cuts between pieces show |
| `TreeShape.RebalancedFacts` | src/nova_editor/core/piece_tree.py:619-629 | One `_rebalance` of a thin child keeps the rows and either removes a node or keeps their number, leaves one thin child less and both neighbours full enough; only the nodes it touched may need repair below |
| `TreeShape.Repair` | src/nova_editor/core/piece_tree.py:517-534 | `_repair_children` ends: the node is repaired all the way down, holds the same pieces and has no more nodes than before |
| `TreeShape.Settle` | src/nova_editor/core/piece_tree.py:517-534 | The repair loop, on the measure (height, nodes, deficient children): afterwards no child is thin or only one is left, and the pieces are the same |
| `TreeShape.RepairIgnores` | src/nova_editor/core/piece_tree.py:129-136 | A repair does not depend on the stale counts and aggregates of the node |
| `TreeOps.InsertFacts` | src/nova_editor/core/piece_tree.py:578-596 | Inserting below a node puts the piece at its place and keeps fanout, depth, counts and aggregates; an overflow yields a second node of legal size |
| `TreeOps.DeleteAtFacts` | src/nova_editor/core/piece_tree.py:607-617 | Deleting one piece below a node removes exactly that piece and leaves every child full enough |
| `TreeRange.DeletePiecesFacts` | src/nova_editor/core/piece_tree.py:483-515 | `_delete_pieces` for any range and any fanout of at least 4 removes exactly that range and gives a well-formed tree again: equal depth, occupancy between half the fanout and the fanout, exact counts and aggregates at every node |
| `TreeRange.DeletePieceFacts` | src/nova_editor/core/piece_tree.py:546-562 | Deleting one piece and collapsing the root gives a well-formed tree without that piece |
| `TreeNode.Node.Refresh` | src/nova_editor/core/piece_tree.py:106-136 | `refresh` makes the cached count and aggregate those of the items |
| `TreeNode.Node.InsertInto` | src/nova_editor/core/piece_tree.py:578-596 | In place, the node and the sibling it may return are what the insertion on values says |
| `TreeNode.Node.Rebalance` | src/nova_editor/core/piece_tree.py:619-629 | In place, the children are those of the rebalance on values, item by item moves included |
| `TreeNode.Node.RepairChildren` | src/nova_editor/core/piece_tree.py:517-534 | In place, the node becomes its repair, and nothing outside the subtree changes |
| `TreeNode.Node.DeleteRange` | src/nova_editor/core/piece_tree.py:493-515 | In place, the node becomes the range deletion on values |
| `TreeNode.Node.DeleteAt` | src/nova_editor/core/piece_tree.py:607-617 | In place, the node becomes the deletion on values |
| `TreeBuild.SplitEven` | src/nova_editor/core/piece_tree.py:171-181 | `_split_even` cuts a list into the fewest runs, in order, of sizes that differ by at most one, none above the fanout and with several runs none below half of it |
| `TreeBuild.BuildTree` | src/nova_editor/core/piece_tree.py:218-228 | Building level by level ends with one well-formed root over exactly the pieces given |
| `TreeBuild.MergeAll` | src/nova_editor/core/piece_tree.py:209-215 | Joining contiguous neighbours keeps the places and leaves no contiguous neighbours |
| `TreeCursor.Walk` | src/nova_editor/core/piece_tree.py:271-280 | `_walk` yields the pieces from a number on, in order |
| `Navigation.BreakFromExact` | src/nova_editor/core/piece_tree.py:346-364 | Once the piece is found, the answer of `find_break` is the end of the k-th terminator of the joined bytes, with a CRLF over the piece edge; no answer only when the oracle of the source refuses |
| `Navigation.RowFromExact` | src/nova_editor/core/piece_tree.py:386-399 | Once the piece is found, the answer of `row_of` is the number of terminators that end at or before the offset in the joined bytes |
| `PieceSeq.CutAtFacts` | src/nova_editor/core/piece_tree.py:415-434 | A cut keeps bytes and places, keeps the facts true and makes the offset a piece boundary |
| `PieceSeq.CutAtSeams` | src/nova_editor/core/piece_tree.py:415-434 | A cut adds at most one seam between contiguous neighbours and leaves the pieces in front of it alone |
| `PieceSeq.RefusedEditSeam` | src/nova_editor/core/piece_tree.py:438-481 | What an edit leaves behind when its second cut is refused: the bytes are the same, and no contiguous neighbours arise if and only if the first cut fell on a piece edge |
| `RefusedEdit.RefusedEditRun` | src/nova_editor/core/piece_tree.py:438-481 | A run over a file of two rows whose second row is over the read budget: an allowed edit makes its first cut, is refused at its second, and leaves contiguous neighbours behind |
| `RefusedEdit.OracleHides` | src/nova_editor/core/original_source.py:20-40 | The oracle of that complete index refuses exactly the offsets of the second row |
| `PieceSeq.UndoRestoresPieces` | src/nova_editor/core/piece_tree.py:453-481 | Splicing the removed content back restores the identical piece sequence |
| `PieceSeq.ReplacedDoc` | src/nova_editor/core/piece_tree.py:453-481 | Replacing a range of places replaces that range of the document |
| `PieceSeq.IdentityPiece` | src/nova_editor/core/piece_table.py:178-187 | A sequence without contiguous neighbours denotes the whole original if and only if it is its single piece |
| `PieceTree.UndoAllowed` | src/nova_editor/core/piece_tree.py:401-413 | Taking an edit back is allowed if and only if neither seam of the edit has become a CRLF |
| `PieceTree.UndoRefusedExample` | src/nova_editor/core/piece_tree.py:401-413 | A CR typed in front of an LF cannot be taken back alone |
| `PieceTree.PieceTree.EndNeverRefused` | src/nova_editor/core/piece_tree.py:415-434 | An edit at the very end is never refused |
| `PieceTree.PieceTree.OfPieces` | src/nova_editor/core/piece_tree.py:205-228 | `from_pieces` gives the one sequence without contiguous neighbours that denotes the same places |
| `PieceTree.PieceTree.FindOffset` | src/nova_editor/core/piece_tree.py:282-303 | The piece that holds an offset, where it starts and how far inside the offset lies; past the last piece at the end, `ValueError` outside |
| `PieceTree.PieceTree.FindBreak` | src/nova_editor/core/piece_tree.py:322-364 | `IndexError` exactly for a rank the document does not have; every answer is the end of that terminator; no answer exactly when the one piece that holds the terminator cannot place it: its source refuses the row, and the terminator is not a CR that ends the piece |
| `PieceTree.OneHolder` | src/nova_editor/core/piece_tree.py:322-364 | One piece holds a terminator, so that piece alone decides whether it can be placed |
| `PieceTree.PieceTree.RowOf` | src/nova_editor/core/piece_tree.py:366-399 | `ValueError` exactly outside the document; every answer is the number of terminators that end at or before the offset; `RowNotIndexed` exactly when the offset lies inside a piece whose source cannot name the row of the piece start or of the offset |
| `PieceTree.OneByteHolder` | src/nova_editor/core/piece_tree.py:366-399 | One piece holds the byte at an offset, so that piece alone decides whether its row can be named |
| `PieceTree.PieceTree.CheckBoundary` | src/nova_editor/core/piece_tree.py:401-413 | An offset is refused exactly when it lies outside the document or inside a CRLF of it, wherever that CRLF is cut |
| `PieceTree.PieceTree.SplitAt` | src/nova_editor/core/piece_tree.py:415-434 | `split_at` makes exactly the cut of the sequence, with the three outcomes told apart, and changes nothing when it fails |
| `PieceTree.PieceTree.Content` | src/nova_editor/core/piece_tree.py:438-451 | `content` denotes exactly `[start, end)`, with the summary of its bytes, and leaves the piece sequence unchanged; each error if and only if its condition holds; a refused call leaves exactly its first cut if that was made, and contiguous neighbours exactly when that cut split a piece |
| `PieceTree.PieceTree.Splice` | src/nova_editor/core/piece_tree.py:453-481 | `splice` replaces exactly `[start, end)`, returns what denotes it, leaves no contiguous neighbours; each error if and only if its condition holds; a refused call keeps the places, leaves exactly its first cut if that was made, and contiguous neighbours exactly when that cut split a piece |
| `PieceTree.PieceTree.IterRange` | src/nova_editor/core/piece_tree.py:305-316 | The overlaps denote exactly the range, each piece once; only the first one may begin inside its piece and only the last one may end inside |
| `PieceTree.PieceTree.Read` | src/nova_editor/core/piece_tree.py:318-320 | The bytes of the range, `ValueError` exactly outside the document |
| `PieceTree.PieceTree.DeletePieces` | src/nova_editor/core/piece_tree.py:483-492 | In place, exactly the range of pieces goes and the tree stays valid |
| `PieceTree.PieceTree.InsertPiece` | src/nova_editor/core/piece_tree.py:573-576 | In place, exactly one piece is put at its place and the tree stays valid |
| `OriginalSource.AsSourceExact` | src/nova_editor/core/original_source.py:20-40 | Whatever the oracle of the original answers, the fallback over the previous row included, is the row of the bytes |
| `OriginalSource.PlacedWhenScanned` | src/nova_editor/core/original_source.py:31-40 | Exactly which row starts the oracle can give while the scan runs: with the fallback every row that begins in the scanned part |
| `OriginalSource.AnswersStay` | src/nova_editor/core/original_source.py:20-40 | While the scan goes on under pieces cut with its answers, an answer for an offset or a row start is given again exactly when the walk is still within the budget, and it is the same; where the budget refuses no more than before, nothing becomes unanswerable |
| `OriginalSource.CutsStay` | src/nova_editor/core/piece_tree.py:415-434 | A piece of the original cut again at a later moment of the scan gives the same halves, and a cut that was possible stays possible where the budget refuses no more than before |
| `SourceMap.LiveSources` | src/nova_editor/core/piece_table.py:106-119 | Source 0 is the live original, the sources above it are the add segments |
| `SourceMap.SourcesGrow` | src/nova_editor/core/piece_table.py:106-133 | More appended bytes, more generations and more scan progress never take a byte from a source |
| `OpenTail.CountInText` | src/nova_editor/core/piece_table.py:62-74 | Terminators in front of an offset of tree and tail together, in terms of those of the tree and of the original, less one for a CRLF over the junction |
| `OpenTail.FrontBreak` | src/nova_editor/core/piece_table.py:475-492 | The k-th terminator of the tree keeps its rank in the document; it ends one byte later when it is the CR of a CRLF over the junction |
| `OpenTail.BehindBreak` | src/nova_editor/core/piece_table.py:475-492 | A terminator of the tail, counted from the junction on |
| `OpenTail.InsideInText` | src/nova_editor/core/piece_table.py:357-370 | Lying inside a CRLF, seen from tree, junction and tail |
| `PieceTable.PieceTable.ScanAdvances` | src/nova_editor/core/piece_table.py:151-160 | Any progress of the scan between two calls keeps the table valid and changes neither the document nor the pieces |
| `PieceTable.PieceTable.Refresh` | src/nova_editor/core/piece_table.py:151-160 | The tail is folded into the tree exactly when the scan is complete; the document and the places stay |
| `PieceTable.PieceTable.Open` | src/nova_editor/core/piece_table.py:372-386 | The bytes of the tail in front of the edit move into the tree; refused exactly when no row can be named there, and then nothing changes; the document stays in any case |
| `PieceTable.PieceTable.Prepare` | src/nova_editor/core/piece_table.py:349-355 | `ValueError` exactly for a forbidden range, `RowNotIndexed` exactly when the end lies in the unscanned tail; afterwards the range lies in the tree |
| `PieceTable.PieceTable.CheckBoundary` | src/nova_editor/core/piece_table.py:357-370 | Refused exactly inside a CRLF of the document, also one over the junction of tree and tail |
| `PieceTable.PieceTable.Splice` | src/nova_editor/core/piece_table.py:333-347 | The document becomes `doc[..start] + content + doc[end..]`, the result denotes `doc[start..end]`; `ValueError` exactly for a forbidden range; for an edit that ends in the tree `RowNotIndexed` exactly when a cut it has to make in front of or behind the range is refused, for one that ends in the tail only when its end is not scanned or a source refuses; on any error the document and the places are unchanged, and a tidy tree stays tidy but for `RowNotIndexed`; the open tail begins afterwards where the edit ends, if that lay in it |
| `PieceTable.PieceTable.TreeAnswers` | src/nova_editor/core/piece_table.py:349-386 | While the index loses no offset and no old generation hides one, no piece of the tree refuses an edit: only the unscanned tail does |
| `TableRuns.EditAndUndo` | src/nova_editor/core/piece_table.py:333-347 | An edit of the table and its undo: refused with `ValueError` exactly when the edit made a CRLF at a seam, never because of the unscanned tail; otherwise document and places are as before, the content comes back for a redo, and a tidy tree is the same piece sequence when the edit cut nothing off the tail |
| `PieceTable.PieceTable.Content` | src/nova_editor/core/piece_table.py:320-331 | The result denotes `doc[start..end]`; errors as for `splice`; the document stays, and so do the pieces when nothing moved out of the tail |
| `PieceTable.PieceTable.Add` | src/nova_editor/core/piece_table.py:284-293 | Appending yields one true piece with exactly the bytes, and the document stays; `ValueError` exactly for no bytes |
| `PieceTable.PieceTable.RegisterLegacy` | src/nova_editor/core/piece_table.py:121-133 | A generation is added at the end and the document stays; refused exactly when no number is free |
| `PieceTable.PieceTable.StateFacts` | src/nova_editor/core/piece_table.py:51-74 | The row count of tree and tail is a lower bound and exact without a tail; the junction flag is the CRLF over the seam |
| `PieceTable.PieceTable.Read` | src/nova_editor/core/piece_table.py:214-234 | The bytes of the document, clipped at its end |
| `PieceTable.PieceTable.Start` | src/nova_editor/core/piece_table.py:475-492 | An answer exactly when the piece, the tail or the end of the document can place the row, and then the start of the row in the whole document; with no refusing oracle for each known row |
| `PieceTable.PieceTable.Range` | src/nova_editor/core/piece_table.py:457-464 | An answer exactly when the row is resolvable and both its ends can be placed, and then the row of the naive split of the document; with no refusing oracle for each resolvable row |
| `PieceTable.PieceTable.RowRange` | src/nova_editor/core/piece_table.py:388-399 | At every table state each answer is the row of the naive split of the current document; on the fast path the answer of the index, on the general one there is an answer exactly when both ends of the row can be placed; with no refusing oracle there is one exactly for the resolvable rows, except while the scan of an empty original is unfinished and nothing was inserted; `IndexError` exactly for a negative row |
| `TableRuns.StarvingRun` | src/nova_editor/core/piece_table.py:388-399 | That exception: the one row of an empty document is not given |
| `PieceTable.PieceTable.Lines` | src/nova_editor/core/piece_table.py:401-422 | The list is a prefix of the rows asked for, each the row of the naive split of the current document; on the general path it is as long as `count`, the limit per call and the resolvable rows allow, or ends exactly at the first row that `row_range` cannot give; with no refusing oracle it is always that long; on the fast path it is what one call of the index gives, shorter only at the read budget of that call |
| `PieceTable.PieceTable.RowAtOffset` | src/nova_editor/core/piece_table.py:424-452 | On the fast path the answer of the index; on the general path an answer exactly when the row of the offset can be named and its ends placed, and then the row that holds the offset in the naive split of the current document; with no refusing oracle there is one exactly in front of the open row while a tail is left, else for every offset, with the same exception |
| `PieceTable.PieceTable.Scanned` | src/nova_editor/core/piece_table.py:168-176 | The end of the scanned part is the start of the first row that is not known to be terminated, or 0 exactly when the oracle cannot place that row |
| `PieceTable.PieceTable.TakeSnapshot` | src/nova_editor/core/piece_table.py:201-212 | The snapshot of the index while the document is its file, else the known terminators plus one and the start of the open row; the count is a lower bound at any time and exact once complete |
| `PieceTable.PieceTable.IsIdentity` | src/nova_editor/core/piece_table.py:178-187 | Yes exactly when the places are those of the original, as one piece or with the uncut tail; a positive answer means that the document is the original; a tidy table gives it exactly when that is so and the tail is gone or was never cut |
| `TableRuns.CutAndUndoneRun` | src/nova_editor/core/piece_table.py:178-187 | A run in which an edit cuts the tail and is taken back: the document is the original again, yet it does not count as identical before the scan is complete |
| `PieceTable.PieceTable.IdentityRows` | src/nova_editor/core/piece_table.py:388-399 | The fast path answers what the general path would answer |
| `PieceTable.PieceTable.IdentityOffset` | src/nova_editor/core/piece_table.py:424-452 | The same for the row of an offset |
| `PieceTable.PieceTable.LayoutRange` | src/nova_editor/core/piece_table.py:253-271 | The runs place exactly `doc[start..end]`, in order, none empty; `ValueError` exactly outside the document |
| `AddStore.Segment.Extend` | src/nova_editor/core/add_store.py:41-55 | Terminator count and sparse entries of the longer segment are those of all its bytes, a CR that meets an LF included; refused exactly when sealed |
| `AddStore.Segment.RowOf` | src/nova_editor/core/add_store.py:57-66 | The number of terminators that end at or before the clamped offset |
| `AddStore.Segment.RowStart` | src/nova_editor/core/add_store.py:68-80 | The start of every row the segment has, nothing for any other |
| `AddStore.AppendToFacts` | src/nova_editor/core/add_store.py:136-161 | Appended bytes read back where the store says; no earlier byte of any segment changes; refused exactly for no bytes |
| `AddStore.RowsSurviveAppend` | src/nova_editor/core/add_store.py:41-55 | A later append changes the row of no earlier offset; at the old end it takes one row away exactly when a CR becomes a CRLF |
| `AddStore.RowStartsSurviveAppend` | src/nova_editor/core/add_store.py:68-80 | Row starts stay, except that of the row behind a final CR, which moves behind the LF |
| `AddStore.AppendContinues` | src/nova_editor/core/add_store.py:136-161 | Data that fits behind the tail, and is shorter than the limit, continues it at its old end; other data begins a new segment, which becomes the tail if it is shorter than the limit; the tail never exceeds the limit |
| `AddStore.TypingStaysTogether` | src/nova_editor/core/add_store.py:136-161 | However typed text is cut into appends, as long as it fits into the tail it makes one range of one segment |
| `AddStore.AddStore.Append` | src/nova_editor/core/add_store.py:136-161 | In place, the store becomes what the append on values says |
| `AddStore.AddStore.Read` | src/nova_editor/core/add_store.py:163-166 | The bytes of one segment, `IndexError` exactly for an unknown one |
| `SaveLayout.SaveLayout.Intervals` | src/nova_editor/core/save_layout.py:29-58 | The intervals are disjoint, ascending and not empty, cover exactly the bytes some run covers, and send each byte to its place in the earliest recorded run that covers it |
| `SaveLayout.SaveLayout.Add` | src/nova_editor/core/save_layout.py:19-24 | One more run at the end of the record |
| `Rebase.Rebaser.Split` | src/nova_editor/core/rebase.py:193-209 | The parts tile the piece; a present part lies at the first occurrence of each of its bytes in the new file, an orphan part occurs nowhere in it and is as long as it can be |
| `Rebase.CollectedLacks` | src/nova_editor/core/rebase.py:135-145 | The orphans collected are exactly the longest ranges of live pieces that the new file holds nothing of, each once |
| `Rebase.OneLength` | src/nova_editor/core/rebase.py:145-145 | The length of these ranges does not depend on the order in which they were met |
| `Rebase.Rebaser.CopyOrphans` | src/nova_editor/core/rebase.py:153-161 | Each orphan is appended once and its copy is a true piece with the bytes of the old range; an error exactly when the read of some orphan fails |
| `Rebase.Rebaser.Rewrite` | src/nova_editor/core/rebase.py:165-184 | The content denotes the bytes it denoted, its copied summary is that of its bytes, every byte the file holds is taken from its first occurrence there, and a content without pieces of older generations has no contiguous neighbours; an error only when an oracle that has to be asked refuses |
| `Rebase.Rebaser.TranslateAll` | src/nova_editor/core/rebase.py:134-163 | All contents keep their bytes, or the history goes because more than the limit would have to be kept and no generation is free; the reported number of orphan bytes is the length of the distinct ranges that the new file lacks, and it alone decides; an error only when the way it takes meets a failing read, a refusing oracle or missing old files; a range whose read fails is never passed over |
| `Rebase.Rebaser.Translate` | src/nova_editor/core/rebase.py:123-132 | Whatever fails on the way, every content denotes the bytes it denoted before the save under the new sources, with the right summary, or the history is given up because no generation is free; unless a read fails, an oracle refuses or the old files are missing, the old files are kept, or the history goes, exactly when the distinct ranges the new file lacks exceed the limit; everything is retained only behind such a failure |
| `Rebase.RetainAll` | src/nova_editor/core/rebase.py:55-74 | Renumbering everything into the next generation keeps every content; it fails exactly when a generation is free but the old files are missing |
| `Rebase.GenerationKeeps` | src/nova_editor/core/rebase.py:220-221 | Pieces renumbered into the retained generation stay true and denote the same bytes |
| `Rebase.CarriedBytes` | src/nova_editor/core/rebase.py:165-184 | Places carried over denote the same bytes |
| `Rebase.NoDroppedSource` | src/nova_editor/core/rebase.py:55-74 | Whatever plan a save makes, each piece of its contents lies inside a source that the table still has, and refers to the files of before the save only when the plan keeps them |
| `Rebase.MergeBuilt` | src/nova_editor/core/rebase.py:178-184 | Joining rewritten neighbours keeps truth and places, leaves no contiguous pair of them, and the pieces of older generations stay as they are |
| `SparseRows.EntriesAre` | src/nova_editor/core/row_scanner.py:60-67 | Entry k is the end of terminator number (k + 1) times the stride, and there is one for each |
| `SparseRows.AllLongsAre` | src/nova_editor/core/row_scanner.py:56-67 | The long rows are exactly the rows of the naive split above the threshold, in order |
| `RowScanner.RowScanner.Feed` | src/nova_editor/core/row_scanner.py:38-48 | After each block everything found is that of all bytes fed so far; a CR at the edge waits for the next block |
| `RowScanner.RowScanner.ScanLf` | src/nova_editor/core/row_scanner.py:69-85 | The fast path for a block without CR finds what the bytes have |
| `RowScanner.RowScanner.ScanMixed` | src/nova_editor/core/row_scanner.py:87-92 | The mixed path finds what the bytes have, except for a CR at the edge of a block that is not the last |
| `RowScanner.RowScanner.Finish` | src/nova_editor/core/row_scanner.py:56-58 | Together with what was taken: the count, the entries and all long rows of the whole data |
| `RowScanner.ScanBlocks` | src/nova_editor/core/row_scanner.py:38-58 | For every cut of the data into non-empty blocks the totals are those of the unsplit bytes |
| `LineIndex.Walker.Advance` | src/nova_editor/core/line_index.py:115-127 | The end and the terminator of the next row, whatever the windows are; no more is paid than the bytes up to one window behind the row; out of budget exactly when more than the budget was spent |
| `LineIndex.CrossRow` | src/nova_editor/core/line_index.py:361-389 | Crossing a row, by a jump over a recorded one or by reading, gives the row of the naive split and pays at most twice the threshold plus two per row, a tail read apart |
| `LineIndex.TailTerminator` | src/nova_editor/core/line_index.py:397-407 | The terminator of a recorded row from a read of two bytes that is charged |
| `LineIndex.LineIndex.Publish` | src/nova_editor/core/line_index.py:444-456 | Publishing what one block gave keeps the published state true for the longer scanned part |
| `LineIndex.LineIndex.Scan` | src/nova_editor/core/line_index.py:424-442 | However the blocks come, the scan ends complete and has asked for every byte once, unless a look finds a cancel; then what was published stays true for the blocks read |
| `LineIndex.LineIndex.FromScan` | src/nova_editor/core/line_index.py:198-208 | An index made from a scanner that saw every byte is a valid complete index of the data |
| `LineIndex.LineIndex.OnlyOneComplete` | src/nova_editor/core/line_index.py:198-208 | Two complete indexes of the same bytes with the same settings are the same in every stored column: an index built while saving equals a rescan |
| `LineIndex.LineIndex.Truthful` | src/nova_editor/core/line_index.py:259-281 | Count and scanned end are a lower bound at any time, and exact once complete |
| `LineIndex.LineIndex.RoomFor` | src/nova_editor/core/line_index.py:178-180 | With stride * (2 * threshold + 2) + 2 within the budget no walk between two entries exceeds it |
| `LineIndex.LineIndex.CrossNext` | src/nova_editor/core/line_index.py:361-389 | One row of a walk: the row of the naive split, or over the budget only when the bytes from the entry to the end of that row, and one window and one tail for each recorded row on the way, cost more than the budget |
| `LineIndex.LineIndex.Resolve` | src/nova_editor/core/line_index.py:361-389 | A prefix of the rows asked for, each the row of the naive split; the source is asked for no more than the budget; a list shorter than asked for ends at the last resolvable row or at a row whose walk costs more than the budget; with room the first one is always there |
| `LineIndex.LineIndex.RowRange` | src/nova_editor/core/line_index.py:283-297 | Every answer is the row of the naive split, the source is asked for no more than the budget, a resolvable row is refused only when its walk costs more than the budget, and with room never |
| `LineIndex.LineIndex.Lines` | src/nova_editor/core/line_index.py:345-359 | A prefix of the rows asked for within the budget; shorter than `count` and the limit per call only at the last resolvable row or at a row whose walk costs more than the budget |
| `LineIndex.LineIndex.RowAtOffset` | src/nova_editor/core/line_index.py:299-343 | Every answer is the row that holds the offset, the source is asked for no more than the budget, an offset in front of the open row is refused only when the walk to its row costs more than the budget, and with room never |
| `Utf8.DecodeEncode` | src/nova_editor/core/text_width.py:128-130 | Decoding loses nothing: encoding the characters gives the bytes back |
| `Utf8.DecodeAt` | src/nova_editor/core/text_width.py:105-117 | At a character boundary the text is the text of both parts |
| `Utf8.SafeCut` | src/nova_editor/core/text_width.py:105-117 | The cut is a character boundary whatever follows, and at most three bytes are held back |
| `Utf8.ByteOfFacts` | src/nova_editor/core/long_line_index.py:535-565 | The place of character k is a boundary with exactly k characters in front of it |
| `Utf8.BoundaryIsByteOf` | src/nova_editor/core/long_line_index.py:646-666 | The characters in front of a boundary name the character that starts there |
| `TextWidth.Cells` | src/nova_editor/core/text_width.py:30-44 | The shortcuts for plain text give the sum of the character widths |
| `TextWidth.AdvanceDisp` | src/nova_editor/core/text_width.py:47-58 | The column behind a text is that of taking its characters one by one, tabs to the next stop |
| `TextWidth.CoverInChunk` | src/nova_editor/core/text_width.py:61-79 | Skipping whole groups finds the first character whose end column exceeds the target |
| `TextWidth.LocateCover` | src/nova_editor/core/text_width.py:82-102 | The first character whose end column exceeds the target, zero-width characters and tabs included, or a miss when there is none |
| `TextWidth.ShiftColumns` | src/nova_editor/core/long_line_index.py:140-181 | Text moved sideways keeps its relative columns if and only if it has no tab or the move is a multiple of the tab width |
| `LongRow.ColumnsBehind` | src/nova_editor/core/long_line_index.py:225-229 | A column behind an edit, moved by the change of width, is exact if and only if no tab lies between the edit and the place or the change is a multiple of the tab width |
| `LongRow.MarkBehind` | src/nova_editor/core/long_line_index.py:225-229 | Characters and bytes of a checkpoint behind an edit, moved by the deltas, are exact for the edited row |
| `LongRow.ShiftedTail` | src/nova_editor/core/long_line_index.py:209-228 | The checkpoints behind an edit, moved by the deltas, continue a table of the edited row; their columns are exact under the tab condition |
| `LongRow.SoundMove` | src/nova_editor/core/long_line_index.py:212-217 | The checkpoints in front of an edit are those of the edited row |
| `LongLineIndex.Publish` | src/nova_editor/core/long_line_index.py:438-461 | One checkpoint per step of characters, each exact for the whole row, and the totals of the decoded text |
| `LongLineIndex.LongLineIndex.constructor` | src/nova_editor/core/long_line_index.py:88-137 | A fresh index is valid, also one that resumes at a known state, and complete exactly for an empty row |
| `LongLineIndex.LongLineIndex.ScanSpan` | src/nova_editor/core/long_line_index.py:412-436 | However the blocks come, the checkpoints are those of the whole row and the totals at the limit are those of decoding the span at once; it gives up exactly when a look at the cancel event finds the request |
| `LongLineIndex.LongLineIndex.ScanBlock` | src/nova_editor/core/long_line_index.py:422-432 | One round: what was held back is decoded together with the next block, and no sequence is torn |
| `LongLineIndex.LongLineIndex.Attach` | src/nova_editor/core/long_line_index.py:397-410 | The tail is appended exactly when the last checkpoint is the one announced and no column of it is negative; a mismatch is recorded and the table stays; a negative column breaks off with the characters already extended |
| `LongLineIndex.LongLineIndex.ScanGap` | src/nova_editor/core/long_line_index.py:386-395 | Scanning the inserted text closes a gap and brings back the completeness of the old index; it stops exactly when a look finds a cancel and then leaves the gap open and true; without a cancel it breaks exactly at a tail with a negative column |
| `LongLineIndex.LongLineIndex.Scan` | src/nova_editor/core/long_line_index.py:366-384 | Without a cancel the scan ends with the complete index, gap or not, except that it breaks exactly at a gap whose tail has a negative column; it stops only for a cancel and leaves the index valid; ascending columns go on ascending exactly when the tail does not begin left of the inserted text |
| `LongLineIndex.LongLineIndex.Insert` | src/nova_editor/core/long_line_index.py:230-241 | Short text at once, longer text by a scan, very long text as a gap: the table is right in each case and ends with the shifted tail; it fails exactly when a tail attached now has a negative column |
| `LongLineIndex.LongLineIndex.Adopt` | src/nova_editor/core/long_line_index.py:204-241 | All branches of `_adopt` give a valid table of the edited row, keep the density, lose nothing that was known, also when the scan of the text is left to the thread, and keep columns exact under the tab condition; it fails exactly when a column behind the edit would be negative and the text is not left to the scan |
| `LongLineIndex.LongLineIndex.Spliced` | src/nova_editor/core/long_line_index.py:140-181 | The index after an edit is a right index of the edited row: characters and bytes exact, ascending, neighbours at most one step apart when they were, the known part, with the gap left to the scan, ends where it ended, moved by the edit, columns exact under the tab condition and ascending exactly as told before the call; no index exactly when a moved column would be negative |
| `LongLineIndex.LongLineIndex.ExactEditsFit` | src/nova_editor/core/long_line_index.py:204-229 | An index with exact columns never meets a negative column and keeps its columns ascending, whatever tabs lie behind the edit |
| `LongLineIndex.LongLineIndex.FirstDecides` | src/nova_editor/core/long_line_index.py:209-228 | In a table with ascending columns the first checkpoint behind the removed range decides, before the call, both whether a moved column is negative and whether the columns go on ascending |
| `LongRowRuns.OverflowRun` | src/nova_editor/core/long_line_index.py:397-410 | Two truthful edits after each other of which the second finds a negative column and gives no index |
| `LongRowRuns.DescendingRun` | src/nova_editor/core/long_line_index.py:209-229 | Two truthful edits after each other, no tab behind the second, after which the columns do not ascend |
| `LongLineIndex.LongLineIndex.Rebased` | src/nova_editor/core/long_line_index.py:184-202 | Nothing exactly when the lengths differ; otherwise every checkpoint is kept and what was known stays known |
| `LongLineIndex.LongLineIndex.TryCharToByte` | src/nova_editor/core/long_line_index.py:556-565 | An answer exactly inside the scanned part or when complete, and then the byte place of the clamped column in the decoded row |
| `LongLineIndex.LongLineIndex.TryCharToDisp` | src/nova_editor/core/long_line_index.py:567-576 | The display column of the clamped column, measured over the whole row while the columns are exact |
| `LongLineIndex.LongLineIndex.TryDispToChar` | src/nova_editor/core/long_line_index.py:578-605 | For whatever columns the table holds: no answer exactly beyond the scanned part, else the first character behind the bisected checkpoint whose end column, measured from there, exceeds the target, with `ceil` the one behind it; with exact columns that is the character of the whole row |
| `LongLineIndex.LongLineIndex.OneAnchor` | src/nova_editor/core/long_line_index.py:578-605 | While the columns ascend the bisected checkpoint is the last one at or left of the target |
| `LongLineIndex.LongLineIndex.TryGetSlice` | src/nova_editor/core/long_line_index.py:607-626 | The characters asked for, at most one step of them and none beyond the scanned part |
| `LongLineIndex.LongLineIndex.ByteToChar` | src/nova_editor/core/long_line_index.py:646-666 | The characters decoded from the bytes in front of an offset, also one inside a sequence |
| `LongLineIndex.LongLineIndex.Inverse` | src/nova_editor/core/long_line_index.py:646-666 | At character boundaries the two directions invert each other |
| `Save.SaveJob.ReadParts` | src/nova_editor/core/save.py:350-358 | Joined parts of full length are exactly the bytes asked for |
| `Save.SaveJob.WriteAll` | src/nova_editor/core/save.py:449-458 | Partial writes put the bytes at their place, over preallocated zeros too; a failure leaves a prefix and touches nothing else |
| `Save.SaveJob.Stream` | src/nova_editor/core/save.py:340-376 | When it ends, the temporary file holds the document, the layout runs are true and gapless, and the scanner saw the document; a failure or a cancel touches the temporary file only; it stops only for a cancel or a step that went wrong, and for a cancel requested before it unless the document is empty |
| `Save.SaveJob.Settle` | src/nova_editor/core/save.py:290-295 | Behind it the file is flushed, a reader is open and no cancel is pending; a cancel requested before it stops it unless a step fails first |
| `Save.SaveJob.BuildIndex` | src/nova_editor/core/save.py:378-391 | The index made from the scanner of the save is a complete index of the new file |
| `Save.SaveJob.Finish` | src/nova_editor/core/save.py:312-338 | A result exactly when no step fails; else the reader is closed and the failure says `committed` unless closing the adopted source failed too |
| `Save.SaveJob.Commit` | src/nova_editor/core/save.py:295-302 | `committed` is set exactly by the replace; the directory is flushed behind it or its error is ignored |
| `Save.SaveJob.Abandon` | src/nova_editor/core/save.py:303-310 | Without a replace every descriptor is closed and the temporary file is gone, or its name kept only because removing it failed |
| `Save.SaveJob.Run` | src/nova_editor/core/save.py:266-310 | One outcome under any failures, partial writes and cancels: a result means that the target is the document, flushed before the replace; without a replace the target shows what it showed in every state and after a crash; no descriptor leaks; a cancel pending at the last check prevents the replace, and only a cancel is reported as one; each failure is one of the steps its stage names; unless something went wrong the replace happens and the directory is flushed |
| `Save.CleanUp` | src/nova_editor/core/save.py:202-211 | The exit hook tries every kept name exactly once, leaves a name only when removing it failed, and touches no other |
| `Save.NeverTorn` | src/nova_editor/core/save.py:214-219 | In every state a reader sees the old file or the whole new one and never the old one again; a crash leaves what it could have left before the save or the whole new file, and once only the new one can be left that stays so |
| `Save.SureWhenSettled` | src/nova_editor/core/save.py:295-302 | Behind the replace a crash is sure to leave the new file exactly when the flush of the directory succeeded, or when nothing else could have been left before; without that flush everything a crash could have left before is still possible |
| `Save.PlanOfPlaces` | src/nova_editor/core/save.py:111-120 | The runs a table gives for a range denote that range of the document |
| `Save.RunsCoverFile` | src/nova_editor/core/save.py:360-363 | The recorded runs cover the new file without gap or overlap |
| `Save.CommitLostRun` | src/nova_editor/core/save.py:329-337 | For any document, a run in which every file operation succeeds, building the line index fails and so does closing the adopted source: the new file is durably in place, the job has committed, and the failure says that it has not |
| `ByteSource.PreadSource.Read` | src/nova_editor/core/byte_source.py:152-178 | Every answer is the slice of the file as opened, whatever the cache holds and others do; an error exactly for an earlier failure, a change of size or time, or a failed system call of this read, and for one user of which kind; a bad argument or a closing source is refused; partial reads are continued |
| `ByteSource.PreadSource.Put` | src/nova_editor/core/byte_source.py:230-235 | The block becomes the last one, the oldest one goes, never more than the limit are kept |
| `ByteSource.PreadSource.Hit` | src/nova_editor/core/byte_source.py:222-227 | A hit gives the block of the opened file and makes it the last one |
| `ByteSource.PreadSource.Check` | src/nova_editor/core/byte_source.py:203-214 | An error exactly for an earlier failure or a changed size or time, and it stays |
| `ByteSource.PreadSource.PreadRaw` | src/nova_editor/core/byte_source.py:244-259 | Exactly the bytes asked for, continued over partial reads; an error exactly when a system call fails or the file is too short, and the two are told apart; calls are made only while bytes are missing |
| `ByteSource.PreadSource.ReadUnverified` | src/nova_editor/core/byte_source.py:261-277 | The bytes the file holds now, and exactly when it is long enough and no system call fails; the source is not marked |
| `CloseProtocol.InvStep` | src/nova_editor/core/byte_source.py:152-201 | Every step of every thread keeps the invariant of readers and closers |
| `CloseProtocol.OpenWhileReading` | src/nova_editor/core/byte_source.py:165-201 | In every run the descriptor is open whenever a counted read uses it |
| `CloseProtocol.NothingAfterClose` | src/nova_editor/core/byte_source.py:180-201 | In every run, after `os.close` no read uses the descriptor, none begins and it is not closed again |
| `CloseProtocol.NoReaderAtClose` | src/nova_editor/core/byte_source.py:195-198 | In every run the descriptor is closed only when no read is in flight |
| `CloseProtocol.FollowerWaits` | src/nova_editor/core/byte_source.py:189-193 | In every run a second `close` returns only after the first one closed the descriptor |
| `CloseProtocol.RefusedWhileClosing` | src/nova_editor/core/byte_source.py:155-158 | In every run no read begins once a close has begun |
| `CloseProtocol.ReadCanBegin` | src/nova_editor/core/byte_source.py:152-158 | In every run, as long as no close has begun, every idle thread can begin a read or a check, and none is refused |
| `CloseProtocol.RefusalMeansClosing` | src/nova_editor/core/byte_source.py:155-158 | In every run a refused read or check, and a close that follows another, comes after a close that has begun |
| `CloseProtocol.CloseGoesOn` | src/nova_editor/core/byte_source.py:195-198 | A close that has begun is never stuck: either it can close, or a read in flight can end |
| `CloseProtocol.EveryoneGoesOn` | src/nova_editor/core/byte_source.py:165-201 | In every run a read and a check can end at any time, the first close as soon as no read is in flight, a later one once the descriptor is closed |
| `CloseProtocol.CheckAfterClose` | src/nova_editor/core/byte_source.py:132-142 | A run in which an uncounted check looks at the descriptor after it was closed |
| `RowSource.RowSource.constructor` | src/nova_editor/core/row_source.py:22-35 | The row is the bytes of the pieces, empty ones skipped |
| `RowSource.RowSource.Read` | src/nova_editor/core/row_source.py:41-71 | Bytes of the row as it was taken, also after the add segments grew: all of them up to the first piece source that comes back short, an error exactly for a negative argument or when one gives nothing |
| `RowSource.RowSource.AllGiven` | src/nova_editor/core/row_source.py:41-71 | When no piece source comes back short the whole range is read |

## Left out

- LongLineIndex.LongLineIndex.Spliced: asks for an edit whose bytes, characters and added width are those of the texts and for a clean decode at both junctions, as the source documents; the removed width may be any number. The error for an edit that does not describe the bytes is modelled in `Attach` alone.
- ByteSource.PreadSource.Read: the file does not change during one call, and a change of its bytes shows in size or time, as the source assumes.
- Rebase.Rebaser.Translate: the new add store has room for one segment per copied byte, so that segment numbers do not run out.
- The user interface, the document layer above the core, search, the virtual file system and the scheduler.
- Threads, locks, timeouts, subscribers, progress throttling and yielding; steps of other threads appear as choices of the environment between critical sections.
- The columns of a leaf are one sequence of pieces instead of parallel arrays, and checkpoint arrays are sequences; columns that exceed 64 bits are not modelled (negative ones are).
- The heap of the sweep is a set from which the least run number is taken.
- The regular expression engine: terminators are specified directly.
- The width of a character is any function that is 1 for printable ASCII; the tables behind it are not part of this model.
- Estimates and approximations: `_scaled`, `byte_to_char_approx`, `decode_from_byte` and `resync`.
- The cache of segment objects in `PieceTable._source_of`, which changes no answer.
- Recorded scan errors: a failed index raises its error on every query; the queries here ask for an index that has not failed.
- Errors of the file while a line index or a long-row index reads it; these indexes read an unchanged file. Failing reads are modelled in `Save`, `Rebase`, `ByteSource` and `RowSource`.
- `tail_chars_of` and `make_piece` reading through a failing source.
- `content_bytes`, `byte_content`, `iter_range` and `row_source` of the piece table, which put together what `Read` and `LayoutRange` give.
- File modes, `fstat` identities, `check_path` and the messages of errors; each call that sets or reads them may fail at its place.
- An unverified read of a file whose bytes changed at the same length: the saved document is what the sources then hold.
- The temporary name is assumed to differ from the target, and no other process touches the directory except by removing the temporary file.
- A crash leaves one of the directories passed through since the last flush of the directory; file systems that persist single entries in another order are not part of this model.
- `MemorySource`, key chords, goto parsing and case folding.
