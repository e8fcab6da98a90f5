# Yarrow: models and proofs

Yarrow turns uploaded documents into pages, text and tables. This project models
seven parts of it in Dafny and proves what each of them is for.

`dafny verify dfyconfig.toml` checks everything.

**Hashing and resumable upload** (`Words`, `JsNumbers`, `Fips180`, `RoundConstants`,
`Sha256Arithmetic`, `Sha256`, `Chunks`, `ResumableUpload`). `Fips180` is SHA-256 as
FIPS 180-4 defines it. The browser's block hasher is a class over arrays and signed
32-bit numbers; it is proved to compute that function, however the message is cut
up. The upload loop, the retries, sessions the server closes, a second tab and lost
replies are modelled around it, up to one statement: an accepted upload is the local
file, or a collision of SHA-256; and an upload that nothing disturbs is accepted.

**Search** (`EditDistance`). The table of the OCR-tolerant match is proved against
alignments of two strings, and its answer against single edits of a string.

**Reading order** (`Sorting`, `ColumnBands`, `ReadingOrder`, `RegionData`). Columns
are found from the blocks' geometry, and the order is a permutation that puts first
what is to be read first.

**Tables** (`TableHtml`, `TableGeometry`, `TableStitch`, `DocumentTree`). From the
tags of a table to cells, boxes, tables that go on over pages, and the painted grid:
the grid of a stitched table is the grids of its parts, one below the other.

**Jobs** (`PageSelection`, `JobProtocol`, `JobStore`). Every locked transaction of
the worker, a cancel, a trash and a reprocess is one step of a state machine. Steps
may come in any order and from any number of workers, duplicates and late ones
included.

**Leases, quota and limits** (`BatchNotifications`, `BatchStore`, `StorageQuota`,
`QuotaStore`, `VerificationCodes`, `AccountStore`). Three more state machines with
times as reals, and the classes whose methods are their steps. The times of
different steps need not be ordered, except that within one resend the clock does
not go back.

**Smaller parts** (`FolderWalk`, `Thumbnails`, `ThumbnailCache`, `Text`,
`ComposeSync`). The capped walk of a dropped folder, the thumbnail cache with its
asynchronous requests, and the generator of the devcontainer's compose file.

`Options` holds the one option type, `Sets` facts about sizes of sets, `MinMax` the
smaller and larger of two numbers. A module named after a store or cache holds a class
with the fields the source updates; each method is proved equal to a step of the module
with the rules, so what is proved of all runs holds of the methods.
`hide` in a proof keeps definitions it does not need out of sight.
`{:induction false}` leaves every induction of a lemma to its own body.

## Findings

Where the code does less than its own text says, the model follows the code, and a
lemma says exactly when it does what the text says.

- Used bytes are not always the bytes of the documents. An import locks the user's row,
  but goes on from the total its session read when the request began
  (`backend/app/services/cloud_storage.py:366-371`) and writes that plus its own bytes
  (`:430`), although `backend/app/core/verification.py:90-91` says why such a row must be
  read again. An upload in between is forgotten, and the refund of a wipe can then be cut
  off at zero (`StorageQuota.OutdatedImportForgetsUpload`). An import keeps the books
  exactly when it adds no bytes or has seen the total there is
  (`StorageQuota.ImportBalancesExactly`), and they balance throughout a run exactly when
  each of its imports does (`StorageQuota.BalancedThroughoutExactly`).
- A claimed batch that a file joins is to be claimed anew, since its counts are stale
  (`backend/app/api/v1/endpoints/documents.py:302-308`). The join reads the batch without
  a lock and clears what it has read; a claim after that read survives and can be
  acknowledged (`BatchNotifications.OverlookedJoinIsAnnounced`). What is announced counts
  every file exactly when no join since the last offer was of that kind
  (`BatchNotifications.AnnouncedAfterOffer`).
- The limit on verification codes is stated per hour
  (`backend/app/core/verification.py:7-15`). It is one of fixed windows. An hour in
  which no window opens after its start keeps it, and the hour of every window start does
  (`VerificationCodes.SafeHour`, `WindowHourIsSafe`). As a window opens, it can be told
  whether an hour across the opening can still exceed the limit: exactly when one of the
  last sends was so late that the rest, at the pace of the cooldown, falls within its
  hour (`VerificationCodes.HourCanExceedExactly`). Nine sends is the most, and is reached
  (`HourLimit`, `NineInAnHour`).
- A synced file is recognised by its remote id so that it is not imported twice
  (`backend/app/services/cloud_storage.py:375-385`). Trashing clears that id. So a
  file is imported again exactly when its document went to the trash since, and no
  import took it since then (`StorageQuota.ImportedAgainExactly`); trashed, restored
  and imported again is such a run (`StorageQuota.RestoredIsImportedAgain`).
- A table without cells is shown as one row, because its part's last row is not
  before its first (`DocumentTree.NodeRowsAreGridRows`: the row counts agree exactly
  when the table has cells).
- With exactly 500 files found, `truncated` may be set although nothing was left
  out, as the comment at `frontend/src/lib/folderFiles.ts:135-137` says.
  `FolderWalk.ScanEntries` states exactly when; one folder of 500 files is such a drop
  (`FolderWalk.FullFolderCountsAsCutShort`).
- Two cells of a table share a slot exactly when the later one's column span reaches
  under the earlier one in its own row (`TableHtml.OverlapExactly`), which the occupied
  slots show before it is placed (`TableHtml.OverlapSeenAhead`). A table of three cells
  does it (`TableHtml.OverlapFromTags`).
- The task takes any tuple of page numbers (`worker/app/tasks/ingestion.py:250`).
  Results land in their own slots exactly when it is increasing
  (`PageSelection.OwnSlotsExactlyWhenIncreasing`); for [2, 1] they change places
  (`PageSelection.ReversedPagesSwapResults`). The lists a reprocess sends always are
  (`PageSelection.SelectedPagesLineUp`).

## Model

| member | source | states |
|---|---|---|
| Sha256.HashChunks | frontend/src/lib/sha256.ts:35-78 | However a message below 2^53 bytes is cut into chunks, feeding them one after the other and taking the digest gives the FIPS 180-4 SHA-256 of their concatenation |
| Sha256.Sha256Hex | frontend/src/lib/sha256.ts:134-136 | The digest of one buffer is its FIPS 180-4 SHA-256, in lowercase hex |
| Sha256.Sha256.Update | frontend/src/lib/sha256.ts:35-56 | The hasher stays the buffered state of everything fed so far followed by this data; it is refused, without any change, once the digest was taken |
| Sha256.Sha256.FillBlock | frontend/src/lib/sha256.ts:39-47 | A started block is completed first: afterwards either all data is buffered, or the state is the hash of whole blocks up to where the data goes on |
| Sha256.Sha256.AbsorbBlocks | frontend/src/lib/sha256.ts:48-50 | After the loop the state is the hash of all whole blocks of the message, and less than one block of data is left |
| Sha256.Sha256.AbsorbRest | frontend/src/lib/sha256.ts:48-54 | The whole blocks are in the state and the bytes after them in the block |
| Sha256.Sha256.Hex | frontend/src/lib/sha256.ts:59-78 | The digest is the SHA-256 of everything fed, whichever of the one- and two-block padding it takes, and taking it again gives the same answer |
| Sha256.Sha256.MakePadding | frontend/src/lib/sha256.ts:61-69 | The bytes built in the buffer are the padding of section 5.1.1 of FIPS 180-4 for a message of this length |
| Sha256.PaddingMatches | frontend/src/lib/sha256.ts:61-69 | 0x80, zeros and two 32-bit big-endian length words are that padding, for every length below 2^53: one block or two, and the high word without overflow |
| Sha256.BigEndianSplit | frontend/src/lib/sha256.ts:61-69 | The two 32-bit words are the 64-bit length |
| Sha256.PaddedDigits | frontend/src/lib/sha256.ts:75-77 | A word in base 16, padded with zeros to eight digits, is its eight hexadecimal digits |
| Sha256.Sha256.FillSchedule | frontend/src/lib/sha256.ts:81-97 | The schedule array holds the sixty-four words of the message schedule of section 6.2.2 |
| Sha256.Sha256.RunRounds | frontend/src/lib/sha256.ts:98-120 | The loop over signed 32-bit variables computes the sixty-four rounds of section 6.2.2 on their bits |
| Sha256.Sha256.Compress | frontend/src/lib/sha256.ts:80-130 | Compressing a block replaces the state by the next hash value of section 6.2.2 |
| Sha256Arithmetic.RoundMatches | frontend/src/lib/sha256.ts:99-119 | One turn of the loop, with `| 0`, signed shifts and xors, is one round on the bits, for any integers the variables may hold |
| Sha256Arithmetic.ScheduleMatches | frontend/src/lib/sha256.ts:90-97 | One turn of the schedule loop is the recurrence of the message schedule |
| Sha256Arithmetic.WordsMatch | frontend/src/lib/sha256.ts:82-89 | Shifting and or-ing four bytes, possibly into a negative number, and storing the result gives the big-endian word |
| Sha256Arithmetic.SumBits | frontend/src/lib/sha256.ts:96-119 | `| 0` of a sum of signed numbers is, on the bits, addition modulo 2^32 |
| JsNumbers.SameBits | frontend/src/lib/sha256.ts:96-119 | A number and its signed 32-bit form have the same bits |
| Words.OrOfShiftedBytes | frontend/src/lib/sha256.ts:84-88 | Or-ing shifted bytes adds them |
| Words.NotIsXorOnes | frontend/src/lib/sha256.ts:104 | Complementing a word flips each of its bits |
| RoundConstants.RoundConstantsAreCubeRoots | frontend/src/lib/sha256.ts:10-22 | Every round constant is the first 32 bits of the fractional part of the cube root of its number in the list 2, 3, 5, ..., 311, section 4.2.2 |
| RoundConstants.InitialValueIsSquareRoots | frontend/src/lib/sha256.ts:25-28 | Every word of the initial hash value is taken from the square root of its number in that list, section 5.3.3 |
| Fips180.ZeroBytesAreFewest | frontend/src/lib/sha256.ts:63-65 | No shorter run of zero bytes leaves room for the length in the last block |
| ResumableUpload.UploadSession | frontend/src/lib/resumableUpload.ts:396-460 | A run that reaches finalize has hashed the whole file, sent exactly the chunks not confirmed before, in ascending order, and counted every byte; every chunk on the server then has the digest of the local one. It is accepted exactly when finalize accepts, and the one document then has the digest of the local file. It pauses only when told to, and once told sends nothing more; it stops for a different file only if some confirmed chunk does differ; and undisturbed on a session of this file alone it is accepted and the document is the file |
| ResumableUpload.SendRest | frontend/src/lib/resumableUpload.ts:437-446 | The loop from any resume point: it ends having fed chunks 0 to n-1 in order, each once, whatever was confirmed |
| ResumableUpload.TakeChunk | frontend/src/lib/resumableUpload.ts:439-444 | One turn: the hash grows by exactly this chunk, and the chunk is on the server with the right digest unless it was confirmed |
| ResumableUpload.ConfirmedBytes | frontend/src/lib/resumableUpload.ts:404-406 | The bytes counted as confirmed at the start are those of the confirmed chunks |
| ResumableUpload.ProveSameFile | frontend/src/lib/resumableUpload.ts:425-435 | With the confirmed chunks listed in any order: all are compared, and the hash takes exactly those that come in order |
| ResumableUpload.SendChunk | frontend/src/lib/resumableUpload.ts:289-323 | At most three attempts, all three when the last had no reply or failed on the server's side; success means the server holds bytes of this digest, although a reply may be lost and another tab may send too |
| ResumableUpload.UploadResumable | frontend/src/lib/resumableUpload.ts:388-498 | An accepted upload made exactly one document, and it is the local file, or the two are a SHA-256 collision; a session of another file is dropped and the file sent afresh, once. An undisturbed upload, new or resumed, is accepted and its document is the file |
| ResumableUpload.ChunkDigestsSuffice | frontend/src/lib/resumableUpload.ts:380-385 | Matching chunk digests alone make the assembled document the local file, or one chunk a collision |
| ResumableUpload.VerifiedDigests | frontend/src/lib/resumableUpload.ts:425-430 | Confirmed chunks whose checksums match the local file hold chunks of its digests |
| Chunks.NextChunk | frontend/src/lib/resumableUpload.ts:179 | The slices of a file by index continue one another, the last one short |
| Chunks.SizesAgree | backend/app/api/v1/endpoints/uploads.py:109-113 | Every slice of the client has the size the server expects for its index, and is not empty |
| Chunks.AssembledFile | backend/app/api/v1/endpoints/uploads.py:520-537 | The client's chunks put end to end are the file |
| ResumableUpload.Server.Put | backend/app/api/v1/endpoints/uploads.py:330-462 | Storing a chunk changes no stored chunk; acceptance means the stored bytes have the digest of those sent; only a first chunk of a refused kind closes the session |
| ResumableUpload.Server.Finalize | backend/app/api/v1/endpoints/uploads.py:463-640 | A document is only made of all chunks of an open session in order, with the size promised and the digest the client gave, and never changes afterwards; with all chunks but another size or digest the session is closed without a document, with a chunk missing it stays open, and a finished one answers a mismatch to any other digest |
| ResumableUpload.Server.OtherTab | backend/app/api/v1/endpoints/uploads.py:330-700 | Whatever another tab sends, finalizes or gives up: no stored chunk changes, a document stays, a closed session stays closed |
| EditDistance.WithinOneEdit | backend/app/services/search_query.py:159-186 | True exactly when the strings are equal or one insertion, deletion, substitution or swap of neighbours apart, whatever the length shortcut and the swap of operands |
| EditDistance.FillTable | backend/app/services/search_query.py:170-186 | Every entry of the table is the optimal-string-alignment distance of its two prefixes |
| EditDistance.FillRow | backend/app/services/search_query.py:174-186 | One row of it, from the two rows above |
| EditDistance.NearIffOneEdit | backend/app/services/search_query.py:159-186 | Distance at most one is exactly at most one edit, stated on the strings without any table |
| EditDistance.NoCheaperAlignment | backend/app/services/search_query.py:174-186 | No way of editing one string into the other, left to right, costs less than the recurrence says |
| EditDistance.BestAlignment | backend/app/services/search_query.py:174-186 | ... and one costs exactly that |
| EditDistance.Symmetric | backend/app/services/search_query.py:159-173 | The distance does not depend on the order of the operands |
| EditDistance.LengthBound | backend/app/services/search_query.py:159-173 | The distance is at least the difference of the lengths, so the shortcut loses no match |
| EditDistance.FuzzySpan | backend/app/services/search_query.py:151-156 | The first token at most one edit from the word, or none if there is none |
| EditDistance.FuzzyMatchesStayClose | backend/app/services/search_query.py:116-122 | A loose match of an eligible word has its length, give or take one |
| ReadingOrder.OrderBlocks | worker/app/pipeline/reading_order.py:27-86 | On every path each block comes out exactly once; on a page with several columns in reading order, on a page with one column by height where the model numbered all blocks |
| ReadingOrder.OrderTaken | worker/app/pipeline/reading_order.py:27-86 | Columns are read one by one exactly on a page with a positive width, a box for every block, one of them at most half as wide as the page, and a gutter; such a page without a gutter is read by height if every block is numbered; every other page is left to the fallback |
| ReadingOrder.BoxOfNumbers | worker/app/pipeline/reading_order.py:104-118 | A bounding box is four numbers, left, top, right and bottom, that span an area |
| ReadingOrder.Page.OrderIsReadingOrder | worker/app/pipeline/reading_order.py:67-86 | The multi-column order is a permutation in which of any two blocks the one to be read first comes first: a separator after the blocks that start strictly above it and before those that start at its top or below, and between two separators columns left to right, each top to bottom |
| ReadingOrder.Page.ReadFirstMeans | worker/app/pipeline/reading_order.py:67-86 | What is read before a block over two columns starts above it, and what is read after it does not; of two others with none of these starting between them the one in the column further left comes first, and in one column the higher one, equal heights in the model's order; with one between, the one above |
| ReadingOrder.OrderByColumns | worker/app/pipeline/reading_order.py:67-86 | The loop over the separators computes that order |
| ReadingOrder.Page.BandBelowMeans | worker/app/pipeline/reading_order.py:168-171 | A block is below the separators whose top is at or above its own, and above all others |
| ReadingOrder.Page.ColumnsInOrder | worker/app/pipeline/reading_order.py:174-186 | One band's columns come left to right, and within a column tops do not decrease |
| ReadingOrder.ColumnOrder | worker/app/pipeline/reading_order.py:174-186 | The loop over the columns computes that |
| ReadingOrder.LegacyPermutes | worker/app/pipeline/reading_order.py:89-94 | The fallback order is a permutation, by the model's number if every block has one, else by id if every block has one, else as the blocks come; equal ones keep their order |
| ReadingOrder.ByHeightMeans | worker/app/pipeline/reading_order.py:50-60 | On a page read by height the higher block comes first, equal heights in the model's order |
| ColumnBands.MergeIntervals | worker/app/pipeline/reading_order.py:149-156 | The loop computes the merging the next three rows are about |
| ColumnBands.MergedSeparated | worker/app/pipeline/reading_order.py:149-156 | Merging sorted intervals gives intervals strictly apart from each other, in order |
| ColumnBands.MergedCovers | worker/app/pipeline/reading_order.py:149-156 | ... covering exactly the points the intervals covered |
| ColumnBands.MergedContains | worker/app/pipeline/reading_order.py:149-156 | ... each interval inside one of them |
| ColumnBands.GuttersProper | worker/app/pipeline/reading_order.py:131-138 | Gutters lie strictly inside the page, in order and apart, and no merged interval reaches into one |
| ColumnBands.FindGutters | worker/app/pipeline/reading_order.py:131-138 | Of separated intervals the loop finds every strip between neighbours inside the page and wider than a fiftieth of it, and no other |
| ColumnBands.PageGuttersExactly | worker/app/pipeline/reading_order.py:120-146 | The gutters of a page are exactly the strips wider than a fiftieth of it, inside it, from the right edge of one block to the left edge of another, that no block reaches into; counting blocks at least a tenth and at most half as wide as the page |
| ColumnBands.SeveralColumnsExactly | worker/app/pipeline/reading_order.py:120-146 | So a page has several columns exactly when there is such a strip |
| ColumnBands.ApartAcrossGutter | worker/app/pipeline/reading_order.py:120-146 | ... and no column overlaps blocks on both sides of one |
| ColumnBands.BandsAreColumns | worker/app/pipeline/reading_order.py:120-146 | The bands start at 0, end at the page width, have positive width and are in strict order |
| ColumnBands.ColumnBands | worker/app/pipeline/reading_order.py:120-146 | The function computes those bands |
| ColumnBands.SpansTwo | worker/app/pipeline/reading_order.py:159-165 | A block spans exactly when two different bands overlap it |
| ColumnBands.OverlapIsCommon | worker/app/pipeline/reading_order.py:159-165 | The overlap is the length of what block and band have in common |
| ColumnBands.CountedBlocksDoNotSpan | worker/app/pipeline/reading_order.py:120-146 | Every block used in the gutter search overlaps at most one band, so only full-width or narrow blocks span |
| ColumnBands.BestIsFirstLargest | worker/app/pipeline/reading_order.py:189-197 | The loop settles on the first band with the largest overlap |
| ColumnBands.DominantOfOverlapping | worker/app/pipeline/reading_order.py:189-197 | A block that overlaps exactly one band is put in that band, any other overlapping block in one it overlaps most |
| ColumnBands.DominantBand | worker/app/pipeline/reading_order.py:189-197 | The loop computes that band |
| RegionData.PairTables | worker/app/pipeline/document_parser.py:514-529 | Blocks keep their order; the k-th block of kind "table" gets the k-th result as long as there is one, and no other block gets any |
| RegionData.SortRegionData | worker/app/pipeline/document_parser.py:560-575 | Sorting moves each block together with its table result, into the reading order of the blocks |
| TableHtml.ParseTable | worker/app/pipeline/document_parser.py:124-201 | Over any stream of tags: every cell lies at the first free slot of its row, its anchor is covered by no earlier cell, and an earlier cell shares a slot with a later one exactly when the later one's column span reaches under it in its own row. The slot search ends |
| TableHtml.TableHtmlParser.FindSlot | worker/app/pipeline/document_parser.py:159-161 | The search passes over occupied slots only and stops at a free one |
| TableHtml.TableHtmlParser.StartCell | worker/app/pipeline/document_parser.py:157-177 | The cell goes to the first free slot from the column on, and the column moves past it; it shares a slot with an earlier cell exactly when one of its row's slots right of its anchor was occupied |
| TableHtml.TagsMean | worker/app/pipeline/document_parser.py:136-177 | A row tag starts the next row, td and th place a cell with spans of at least one, and any other tag changes nothing |
| TableHtml.EndTagsMean | worker/app/pipeline/document_parser.py:178-201 | The end of td or th closes the open cell, and any other end changes nothing |
| TableHtml.TableHtmlParser.Feed | worker/app/pipeline/document_parser.py:136-201 | Feeding tags goes through the states the tag-by-tag rules give |
| TableHtml.NoOverlapWithoutColumnSpans | worker/app/pipeline/document_parser.py:159-166 | A later cell of one column overlaps no earlier cell |
| TableHtml.OverlapExactly | worker/app/pipeline/document_parser.py:159-177 | Two cells share a slot exactly when the later one's columns, right of its anchor and in its own row, meet a slot of the earlier one |
| TableHtml.OverlapSeenAhead | worker/app/pipeline/document_parser.py:159-177 | Whether a cell will share a slot can be read off the occupied slots of its row before it is placed |
| TableHtml.OverlapFromTags | worker/app/pipeline/document_parser.py:124-201 | The parser makes two cells share a slot for a table of three cells, one two rows tall and one two columns wide |
| TableHtml.OverlappingRun | worker/app/pipeline/document_parser.py:124-201 | ... by the tag-by-tag rules, on every run over these tags |
| TableGeometry.CountsReached | worker/app/pipeline/document_parser.py:390-400 | No cell reaches past the row and column counts, and some cell reaches each |
| TableGeometry.EdgesRise | worker/app/pipeline/document_parser.py:107-113 | Edges start at the lower end, end at the upper, never decrease, and strictly increase on a real interval |
| TableGeometry.DerivedBoxInside | worker/app/pipeline/document_parser.py:380-420 | Every derived box lies inside the table's box, with an area if that has one; the edge indexes are in range |
| TableGeometry.DerivedBoxesDisjoint | worker/app/pipeline/document_parser.py:380-420 | Cells that share no slot get boxes that share no area |
| TableGeometry.CellBoxes | worker/app/pipeline/document_parser.py:380-420 | The boxes of the OCR exactly when there is one for every cell, else the derived ones, else none |
| TableStitch.GroupRegionTables | worker/app/pipeline/document_parser.py:355-378 | The groups are the parts in order, cut exactly where two do not go on from one another: the last block of one page and the first of the next, equally wide and not empty |
| TableStitch.StitchedPartsAlike | worker/app/pipeline/document_parser.py:355-378 | Parts stitched together are not empty and equally wide |
| TableStitch.BuildTable | worker/app/pipeline/document_parser.py:422-512 | One table with the title of the last part that has one, one part row per part with its row range, and every cell of every part, in order |
| TableStitch.RowRangesTile | worker/app/pipeline/document_parser.py:422-512 | The row ranges of a stitched table tile its rows: each is as long as its part and starts right after the one before; each part spans all columns |
| PageSelection.ProcessPages | worker/app/pipeline/document_parser.py:314-332 | Without a list every page's result is in its own slot; with any list that lines up, each listed page's result is, and every other slot is as it was set up. A page number that is no slot is an error |
| PageSelection.SlotsAre | worker/app/pipeline/document_parser.py:328-330 | Page n has slot n, page 0 the last one, and a larger number none |
| PageSelection.OwnSlotsExactlyWhenIncreasing | worker/app/pipeline/document_parser.py:314-332 | For a list of different pages in range and results that differ, every result is in its own slot exactly when the list is increasing |
| PageSelection.ReversedPagesSwapResults | worker/app/pipeline/document_parser.py:314-332 | With the list [2, 1] the two pages' results change places |
| DocumentTree.AttachCells | backend/app/services/document_tree.py:316-349 | Every table gets exactly the nodes of its own parts' cells, in the order visited, and is marked as having spans exactly if one of them spans |
| DocumentTree.NodesAreOwn | backend/app/services/document_tree.py:316-349 | These are the cells whose part belongs to the table, each once, as visited |
| DocumentTree.NodeIs | backend/app/services/document_tree.py:334-345 | A node lies at its part's first row plus its own, nulls counting as the first slot and as no span |
| DocumentTree.TreeShowsStoredCells | backend/app/services/document_tree.py:316-349 | The stored cells of a stitched table come out at the rows the stitching gave them, in whatever order they are visited |
| TableStitch.VisitIsParseOrder | backend/app/services/document_tree.py:268-282 | Visited by row and column, the stored cells of a part come back in the order they were parsed in |
| TableStitch.ParseOrderIsRowOrder | backend/app/services/document_tree.py:268-282 | ... which is by row and column |
| TableStitch.PaintedInPart | backend/app/services/document_tree.py:334-340 | Within a part's rows only that part's cells paint, and as in the part's own grid |
| TableStitch.TableGridSize | backend/app/services/document_tree.py:373-391 | The stitched table is as tall as its parts together and as wide as each |
| DocumentTree.NodeRowsAreGridRows | backend/app/services/document_tree.py:374-391 | The node has as many rows as the grid exactly if the table has cells: an empty table is shown as one row |
| DocumentTree.EveryRowHasItsSource | backend/app/services/document_tree.py:370-371 | Every row of a table of nonempty parts is listed once, with the page of its part |
| TableStitch.StitchIsConcatenation | backend/app/services/markdown.py:254-270 | The dense grid of a stitched table is the grids of its parts, one below the other in part order, in whatever order the cells are visited |
| TableStitch.ParsedPartsStack | backend/app/services/markdown.py:254-270 | With cells as the tags gave them and visited by row and column, these are the grids of the parsed parts themselves |
| TableStitch.BuildGrid | backend/app/services/markdown.py:254-270 | The painted grid is as tall and wide as the cells reach, and every slot shows the text of the last cell visited whose rectangle of rows and columns holds it, or nothing |
| TableStitch.PaintedShows | backend/app/services/markdown.py:266-269 | So does the painting the stitching results are about |
| PageSelection.PagesToProcessIsComplement | backend/app/services/reprocess.py:82-88 | The pages in 1 to page_count that are not completed, each once, increasing |
| PageSelection.SelectedPagesLineUp | backend/app/services/reprocess.py:82-88 | So the list a reprocess sends always lines up with its slots |
| JobStore.JobStore.ReprocessDocument | backend/app/services/reprocess.py:222-293 | The locked part is one step of the protocol; it is refused exactly while the latest job is active and alive |
| JobProtocol.RequeuedJob | backend/app/services/reprocess.py:222-293 | Unless it is refused a new job waits, a silent one has failed, the document is queued, and the total is the number of pages not completed, or of all where the document was complete or canceled |
| PageSelection.TasksLineUp | worker/app/tasks/ingestion.py:158-159 | Filtering 1 to n by a list gives the list back exactly when it is increasing and in that range |
| JobProtocol.NextKeepsInv | worker/app/tasks/ingestion.py:162-342 | Every step of the worker, a page event, a cancel, a trash, a reprocess or a wipe keeps: the counter is the number of finished page rows, there are none or as many rows as the total says, and a canceled job has no open page |
| JobProtocol.ReachableInv | worker/app/tasks/ingestion.py:162-342 | So this holds after every interleaving of those steps, duplicates and late ones included |
| JobProtocol.ProcessedNeverExceedsTotal | worker/app/tasks/ingestion.py:176-215 | In every reachable state pages_processed is the number of completed or failed rows and at most total_pages |
| JobProtocol.CanceledRunDoesNothing | worker/app/tasks/ingestion.py:162-169 | No worker step for a canceled job changes any row at all |
| JobProtocol.StatusChanges | worker/app/tasks/ingestion.py:162-345 | Which steps give a job a new status: taking it up, saving, failing, canceling or stopping it, and reprocessing a silent one |
| JobProtocol.StatusAfter | worker/app/tasks/ingestion.py:162-287 | ... and the status and stage they leave it in |
| JobProtocol.DocumentAfter | worker/app/tasks/ingestion.py:218-287 | Taking up, failing, canceling and stopping change the status of the document as they should, and nothing else of it |
| JobProtocol.RowAfter | worker/app/tasks/ingestion.py:176-215 | A page's row follows the events told of it; late, repeated and foreign ones change no row |
| JobProtocol.RowsAtReset | worker/app/tasks/ingestion.py:308-314 | Afterwards exactly the pages of the run have a row, all waiting, and the total is their number |
| JobProtocol.CanceledForever | worker/app/tasks/ingestion.py:162-342 | Over every run a canceled job stays canceled, its page rows never change, and no stored page is written for it |
| JobProtocol.SaveReplacesTargetedPages | worker/app/tasks/ingestion.py:308-345 | Saving stores the pages the run was asked for as they came out, drops what it replaces, leaves every other page, and completes the document exactly if some page is completed |
| JobProtocol.SavedRunIsComplete | worker/app/tasks/ingestion.py:516-535 | A run that saves, and one that fails, ends at 100 percent |
| JobProtocol.SavedStatus | worker/app/tasks/ingestion.py:516-535 | A saved job is failed exactly when the run had pages and all of them failed, and completed otherwise |
| JobProtocol.SavedDocument | worker/app/tasks/ingestion.py:308-345 | Saving leaves page rows and stored pages as the pages came out and the others alone, and a document completed exactly if one of its pages is |
| JobStore.JobStore.StartJob | worker/app/tasks/ingestion.py:265-287 | The first transaction is that step |
| JobStore.JobStore.LockRunningJob | worker/app/tasks/ingestion.py:162-168 | Goes on exactly with a job that exists and was not canceled |
| JobStore.JobStore.SetStage | worker/app/tasks/ingestion.py:171-173 | Setting the stage is that step |
| JobStore.JobStore.ResetPages | worker/app/tasks/ingestion.py:308-314 | Setting up the page rows is that step: one queued row per page of the run |
| JobStore.JobStore.RecordPage | worker/app/tasks/ingestion.py:176-215 | The conditional updates are that step: a repeated, late or racing event counts nothing twice |
| JobStore.JobStore.SaveResults | worker/app/tasks/ingestion.py:329-535 | The field-by-field updates of the last transaction are that step |
| JobStore.JobStore.MarkFailed | worker/app/tasks/ingestion.py:218-239 | Marking a run as failed is that step |
| JobProtocol.ProgressStep | backend/app/services/job_progress.py:35-40 | No step but taking up the job or setting up its page rows takes the percentage back, whoever takes it |
| JobProtocol.ProgressNeverGoesBack | backend/app/services/job_progress.py:35-40 | Over a run without these, the percentage stays within 0 and 100, never decreases, and is 100 once the job is finished |
| JobProtocol.MoreDoneMorePercent | backend/app/services/job_progress.py:35-40 | More finished pages never mean a smaller percentage |
| JobProtocol.ProgressIsShare | backend/app/services/job_progress.py:35-40 | The percentage of an unfinished job is the share of its pages that are done, rounded down, and that of a finished one 100 |
| JobProtocol.StoppedForever | backend/app/services/document_deletion.py:223-248 | The unfinished jobs of a trashed document stay canceled and write nothing more |
| JobProtocol.WipedDocument | backend/app/services/document_deletion.py:100-145 | A wiped document takes its own jobs and rows with it, and no others |
| JobStore.JobStore.StopUnfinishedJobs | backend/app/services/document_deletion.py:223-248 | The loop over the unfinished jobs is that step: job, open pages and document |
| StorageQuota.NextKeepsInv | backend/app/services/document_deletion.py:194-466 | Every step keeps, for every user, used bytes exactly the bytes of their documents, trashed included, and within the quota, but for an import that brings in bytes on top of a total it read earlier: the books stay right exactly when the step is not one of those |
| StorageQuota.BalancedThroughoutExactly | backend/app/services/document_deletion.py:194-466 | Over every interleaving of imports, uploads, trashing, restoring, purging and deleting, by any number of users: the books balance in every state exactly when no import of the run goes on from an outdated total |
| StorageQuota.QuotaConserved | backend/app/services/document_deletion.py:194-466 | So over every such run a user's used bytes are the sizes of their documents, never negative and never over the quota |
| StorageQuota.RefundIsExact | backend/app/services/document_deletion.py:194-207 | While the books balance, the clamp at 0 never bites |
| StorageQuota.LedgerOfAnyRun | backend/app/services/document_deletion.py:194-220 | Over any run from any state: what a user uses at the end, plus every byte wiped, plus what outdated imports wrote over, is what they used at the start plus every byte that came in plus what refunds were cut off at 0 |
| StorageQuota.Ledger | backend/app/services/document_deletion.py:210-220 | Over a run whose imports are current the last two are nothing: each wiped document is refunded exactly once |
| StorageQuota.OnlyTrashIsWiped | backend/app/services/document_deletion.py:319-466 | Only a document in the trash is wiped, by its owner or because its time is over |
| StorageQuota.PurgedAfterRetention | backend/app/services/document_deletion.py:369-414 | A purged document was put in the trash at least seven days before the purge's clock, by one step, and was in the trash in every state since |
| StorageQuota.TrashHasAStart | backend/app/services/document_deletion.py:282-366 | A document in the trash was put there by one step whose time it carries, and has not left since |
| StorageQuota.RestoredIsImportedAgain | backend/app/services/document_deletion.py:300-305 | A run in which it happens: the trash forgets the remote id, so a restored document is imported a second time by the next sync |
| QuotaStore.QuotaStore.WipeLockedDocument | backend/app/services/document_deletion.py:210-220 | The rows go and exactly their size is refunded |
| QuotaStore.QuotaStore.SoftDeleteDocument | backend/app/services/document_deletion.py:282-316 | Trashing is that step |
| QuotaStore.QuotaStore.RestoreDocument | backend/app/services/document_deletion.py:319-366 | Restoring is that step; it answers restored or expired exactly when the document came back or was wiped, and not found to anyone but the owner, without any change |
| StorageQuota.RestoreExactly | backend/app/services/document_deletion.py:319-366 | Nothing happens to a document of someone else's or out of the trash; otherwise it is live again as it was, or gone if its seven days are over |
| QuotaStore.QuotaStore.PurgeIfExpired | backend/app/services/document_deletion.py:394-414 | Checked again under the lock, so a document restored meanwhile stays |
| QuotaStore.QuotaStore.PurgeExpiredDocuments | backend/app/services/document_deletion.py:369-391 | Exactly the expired documents that no one holds are gone, and the books balance |
| QuotaStore.QuotaStore.PermanentlyDeleteTrashed | backend/app/services/document_deletion.py:417-444 | Wipes exactly a trashed document of this owner |
| QuotaStore.QuotaStore.EmptyUserTrash | backend/app/services/document_deletion.py:447-466 | Exactly the owner's trashed documents that no one holds are gone, and the books balance |
| QuotaStore.QuotaStore.SyncCredentialDocuments | backend/app/services/cloud_storage.py:354-432 | The import loop is that step, from the total its session has seen; it keeps the books exactly when it is current |
| StorageQuota.ImportBalancesExactly | backend/app/services/cloud_storage.py:366-430 | An import keeps the books exactly when it adds no bytes or has seen the total there is; otherwise they are off by just what it has not seen |
| StorageQuota.OutdatedImportForgetsUpload | backend/app/services/cloud_storage.py:366-430 | A run in which that happens: an upload after the total was read is forgotten, and wiping it later takes more than the total has |
| StorageQuota.ImportKeepsBalance | backend/app/services/cloud_storage.py:374-421 | An import adds documents of this user only, changes none, and adds to the total it started from exactly their bytes, within the quota |
| StorageQuota.SyncTwice | backend/app/services/cloud_storage.py:375-386 | Syncing the same remote files again changes nothing, even after an import the quota cut short, unless it has seen a smaller total than the first came to |
| StorageQuota.GivenDocumentExactly | backend/app/services/cloud_storage.py:374-421 | A listed file that the loop reaches, allowed and fitting, is given a document exactly when none of the user's documents carries its remote id by then |
| StorageQuota.ForgottenExactly | backend/app/services/cloud_storage.py:375-386 | Over any run from where a remote file is imported, no document carries its id at the end exactly when a step put the one that did in the trash and no later step took the file again |
| StorageQuota.ImportedAgainExactly | backend/app/services/cloud_storage.py:375-386 | So after any run an import that reaches an imported file gives it a second document exactly when its document went to the trash in between and it was not taken again since |
| BatchNotifications.OfferedExactlyWhenDue | backend/app/services/batch_notifications.py:107-134 | The claim's query offers a batch exactly when it is claimable and is_finished and is_sealed hold of its live documents |
| BatchNotifications.OfferedExactlyFor | backend/app/services/batch_notifications.py:96-134 | ... in terms of the rows: the owner's batches, not announced, not leased in the last minute, with live documents that have all come to an end, sealed or ten minutes after the last of them came |
| BatchNotifications.CountsAreRows | backend/app/services/batch_notifications.py:147-159 | Each count is the number of live documents of that status, and the total the number of all |
| BatchNotifications.FinalCounts | backend/app/services/batch_notifications.py:53-57 | The three final counts make up the total exactly when every status is final, unknown statuses included |
| BatchNotifications.AnnouncedForGood | backend/app/services/batch_notifications.py:181-208 | notified_at is set at most once: over any run it keeps its value |
| BatchNotifications.AnnouncedOnce | backend/app/services/batch_notifications.py:96-208 | An announced batch is never offered and never announced again, whatever joins it or is reprocessed |
| BatchNotifications.NotifiedStep | backend/app/services/batch_notifications.py:181-208 | Only an acknowledgement of a claimed batch by its owner sets notified_at |
| BatchNotifications.LeaseApart | backend/app/services/batch_notifications.py:107-145 | Two claims that offer the same batch with no file joining in between are at least the lease apart, on whatever clocks they read |
| BatchNotifications.LeaseStep | backend/app/services/batch_notifications.py:107-145 | Only a file that joins ends a lease early |
| BatchNotifications.OfferedAgain | backend/app/services/batch_notifications.py:107-145 | An unacknowledged batch is offered again once its lease has run out |
| BatchNotifications.AnnouncedAfterOffer | backend/app/services/batch_notifications.py:181-208 | A batch is only announced after it was offered; that no file joined after the last offer holds exactly when no join since wrote to a batch it had read before the claim |
| BatchNotifications.OverlookedJoinIsAnnounced | backend/app/services/batch_notifications.py:181-208 | A run in which it does not: a claim between the read and the write of a join is acknowledged with its old counts |
| BatchStore.BatchStore.ClaimBatchNotifications | backend/app/services/batch_notifications.py:96-178 | One notification for each batch offered, oldest first, telling how many of its live documents completed, failed and were canceled, which add up to all; pending counts at least those |
| BatchStore.BatchStore.CountStatuses | backend/app/services/batch_notifications.py:147-159 | The grouped counts of every claimed batch |
| BatchStore.BatchStore.AcknowledgeBatchNotifications | backend/app/services/batch_notifications.py:181-208 | Announces exactly the given batches of this owner that are claimed and unannounced |
| BatchStore.BatchStore.SealBatch | backend/app/services/batch_notifications.py:74-78 | A batch read as sealed is left alone, and any other is sealed afterwards |
| BatchStore.BatchStore.SyncCompletedAt | backend/app/services/batch_notifications.py:81-93 | Where the batch read is still the one there, a completion date is there afterwards exactly if it was told to be finished, and a date that was there is kept |
| JobStore.JobStore.CancelProcessing | backend/app/api/v1/endpoints/documents.py:922-988 | A cancel is one step of the protocol: it takes effect exactly on a job that has not finished, and is refused without any change otherwise |
| JobProtocol.AddedDocument | backend/app/api/v1/endpoints/documents.py:483-505 | An accepted file: its document and first job wait, and nothing else changes |
| BatchStore.BatchStore.GetOrCreateBatch | backend/app/api/v1/endpoints/documents.py:280-310 | A file joining clears the seal, completion and claim it has read; a claim stays exactly if it came after that read. A stranger is refused and changes nothing |
| VerificationCodes.RunKeepsInv | backend/app/core/verification.py:49-84 | After every run: sends are spaced, lie in windows an hour apart that each open with a send, no window has more than the maximum, and the row holds the last send, its window and its count |
| VerificationCodes.SendsSpaced | backend/app/core/verification.py:49-55 | Any two sends are at least the cooldown apart |
| VerificationCodes.WindowLimit | backend/app/core/verification.py:56-84 | No window holds more than the maximum |
| VerificationCodes.HourLimit | backend/app/core/verification.py:49-84 | Any half-open hour holds at most 2 * MAX - 1 sends |
| VerificationCodes.HourCanExceedExactly | backend/app/core/verification.py:49-84 | When a send opens a window, some further steps make an hour across the opening hold more than the maximum exactly when the account is unconfirmed and, for some j from 1 to MAX - 1, the j-th send before is so late that MAX - j more sends at the pace of the cooldown still fall within its hour |
| VerificationCodes.HourAcrossWindow | backend/app/core/verification.py:49-84 | An hour over the maximum has a window opening strictly inside it, with at most MAX - 1 sends before that and at most MAX from it on |
| VerificationCodes.SafeHour | backend/app/core/verification.py:49-84 | So an hour in which no window opens after its start keeps the limit |
| VerificationCodes.WindowHourIsSafe | backend/app/core/verification.py:49-84 | ... as does the hour of every window start |
| VerificationCodes.NineInAnHour | backend/app/core/verification.py:49-84 | The bound of HourLimit is reached: nine sends within one hour, although the maximum is five |
| VerificationCodes.GuessLimit | backend/app/core/verification.py:7-15 | Over any run at most MAX_ATTEMPTS wrong guesses per code sent |
| VerificationCodes.ConfirmedExactly | backend/app/core/verification.py:106-121 | Over any run a step confirms an unconfirmed account exactly when it is a password reset, or a guess that is the code sent last, at most fifteen minutes after that, with fewer than five guesses since |
| VerificationCodes.SentExactly | backend/app/core/verification.py:49-61 | Over any run a resend for an unconfirmed account is sent exactly when a minute has passed since the last send, and its window's hour is over or has had fewer than five |
| VerificationCodes.VerifiedForGood | backend/app/core/verification.py:115-121 | A confirmed account is sent no code and takes no guess |
| AccountStore.Account.CanSendCode | backend/app/core/verification.py:49-61 | The two early answers are the two limits |
| AccountStore.Account.IssueVerificationCode | backend/app/core/verification.py:64-84 | A new code, the full attempt budget, and the send counted in the open or a new window |
| AccountStore.Account.ResendVerification | backend/app/api/v1/endpoints/auth.py:128-142 | Sends exactly when the account is unverified and the limits allow it |
| AccountStore.Account.VerifyEmail | backend/app/api/v1/endpoints/auth.py:101-120 | Confirms exactly on the current, unexpired code with attempts left; a wrong guess costs one attempt |
| AccountStore.Account.ConfirmByReset | backend/app/api/v1/endpoints/auth.py:179-212 | A password reset confirms an unverified account, clears its code and changes nothing of a verified one |
| FolderWalk.ScanEntries | frontend/src/lib/folderFiles.ts:210-217 | The files are the first min(500, n) acceptable readable files depth first; `truncated` exactly when there are more, or when exactly 500 were found before the last dropped item was over; otherwise the skipped and unreadable counts are exact. The walk ends |
| FolderWalk.FoundOfVisited | frontend/src/lib/folderFiles.ts:142-180 | Of all that is looked at, depth first and skipping what is in hidden folders: found are the readable files not ignored, skipped the ignored files and folders, unreadable the other files that cannot be read and folders whose reader fails |
| FolderWalk.FullFolderCountsAsCutShort | frontend/src/lib/folderFiles.ts:133-140 | A folder of exactly 500 readable files counts as cut short although all are taken; the same files dropped by themselves do not |
| FolderWalk.Scan.Walk | frontend/src/lib/folderFiles.ts:142-180 | The same of one entry, from any state of the scan |
| FolderWalk.Scan.WalkFolder | frontend/src/lib/folderFiles.ts:151-168 | ... of one folder, batch by batch |
| FolderWalk.Scan.Take | frontend/src/lib/folderFiles.ts:63-71 | Ignored paths are counted, others kept up to the cap |
| FolderWalk.Scan.Full | frontend/src/lib/folderFiles.ts:133-140 | At the cap the list is said to be cut short |
| FolderWalk.FoundAsDelivered | frontend/src/lib/folderFiles.ts:151-168 | What is found depends on the entries a reader gives before it ends or fails, not on how it batches them |
| FolderWalk.IgnoredExactly | frontend/src/lib/folderFiles.ts:45-50 | A path is ignored exactly when a name in it starts with a dot or its last name is a system file's, in any letter case |
| FolderWalk.LowerIs | frontend/src/lib/folderFiles.ts:45-50 | Small letters for A to Z and nothing else changed |
| FolderWalk.PathOfIs | frontend/src/lib/folderFiles.ts:142-143 | The path is the full path without the slashes it starts with, or else the name |
| FolderWalk.HiddenBelow | frontend/src/lib/folderFiles.ts:145-150 | Everything below a hidden folder would be ignored anyway |
| FolderWalk.ScanFileList | frontend/src/lib/folderFiles.ts:78-88 | The first 500 acceptable files, `truncated` exactly when some are left out, and every file is kept, skipped or left out |
| FolderWalk.AcceptableAre | frontend/src/lib/folderFiles.ts:78-88 | The acceptable paths are those of the files not ignored, each once and in order |
| FolderWalk.ScanDataTransfer | frontend/src/lib/folderFiles.ts:190-218 | Uses the entries exactly when every dropped file has an entry interface and there is one, else the plain list |
| Thumbnails.NextKeepsInv | frontend/src/lib/thumbnails.ts:29-62 | Every load, reply, failure, clean-up or clear keeps the bookkeeping of URLs and requests |
| Thumbnails.CachedOrRevoked | frontend/src/lib/thumbnails.ts:29-62 | In every interleaving each object URL ever created is either cached under exactly one key or was revoked exactly once |
| Thumbnails.CacheIsCurrent | frontend/src/lib/thumbnails.ts:41-49 | What is cached was asked for under its key since the last clear |
| Thumbnails.OneInFlight | frontend/src/lib/thumbnails.ts:33-55 | Each key has at most one request in flight since the last clear, and none waiting once it is cached |
| Thumbnails.CacheKeyInjective | frontend/src/lib/thumbnails.ts:7-9 | Two pages never share a key |
| ThumbnailCache.ThumbnailCache.LoadPageThumbnail | frontend/src/lib/thumbnails.ts:29-55 | A returned URL is not revoked and is that of the page; what is waited for is this key's one request in flight |
| ThumbnailCache.ThumbnailCache.HandleReply | frontend/src/lib/thumbnails.ts:41-49 | The reply is cached exactly if the cache was not cleared since the request started |
| ThumbnailCache.ThumbnailCache.HandleEnd | frontend/src/lib/thumbnails.ts:50-52 | A request forgets itself only, not one that took its place |
| ThumbnailCache.ThumbnailCache.RevokePageThumbnails | frontend/src/lib/thumbnails.ts:57-62 | Afterwards nothing is cached or pending and every URL ever made is revoked |
| ComposeSync.RoundTrip | scripts/sync-dev-compose.py:53-116 | Whatever the header and the editor's service: parsing the generated text gives exactly that service and the shared ones, each with the root file's lines but for the prefixed container names, and the root's volumes section up to blank lines at its end; a text is generated exactly when no shared service is missing |
| ComposeSync.ParsedBlocks | scripts/sync-dev-compose.py:53-95 | Every parsed service is its own line, lines inside it, and ends with a line that is not blank; the volumes section is a section of that name |
| ComposeSync.ParseCompose | scripts/sync-dev-compose.py:53-89 | The loop computes the parse these rows are about |
| ComposeSync.PrefixUndone | scripts/sync-dev-compose.py:98-102 | Taking the prefix off again gives the line back, so different container names stay different |
| ComposeSync.PrefixKeepsBlock | scripts/sync-dev-compose.py:98-102 | Prefixing keeps a service a service of that name |
| ComposeSync.ServiceNameIs | scripts/sync-dev-compose.py:78-83 | A service line is two spaces, a name, a colon and nothing but white space |
| Text.SplitJoin | scripts/sync-dev-compose.py:71-116 | Lines joined by line ends split into the same lines |

## Left out

- HTTP, Celery, object storage and the database itself: a locked transaction is one atomic step, and one that fails or times out changes nothing. A total an import has seen may be any number.
- Floating-point rounding: coordinates and times are reals, and `nan` is not modelled.
- Sha256.Sha256.Hex: messages of 2^53 bytes and more, where the byte counter of the source is no longer exact.
- ResumableUpload.UploadSession: the progress percentages, the waits between attempts, and the bookkeeping of remembered sessions in the browser; the server's refusals that do not close the session are arbitrary error replies.
- EditDistance.FuzzySpan: the tokens are given; the regular expressions, Unicode normalisation and quoting of the query parser are not modelled, and which characters are letters is a parameter.
- ReadingOrder.OrderBlocks: blocks carry the fields the ordering looks at, as JSON values; numbers are integers or reals.
- TableHtml.ParseTable: the stream of tags is given, with the span attributes as numbers where `int` accepts them; the HTML tokenizer and the white-space joining of a cell's text are not modelled.
- TableGeometry.CellBoxes: the source's search for scores and confidences of boxes is not modelled.
- TableStitch.BuildTable: identifiers, titles beyond the one kept, confidences and the rule `_consecutive_parts` applies to page positions are taken as the code has them; nothing is claimed about a part being the last on its page.
- ResumableUpload.Server.Put: whether the content of a first chunk, or of the whole file, is of an allowed kind is a free choice; the guess by signature is not modelled.
- Merging and splitting stored tables when pages are processed again (`worker/app/tasks/ingestion.py:451-508`, `packages/yarrow-db/src/yarrow_db/utils/table_utils.py`) and table editing.
- JobProtocol.NextKeepsInv: whether the latest job is alive at a reprocess is a parameter, since it depends on a time-out; error messages, model names and stored images are not modelled, nor is the write after a failed enqueue (`backend/app/services/reprocess.py:303-309`, `backend/app/api/v1/endpoints/documents.py:530-545`, `backend/app/api/v1/endpoints/uploads.py:655-671`), which takes no lock and would overwrite a cancel that came in between. Nothing says that a document has one active job at most: it can have two.
- JobProtocol.CanceledForever: job and document ids are never used twice; a wiped document takes its jobs with it.
- BatchNotifications.OfferedExactlyWhenDue: a document's status is never null; SQL and Python treat null differently.
- StorageQuota.NextKeepsInv: null sizes and totals are zero; document ids are new. `delete_document` (`backend/app/services/document_deletion.py:251-279`), which nothing calls, and storage reserved by unfinished uploads are not modelled.
- VerificationCodes.RunKeepsInv: codes are compared as text; hashing them and drawing them at random is not modelled.
- FolderWalk.IgnoredExactly: letter case is that of the Latin alphabet without accents.
- Thumbnails.CachedOrRevoked: a step is a callback or a call; when the browser runs it is arbitrary, and a request that never answers is one that takes no further step.
- ComposeSync.RoundTrip: the command line and the comparison of `--check`. The text of the header and of the editor's service is a parameter: header lines at the left margin that begin with neither a colon nor a `v`, and a service that is not a shared one.
- Quality checks, page rotation, OCR calls, sign-in, mail and the user interface: nothing of these is modelled.
- RoundConstants.RoundConstantsAreCubeRoots: that the sixty-four numbers of the list are the first sixty-four primes.
