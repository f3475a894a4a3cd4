# A verified model of the PDF-to-law-tree compiler

The repository turns printed law (PDF pages, or their OCR) into a tree of chapters,
parts, sections, tables and footnotes. Its standing promise is conservation: no body
line, table cell or footnote is lost, doubled or given to the wrong owner. This project
models the algorithms that carry the promise and proves it, or proves exactly when it
holds.

What a line looks like (its code, whether it is a heading, bold, a bracket line or a
table) is given per line as a field or a predicate. Everything computed from those
facts is modelled: index cursors, placement passes, spanning grids, markup read back
character by character, in-place table surgery, splices, votes, byte offsets.

| module | what it models |
|---|---|
| `Common`, `Decimals` | filters, ranges, sorting; decimal notation and its round trip |
| `Placement`, `PlacementLaws` | the three passes that place section starts; which line each gives each entry |
| `Containers` | parent links of the container tree, and the part codes in scope of a container |
| `Conservation` | bracket-prefix pull-back, hand-off at a heading, cut: which section keeps which line |
| `Geometry`, `GeometryLaws` | cell boxes to a spanning grid; which piece stands for which box |
| `Tables` | spanning grids, dense rows, and the resolution of owners with rowspan carries |
| `TableMarkup` | the table markup printed and read back, character by character |
| `TableRoundTrip` | print, read, resolve: the whole way round |
| `FragmentMerge`, `FragmentTails` | merging a page-split fragment into its table, on values; which cell each text of a wrapped row reaches |
| `FragmentColumns` | where the blanks land when a lead row's rowspans are made explicit |
| `FragmentOwners` | who owns the cells below once the lead row is fused away |
| `FragmentTables` | the same merge on mutable cell objects |
| `Footnotes` | splitting a zone into notes, splicing continuations across pages |
| `FootnoteGrids`, `FootnoteGridLaws` | which records a ruled grid may stand for, and rendering each record once; what a note comes out as |
| `Adoption` | the completeness net for uncited footnotes |
| `Discovery`, `DiscoveryLaws` | chapters and sections found in a body without contents; which lines become which |
| `Voting`, `VoteRescue` | majority vote over transcriptions; rescue of reordered words |
| `PdfWriter` | the byte-exact PDF writer, read back by its own cross-references |
| `NodeKeys`, `Compilation`, `CompilationLaws` | path-like node keys; moving a flat tree into instruments |
| `Dehyphenate` | joining words wrapped at a line break |
| `Remap`, `RemapLaws` | re-paging an export against its rendered pages; where the walk settles each leaf |
| `Outliers` | severe low counts among sibling editions |
| `LineGrouping` | clustering words into lines |

Where the source changes things step by step, a method with the same loops is proved
equal to a specification function, and the lemmas are about that function. Objects the
source mutates (table cells, tables, leaves, the footnote store, the document) are classes.

## Where the code keeps less than it says

Each of these comes with an input on which the code falls short and the exact condition
under which it does not.

* **Hand-off and cut read different evidence.** The hand-off to section k + 1 looks for
  its heading with the part codes in scope of section k + 1, the cut of section k with
  those of section k. Body text is conserved if and only if no cut sees a heading before
  the hand-off behind it does (`Conservation.ConservationIff`). Sharing or deepening the
  part-holding containers is enough. A contents tree that leaves a chapter with parts for
  one without, and a form printed before it, lose text
  (`Conservation.LeavingAChapterWithPartsCanLoseText`).
* **Conservation is not ownership.** A section keeps a line of its own if and only if the
  next section starts behind it and no heading in its scope stands between the section's
  start and the line (`Conservation.OwnLineStays`); under one shared scope the headings
  alone decide (`Conservation.OwnLineStaysInOneScope`). With two headings between two
  sections the own heading line passes on (`Conservation.OwnHeadingCanPassOn`).
* **Eight passes are not a fixpoint.** The comment on `_dehyphenate` says its loop always
  reaches one. In a run of adjacent hyphens let every wrap weigh 1, and the hyphens with a
  one-letter continuation in front of a wrap 2, 4, 8 and so on, counted back from it. Each
  pass at least halves that weight on any text under any vocabulary, so eight passes end
  below 256 (`Dehyphenate.EightPassesSuffice`). Where the vocabulary knows the joins
  as solid words, a run of words and a word spelled with single letters end if and only if
  they weigh less (`Dehyphenate.LongRunsStopShort`, `Dehyphenate.SpelledWordsStopShort`):
  257 times "aa", or nine times "a" and "aa", stay unfinished
  (`Dehyphenate.TwoHundredFiftySixWraps`, `Dehyphenate.NineLetters`).
* **Escaping does not protect a carriage return.** A text survives `_escape` and a reader
  if and only if it holds none (`PdfWriter.EscapeRoundTrips`); a page's lines come back
  from the file if and only if they hold none and are Latin-1 (`PdfWriter.TextReadBack`).
* **Node keys can collide.** Siblings' labels differ if and only if no slug is another's
  with an ordinal the list gives ("a", "a", "a~2"), and where no slug holds a "/" followed
  by a kind and a colon ("i/pt:x"), keys are distinct throughout the document if and only
  if that holds of every list (`NodeKeys.LabelsDiffer`, `NodeKeys.KeysAreDistinct`,
  `NodeKeys.UncleanSlugsCollide`).
* **Placeholders are not compared with each other.** The section list is in code order if
  and only if the placeholders of each gap between real sections are printed in code
  order and none shares the line of a real section with a larger code
  (`Discovery.MergedInCodeOrder`), which are the first notes of each code that fit there
  (`Discovery.PlaceholdersAreFirsts`); notes for 9 and 8 in one gap are not
  (`Discovery.PlaceholdersCanDescend`).
* **A container is not yet a chapter.** A section reaches a returned chapter if and only
  if a CHAPTER heading stands at or above it (`Discovery.SectionsReachChapters`); under a
  part printed first it has a container and no chapter (`Discovery.PartBeforeChapter`).
* **A fused lead row can shift cells.** The blank for a lead cell lands in its own column
  if and only if no lower cell carries into the row left of it, or the row has no cell of
  its own right of it (`FragmentColumns.InsertionLands`). Where the cells below have text,
  all of them keep their columns if and only if every blank lands
  (`FragmentOwners.KeptExactly`); with a lower carry left and an own cell right, that cell
  moves from column 3 to column 2 (`FragmentOwners.LowerCarryShiftsACell`).
* **A footnote can leave its leaf.** After a run the numbered footnotes of a walked leaf
  lie inside it; those of a leaf moved off the walk do if and only if it was declared to
  end no earlier than it starts (`Remap.WalkedNotesInside`, `Remap.LateNotesInside`). One
  declared on pages 5 to 3 and found on page 7 loses its footnote
  (`Remap.ReversedLeafLosesNotes`).
* **A grid can be drawn twice.** No two parts of a note draw one grid, but a single part
  draws a grid twice if and only if the records of its run return to it after another one
  (`FootnoteGrids.DrawnTwice`); records in grids 0, 1 and 0 do
  (`FootnoteGrids.GridDrawnTwice`).
* **A footnote count is a maximum, not a sum.** Leaves that held none of a note end with as
  many as the covered pages print together if and only if no two of them print it
  (`Adoption.SumWhereOnePagePrints`); two pages of one folio with the same note leave one
  (`Adoption.OneFolioIsHeldOnce`).

## Model

| member | source | states |
|---|---|---|
| Placement.IndexCodes | packages/legal_ingest/builder.py:1982-1993 | the index lists, per code, exactly the start lines that open with it |
| Placement.Ladder | packages/legal_ingest/builder.py:2047-2053 | the tolerance ladder 2, 4, 8 answers the closest candidate, in document order on ties, and only within 8 pages |
| PlacementLaws.OpensExactly | packages/legal_ingest/builder.py:1982-1993 | the index lists exactly the lines that open the code, or whose next line does for the bracket it closes |
| PlacementLaws.DriftIsMedian | packages/legal_ingest/builder.py:2023-2023 | the drift is 0 below three differences, else their median by rank, of two middles the half sum cut towards zero |
| PlacementLaws.MedianIsUnique | packages/legal_ingest/builder.py:2023-2023 | one number answers that description |
| PlacementLaws.AnchoredExactly | packages/legal_ingest/builder.py:2015-2075 | with any drift that is the window's median, an entry without anchor starts on a line exactly when it opens the code behind the cursor, is closest to the drifted page within 8 pages, and fits before the next entry |
| PlacementLaws.CursorIs | packages/legal_ingest/builder.py:2056-2075 | the cursor is the last placed line, and the window the last five differences of entries placed without anchor |
| PlacementLaws.PrimaryExactly | packages/legal_ingest/builder.py:2000-2075 | pass 1's outcome: each entry is placed on a line exactly as its own anchor or page, the cursor and the median before it say |
| PlacementLaws.GapFillExactly | packages/legal_ingest/builder.py:2088-2118 | pass 2 gives an unplaced entry the line closest to its page that opens its code between its neighbours, as they stand at its turn, and no other |
| PlacementLaws.TitleFillExactly | packages/legal_ingest/builder.py:2136-2196 | pass 3, on a body in page order, gives an unplaced entry the closest line that prints its title in its place, and no other |
| Placement.GapKeepsOrder | packages/legal_ingest/builder.py:2098-2114 | giving an entry a line strictly between its placed neighbours keeps contents order and claims a line nobody has |
| Placement.PageWindowIsPageFilter | packages/legal_ingest/builder.py:2145-2150 | on a body in page order the bisected window is exactly the filter "within 2 pages" |
| Placement.PrimaryInOrder | packages/legal_ingest/builder.py:2000-2075 | after any number of entries of pass 1 the placed ones are in contents order below the cursor |
| Placement.GapFillInOrder | packages/legal_ingest/builder.py:2088-2118 | pass 2 keeps contents order and moves nothing placed before |
| Placement.TitleFillInOrder | packages/legal_ingest/builder.py:2136-2196 | pass 3 keeps contents order and moves nothing placed before |
| Placement.PlacedInOrder | packages/legal_ingest/builder.py:2000-2196 | whatever mixture of passes placed them, starts increase strictly in contents order |
| Placement.GapFillComplete | packages/legal_ingest/builder.py:2088-2118 | an entry the gap fill leaves unplaced has no line opening with its code anywhere between its final neighbours |
| Placement.PlacedComplete | packages/legal_ingest/builder.py:2000-2196 | an entry no pass places has no line opening with its code between the neighbours it ends up with |
| Placement.PlacedJustified | packages/legal_ingest/builder.py:2000-2196 | no section starts on a line nothing ties to it: anchor, code, or title where its code opens no line |
| Placement.SortedIsContentsOrder | packages/legal_ingest/builder.py:2116-2118 | sorting the starts by position puts them in contents order, each placed entry once |
| Placement.PlaceByPage | packages/legal_ingest/builder.py:2000-2075 | the cursor loop with its rolling drift window computes pass 1 |
| Placement.FillGaps | packages/legal_ingest/builder.py:2088-2118 | the gap-fill loop, with its claimed set, computes pass 2 |
| Placement.MatchTitles | packages/legal_ingest/builder.py:2136-2196 | the title loop computes pass 3 |
| Placement.BuildStarts | packages/legal_ingest/builder.py:1974-2196 | the starts list holds each placed entry once, strictly increasing and in contents order |
| Containers.ParentMap | packages/legal_ingest/builder.py:1881-1886 | the loop records each child's parent; a child listed twice belongs to its later lister |
| Containers.CollectScope | packages/legal_ingest/builder.py:1890-1904 | the walk to the root terminates, even on a cycle, and collects exactly the part codes of the container and its ancestors |
| Containers.ScopeWidens | packages/legal_ingest/builder.py:1863-1906 | where every part-holding ancestor is shared, no evidence for a PART line is lost |
| Containers.NestedScopeWidens | packages/legal_ingest/builder.py:1863-1906 | a nested container sees at least what its ancestor sees |
| Containers.PartCodesInScope | packages/legal_ingest/builder.py:1863-1906 | one scope per contents entry, empty for an entry without container |
| Conservation.OwnHeadingPrefixStart | packages/legal_ingest/builder.py:1811-1842 | the upward walk stops at the top of the same-page bracket prefix, never at or above the floor |
| Conservation.PullBack | packages/legal_ingest/builder.py:2201-2205 | pulled starts stay strictly increasing, each the top of its own prefix |
| Conservation.FirstBoundary | packages/legal_ingest/builder.py:2231-2233 | the first structural boundary of a stretch under the given part codes, or its end |
| Conservation.WalkFurniture | packages/legal_ingest/builder.py:2236-2273 | the loop passes headings, blanks, sub-chapter captions with titles, and at most two consumed lines in a row |
| Conservation.HandOver | packages/legal_ingest/builder.py:2224-2275 | where one section's successor starts once it is handed the text behind the first heading |
| Conservation.HandOff | packages/legal_ingest/builder.py:2223-2275 | hand-offs chain down the list, each from the start its predecessor was just given, and starts stay strictly increasing |
| Conservation.PassedIsFurniture | packages/legal_ingest/builder.py:2236-2275 | what lies between heading and handed-over text is only furniture, however far the walk goes |
| Conservation.HandOffReaches | packages/legal_ingest/builder.py:2236-2273 | where a start is moved, the walk stops at the first line that is no heading, blank or caption, nor one of the first two held lines behind a heading or caption |
| Conservation.HeldTitlesStayOut | packages/legal_ingest/builder.py:2217-2222 | the first two held lines behind a heading never open the next section |
| Conservation.BuildSegments | packages/legal_ingest/builder.py:2280-2291 | each section keeps its stretch up to its cut; the last section is not cut |
| Conservation.CutFromReading | packages/legal_ingest/builder.py:3355-3361 | the cut falls at the first heading the section's own scope sees before the next section's start |
| Conservation.OneSectionAtMost | packages/legal_ingest/builder.py:2279-2291 | a line is in at most one section |
| Conservation.ConservationIff | packages/legal_ingest/builder.py:2223-2291 | every line from the first start on is kept or furniture if and only if no cut sees a heading before the hand-off behind it does |
| Conservation.LostAtTheCut | packages/legal_ingest/builder.py:3355-3361 | where the cut does see an earlier heading, that line reaches no section |
| Conservation.ExactlyOnce | packages/legal_ingest/builder.py:2223-2291 | where the two readings coincide each line is in a section or is furniture, never both |
| Conservation.WiderSeesEarlier | packages/legal_ingest/builder.py:2502-2525 | a wider set of part codes sees its first heading no later |
| Conservation.SharedContainersConserve | packages/legal_ingest/builder.py:2210-2291 | text is conserved across every pair of neighbours whose part-holding containers the second shares, sections without container included |
| Conservation.BuildSections | packages/legal_ingest/builder.py:1940-2298 | placement, pull-back, hand-off and cut composed |
| Conservation.LeavingAChapterWithPartsCanLoseText | packages/legal_ingest/builder.py:2230-2233 | a contents tree and a body, placed and scoped by the run, where a form's text reaches no section |
| Conservation.OwnHeadingCanPassOn | packages/legal_ingest/builder.py:2223-2275 | a placed body on which a section's own heading line is kept by the next section |
| Conservation.OwnLineStays | packages/legal_ingest/builder.py:2223-2291 | a section keeps a line from its start on exactly when it is the last one, or the next starts behind the line and no heading in scope stands between |
| Conservation.OwnLineStaysInOneScope | packages/legal_ingest/builder.py:2223-2291 | under one scope only a heading left behind the hand-off takes the line away |
| Geometry.Cluster | packages/fbr_ingest/tables.py:92-99 | the sorted edges cut where neighbours lie further apart than the tolerance; every value grouped, groups more than the tolerance apart |
| Geometry.MeanBounds | packages/fbr_ingest/tables.py:99-99 | a cluster's mean lies within the cluster |
| Geometry.EdgesAreNotConfused | packages/fbr_ingest/tables.py:92-106 | averaging cannot confuse two edges: a coordinate resolves to its own cluster or to none |
| Geometry.SteadyBoxResolves | packages/fbr_ingest/tables.py:137-141 | a box resolves exactly when both edges lie within the tolerance of their clusters' means, and then to those two |
| Geometry.CoverIsConsecutive | packages/fbr_ingest/tables.py:159-164 | the witnessed columns a box crosses are consecutive, so start and colspan say it all |
| Geometry.Nearest | packages/fbr_ingest/tables.py:160-163 | a box crossing no witnessed column goes to the one its left edge is nearest |
| Geometry.PieceOf | packages/fbr_ingest/tables.py:157-170 | a box's rectangle stays inside the grid, covers exactly the witnessed columns it crosses, else the nearest one, and as many rows as have their middle inside it |
| Geometry.ResolveSpans | packages/fbr_ingest/tables.py:135-143 | all spans, or none when some box does not resolve |
| Geometry.MarkCovered | packages/fbr_ingest/tables.py:175-178 | exactly the rectangle less its corner is marked |
| Geometry.DisjointAllPlaced | packages/fbr_ingest/tables.py:157-178 | on disjoint rectangles no cell is skipped or overwritten |
| Geometry.PlacePieces | packages/fbr_ingest/tables.py:155-178 | the two in-place arrays after the placing loop, on any rectangles, overlapping ones included |
| Geometry.FillGrid | packages/fbr_ingest/tables.py:179-185 | positions neither held nor covered become empty cells, and no others |
| Geometry.FinishedTiles | packages/fbr_ingest/tables.py:155-185 | disjoint rectangles tile the grid: one owner for every position, each text once, at its corner |
| Geometry.NormaliseGeometric | packages/fbr_ingest/tables.py:109-185 | None exactly for no kept row, fewer than three edges, an unresolved box or fewer than two witnessed columns; else the finished grid of the resolved boxes |
| Geometry.KeptRows | packages/fbr_ingest/tables.py:121-124 | the rows with some text and some box, all of them, ascending |
| GeometryLaws.MeanIs | packages/fbr_ingest/tables.py:99-99 | a cluster's mean times its size is the sum of its members |
| GeometryLaws.SumSplits | packages/fbr_ingest/tables.py:99-99 | a sum is that of its parts |
| GeometryLaws.MiddleIs | packages/fbr_ingest/tables.py:150-154 | a row's middle is halfway between its boxes' least top and greatest bottom |
| GeometryLaws.CellIsListed | packages/fbr_ingest/tables.py:127-130 | each box of a kept row is listed with its own text, under its row's place |
| GeometryLaws.ListedIsCell | packages/fbr_ingest/tables.py:127-130 | nothing else is listed |
| GeometryLaws.PlacesRise | packages/fbr_ingest/tables.py:127-130 | boxes are listed row by row, left to right, each once |
| GeometryLaws.PieceStandsForCell | packages/fbr_ingest/tables.py:109-185 | in a table that is normalised exactly one piece stands for each box of a kept row, with its text and rectangle |
| GeometryLaws.AcceptedExactly | packages/fbr_ingest/tables.py:171-172 | a piece is placed unless one placed before it covers its corner |
| GeometryLaws.SlotExactly | packages/fbr_ingest/tables.py:155-178 | on any rectangles, a position holds the cell of the last piece placed with its corner there |
| Tables.ClaimRange | packages/fbr_ingest/builder.py:632-635 | a cell claims its columns and, past one row, leaves its rowspan pending under each |
| Tables.ResolveRow | packages/fbr_ingest/builder.py:617-637 | one row resolved against the pending carries |
| Tables.StructOwners | packages/fbr_ingest/builder.py:607-638 | the owner of every position |
| Tables.CarriedFromAbove | packages/fbr_ingest/builder.py:622-627 | in a tiling a position is carried into exactly when its owner is anchored above, and then it has the owner of the position above |
| Tables.FillRowTiled | packages/fbr_ingest/builder.py:617-637 | resolving a dense row of a tiling restores every owner and leaves the right carries for the next row |
| Tables.TilingOwners | packages/fbr_ingest/builder.py:607-638 | the dense rows of any tiling resolve, at every position, to the cell whose rectangle covers it |
| TableMarkup.UnescapeEscape | packages/fbr_ingest/tables.py:466-466 | unescaping an escaped text gives it back, whatever it holds |
| TableMarkup.CellAtPrinted | packages/fbr_ingest/builder.py:593-598 | a printed cell reads back with its text and both spans |
| TableMarkup.SpanOfExactly | packages/fbr_ingest/builder.py:577-578 | in any attributes a span is the number of the first such attribute that no word runs into, or 1 |
| TableMarkup.ReadRowPrinted | packages/fbr_ingest/builder.py:591-599 | a printed row, after anything that opens no row, reads back as itself |
| TableMarkup.ReadPrintTable | packages/fbr_ingest/builder.py:581-600 | the printed table, with any head, reads back as exactly its rows |
| TableRoundTrip.Tr | packages/fbr_ingest/tables.py:455-468 | the loop prints the cells it steps over, joined by line breaks |
| TableRoundTrip.EmittedIsDense | packages/fbr_ingest/tables.py:455-468 | on a tiling the printer misses no cell |
| TableRoundTrip.TilingRoundTrip | packages/fbr_ingest/tables.py:455-495 | render a tiling of two or more columns, read it, resolve it: every position is owned by the cell that covered it |
| TableRoundTrip.BoxesRoundTrip | packages/fbr_ingest/tables.py:109-185 | from disjoint boxes through grid and markup: the owner of every position is the cell of the box spanning it |
| TableRoundTrip.GeometricRoundTrip | packages/fbr_ingest/tables.py:109-185 | the same of the grid the geometry finishes from its kept rows and boxes: each box's text comes back at every position its rectangle spans |
| TableRoundTrip.SlottedIsEmitted | packages/fbr_ingest/builder.py:655-670 | slotted first, a dense row is emitted whole |
| TableRoundTrip.MergedReprints | packages/fbr_ingest/builder.py:655-670 | a merged table slotted, rendered and reread is the same rows of the same cells where some row has two columns, and nothing otherwise |
| TableRoundTrip.DenseRowLosesCells | packages/fbr_ingest/builder.py:655-662 | without slots the cell behind a spanning one is lost |
| FragmentMerge.Repeated | packages/fbr_ingest/builder.py:727-732 | the dropped rows are leading header rows equal to the table's, and the next one is not |
| FragmentMerge.LastOwner | packages/fbr_ingest/builder.py:764-767 | the fusion target is the last text-bearing owner of the column; none exactly when there is none |
| FragmentMerge.ExpandKeepsTexts | packages/fbr_ingest/builder.py:683-710 | expansion adds only blank cells: row by row the same texts in order |
| FragmentMerge.PlanCarriesLead | packages/fbr_ingest/builder.py:759-772 | a plan carries every non-blank text of the lead row, in order, once |
| FragmentMerge.FuseAllAppends | packages/fbr_ingest/builder.py:773-775 | each cell is extended by exactly the texts planned for it |
| FragmentMerge.MergeConserves | packages/fbr_ingest/builder.py:713-778 | every text of the table stays as a prefix in place, and fused texts plus the rows below are exactly the fragment's non-blank texts after its repeated header |
| FragmentTails.MergeRefused | packages/fbr_ingest/builder.py:724-746 | a fragment is refused exactly when one of the two is empty, their widths differ, or the table has data and the fragment opens a header that is no numbering row the table lacks |
| FragmentTails.ExpandedExactly | packages/fbr_ingest/builder.py:641-647 | each cell's text stands in the first of its columns, the others hold none |
| FragmentTails.LeadIsLowered | packages/fbr_ingest/builder.py:691-699 | expanded, the lead row holds the same cells, none of them over a second row |
| FragmentTails.PlanContinues | packages/fbr_ingest/builder.py:759-775 | each lead cell with text is fused, left to right, into the last text-bearing cell that owns its column; there is no plan exactly when the column of one has none |
| FragmentTails.MergeOutcome | packages/fbr_ingest/builder.py:747-778 | a fused lead row gives every cell of the table exactly the texts that continue it and stands nowhere else; any other lead row stands as a row |
| FragmentTails.LeadTextLands | packages/fbr_ingest/builder.py:759-775 | each text of a fused lead row lands in that cell, behind what it held and the lead texts to the left, and ends it where nothing to the right continues it |
| FragmentColumns.IndexForLands | packages/fbr_ingest/builder.py:704-709 | the insertion scan stops at a cell exactly when the columns before it add up or the row ends short of them |
| FragmentColumns.InsertionLands | packages/fbr_ingest/builder.py:700-710 | a blank lands at its own place exactly when no lower cell carries into the row left of it or the row has no cell right of it |
| FragmentColumns.ExpandIsFlat | packages/fbr_ingest/builder.py:683-710 | on any tiling a row expands to its flattening where its blanks all land, and, where its own cells have text, only there |
| FragmentColumns.LaterRowsAreWhole | packages/fbr_ingest/builder.py:683-710 | an expanded row adds up to the table's width less what lower cells carry into it |
| FragmentColumns.LeadAloneLands | packages/fbr_ingest/builder.py:683-710 | where no cell below the lead row spans rows every blank lands |
| FragmentOwners.FlatTiles | packages/fbr_ingest/builder.py:683-710 | the flattened rows below the lead row are a tiling by themselves |
| FragmentOwners.LaterCellsKeepTheirColumns | packages/fbr_ingest/builder.py:683-710 | with the lead row gone and every blank landed, every position below resolves to the cell that covered it, or to a blank for a lead cell |
| FragmentOwners.KeptExactly | packages/fbr_ingest/builder.py:683-710 | with text in every cell below the lead row, owners are kept exactly where every blank lands |
| FragmentOwners.LowerCarryShiftsACell | packages/fbr_ingest/builder.py:683-710 | a fragment in which a cell owns column 3 before the expansion and column 2 after it |
| FragmentTables.FuseInto | packages/fbr_ingest/builder.py:775-775 | appending to a target in place changes that cell and no other |
| FragmentTables.FuseNodes | packages/fbr_ingest/builder.py:774-775 | the fusion loop on distinct cell objects |
| FragmentTables.LowerLead | packages/fbr_ingest/builder.py:691-699 | the lead's rowspans are set to 1 in place and their coverage is listed |
| FragmentTables.Table.InsertBlank | packages/fbr_ingest/builder.py:703-710 | one blank cell inserted in place, rows above untouched |
| FragmentTables.Table.InsertBlanks | packages/fbr_ingest/builder.py:700-710 | all insertions, out-of-range rows skipped |
| FragmentTables.ExpandLeadRowspans | packages/fbr_ingest/builder.py:683-710 | the in-place expansion; no text of an existing cell changes |
| FragmentTables.CountRepeated | packages/fbr_ingest/builder.py:728-732 | the skip loop |
| FragmentTables.MakePlan | packages/fbr_ingest/builder.py:758-772 | the planning loop, None on the first cell without owner |
| FragmentTables.TryMergeStructs | packages/fbr_ingest/builder.py:713-778 | on objects: the merge of the values; on None neither table has changed |
| Footnotes.ParseFootnotes | packages/fbr_ingest/footnotes.py:1135-1189 | the zone loop with its accepted markers, lead and groups |
| Footnotes.NotesOpenExactly | packages/fbr_ingest/footnotes.py:1104-1179 | a zone is cut into lead and notes where lines open one, each note its own line and those up to the next: at the margin, a star or a number below 100, small or alone; with a bracket behind it, unused so far and not the first under text of the previous page |
| Footnotes.ParseKeepsWords | packages/fbr_ingest/footnotes.py:1156-1189 | read in turn, the notes' markers and records are the zone as printed |
| Footnotes.ParseIsParsedPage | packages/fbr_ingest/footnotes.py:1179-1189 | a continuation only at the head, every record of its own page |
| Footnotes.Target | packages/fbr_ingest/footnotes.py:1237-1250 | the last note left open, else the last |
| Footnotes.Store.MergeContinuations | packages/fbr_ingest/footnotes.py:1192-1216 | the splicing loop over all pages |
| Footnotes.SpliceKeepsRecords | packages/fbr_ingest/footnotes.py:1192-1216 | no record is lost or doubled over all pages |
| Footnotes.SpliceOrders | packages/fbr_ingest/footnotes.py:1203-1216 | after every page, records stand in page order and a continuation survives only where no earlier page had a note |
| Footnotes.MergeOutcome | packages/fbr_ingest/footnotes.py:1192-1216 | in the end each note's records are in page order and at most one continuation is left, heading the first page with any footnote |
| FootnoteGrids.TrimRecords | packages/fbr_ingest/footnotes.py:901-912 | at most three records are trimmed, each carrying a token the grid lacks |
| FootnoteGrids.FitGridToRecords | packages/fbr_ingest/footnotes.py:863-926 | the fit, or None |
| FootnoteGrids.FitIsFaithful | packages/fbr_ingest/footnotes.py:863-926 | the records left carry exactly the grid's tokens plus at most two leaked pieces of closing punctuation |
| FootnoteGrids.ExactGridFits | packages/fbr_ingest/footnotes.py:913-926 | a grid carrying just its records' tokens stands for all of them |
| FootnoteGridLaws.TrimmedExactly | packages/fbr_ingest/footnotes.py:901-912 | each record trimmed is at an end and carries a token the grid lacks, the last one first; trimming ends where none is left to trim, or after three |
| FootnoteGridLaws.FitExactly | packages/fbr_ingest/footnotes.py:913-926 | a grid fits exactly when records are left, it carries nothing they do not, and they carry at most two tokens more, all closing punctuation |
| FootnoteGrids.TakeRun | packages/fbr_ingest/footnotes.py:1010-1024 | the run of directly following, unused grids of one width, and the records it claims |
| FootnoteGrids.BuildHtml | packages/fbr_ingest/footnotes.py:982-1048 | it terminates; the parts cover the records in order, each once; a drawn part says what its records say and draws the grids of its run; no grid is drawn by two parts |
| FootnoteGridLaws.NoteAsLaid | packages/fbr_ingest/footnotes.py:982-1048 | a note of prose and tables, each table of one width with just its lines' words, comes out as laid: its prose as prose, each table drawn whole |
| FootnoteGrids.DrawnTwice | packages/fbr_ingest/footnotes.py:1010-1024 | a part draws a grid twice exactly when the records of its run return to a grid after another one |
| FootnoteGrids.GridDrawnTwice | packages/fbr_ingest/footnotes.py:1016-1024 | three records in grids 0, 1 and 0 become one part that draws grid 0 twice |
| Adoption.RefsTellApart | packages/legal_ingest/builder.py:2951-2951 | two footnote numbers are equal exactly when folio and marker are |
| Adoption.OffsetFolios | packages/legal_ingest/builder.py:2949-2951 | pages without a folio of their own, behind the offset, have the folios it gives, all distinct |
| Adoption.CoverIsEarliest | packages/legal_ingest/builder.py:2928-2934 | the leaf found for a page starts first, then ends first, then comes first among those covering it; none only when no leaf does |
| Adoption.CoverOfExactly | packages/legal_ingest/builder.py:2933-2946 | a page has an adopter exactly when a leaf covers it or a body page listed for it: the earliest covering the page, else the earliest covering the first listed body page any leaf covers |
| Adoption.OneAdopter | packages/legal_ingest/builder.py:2933-2946 | no other leaf answers that description |
| Adoption.CollectorPageIsAdopted | packages/legal_ingest/builder.py:2935-2946 | a page of notes outside every leaf goes to the leaf its notes annotate |
| Adoption.AdoptionCounts | packages/legal_ingest/builder.py:2932-2959 | one run lifts each (number, text) to exactly the larger of its prior count and the most often any covered page prints it |
| Adoption.NoNoteIsLost | packages/legal_ingest/builder.py:2901-2962 | a note of a page that a leaf covers, or a body page listed for it, is held at least as often as the page prints it |
| Adoption.HeldExactly | packages/legal_ingest/builder.py:2901-2962 | with distinct folios the count is exactly the maximum of prior and printed |
| Adoption.AdoptedWhereCovered | packages/legal_ingest/builder.py:2932-2958 | what a leaf held stays, in order; what it gains is notes of pages it is to adopt from, with their text and html under that page's number |
| Adoption.SecondRunAdoptsNothing | packages/legal_ingest/builder.py:2901-2962 | a second run over the sorted outcome adopts nothing |
| Adoption.CountHeld | packages/legal_ingest/builder.py:2918-2922 | the `have` counters |
| Adoption.CountSource | packages/legal_ingest/builder.py:2923-2927 | the `src_mult` counters |
| Adoption.AdoptPageNotes | packages/legal_ingest/builder.py:2950-2959 | the inner loop appends to one leaf and keeps the counters true |
| Adoption.SumWhereOnePagePrints | packages/legal_ingest/builder.py:2932-2959 | from none held, the count is the sum over the covered pages exactly when no two of them print the note |
| Adoption.OneFolioIsHeldOnce | packages/legal_ingest/builder.py:2932-2959 | two pages of one folio print a note twice together and it is held once |
| Adoption.SortFeetAscends | packages/legal_ingest/builder.py:2960-2961 | sorted footnotes ascend by number, each as often as before |
| Adoption.SortLeaves | packages/legal_ingest/builder.py:2960-2961 | every leaf's footnotes are sorted in place |
| Adoption.AdoptOrphans | packages/legal_ingest/builder.py:2901-2962 | the run on leaf objects, and the number adopted |
| Discovery.Discover | packages/fbr_ingest/discover.py:184-384 | both passes, the chapters returned, and the final merge |
| Discovery.RealsRise | packages/fbr_ingest/discover.py:210-325 | real sections stand in strictly rising code order whatever look-alike lines there are |
| DiscoveryLaws.KeyOfCode | packages/fbr_ingest/discover.py:53-64 | the key of one to three digits and up to three capitals is the number and the suffix |
| DiscoveryLaws.KeyOfOther | packages/fbr_ingest/discover.py:61-63 | anything else has the key of no code |
| DiscoveryLaws.StringLessExactly | packages/fbr_ingest/discover.py:53-64 | suffixes are ordered as in a dictionary |
| DiscoveryLaws.RealsExactly | packages/fbr_ingest/discover.py:250-325 | the real sections are exactly these: one on each line that opens, in one of three shapes tried in turn, with a code behind that of the last section above it |
| DiscoveryLaws.TitlesExactly | packages/fbr_ingest/discover.py:327-338 | a container's title is the lines below its heading, at most two, up to the first table, heading, section or line that opens like running text |
| Discovery.ContainersNest | packages/fbr_ingest/discover.py:199-247 | the innermost open container is always the newest, under the part and chapter still open |
| Discovery.LastHeadingOwns | packages/fbr_ingest/discover.py:210-338 | every section and every placeholder line belongs to the last heading printed at or above it |
| Discovery.SectionsReachChapters | packages/fbr_ingest/discover.py:226-245 | a section's container chain ends in a returned chapter exactly when a CHAPTER heading stands at or above it |
| Discovery.PartBeforeChapter | packages/fbr_ingest/discover.py:232-245 | under a part printed before any chapter a section has a container and reaches no chapter |
| Discovery.NeighboursDecide | packages/fbr_ingest/discover.py:367-374 | fitting between the two real neighbours found by bisection is fitting between all real sections before and all behind |
| Discovery.PlaceholdersFit | packages/fbr_ingest/discover.py:347-381 | admitted placeholders have distinct codes and fit between all real keys before and behind, whatever placeholders exist |
| Discovery.SortEntriesSorts | packages/fbr_ingest/discover.py:383-384 | the merged list is the same entries, each as often, in body order |
| Discovery.OrderedAroundReals | packages/fbr_ingest/discover.py:347-384 | no entry of the merged list is out of code order with a real section |
| Discovery.PlaceholdersAreFirsts | packages/fbr_ingest/discover.py:347-381 | of the omission notes that fit where they stand, the first of each code gives the placeholder |
| DiscoveryLaws.PlaceholdersExactly | packages/fbr_ingest/discover.py:340-381 | a placeholder stands on a line for a code exactly when a note of the line names it and fits between all real sections above and below, and no note above does |
| Discovery.MergedInCodeOrder | packages/fbr_ingest/discover.py:347-384 | the section list is in code order exactly when the placeholders of each gap are printed so and none shares a line with a larger real code |
| Discovery.PlaceholdersCanDescend | packages/fbr_ingest/discover.py:353-384 | two notes of one gap printed against the code order |
| Voting.AlignOne | tools/vision_ocr.py:142-162 | one reading aligned by its script: one entry per anchor token, insertions kept by gap |
| Voting.Align | tools/vision_ocr.py:139-162 | every slot holds the anchor's token and one entry of each reading |
| Voting.VoteLineTokens | tools/vision_ocr.py:129-192 | the vote over slots and gaps |
| Voting.VotedOrderly | tools/vision_ocr.py:159-192 | anchors never step back; rejections stand in order, within the output written so far |
| Voting.MajorityIsVoted | tools/vision_ocr.py:139-192 | with up to three readings, what more than half of them carry at an anchor token stands in the voted text there, with all its votes |
| Voting.VoteDecides | tools/vision_ocr.py:165-192 | place by place: an insertion two readings agree on is voted in with two votes, any other rejected; a token two readings lack is rejected, else the first text with the most votes is voted in |
| Voting.VotesExactly | tools/vision_ocr.py:176-179 | a text has as many votes as entries that say it |
| Voting.SlotReads | tools/vision_ocr.py:139-162 | behind the anchor's own token a slot holds each reading's entry, in turn |
| Voting.JoinSplits | tools/vision_ocr.py:153-153 | texts are joined by single blanks |
| Voting.RunIsSpelled | tools/vision_ocr.py:147-158 | against the anchor tokens of an equal or replaced run a reading says its own run, whole, in order and once |
| Voting.EntryIsMissing | tools/vision_ocr.py:161-163 | a reading lacks a token exactly when no equal or replaced run covers it |
| Voting.InsertedExactly | tools/vision_ocr.py:159-160 | a reading's insertions at a place are the runs its script inserts there |
| Voting.GapReads | tools/vision_ocr.py:159-160 | what stands in a gap is what some reading inserts there |
| Voting.BothInsert | tools/vision_ocr.py:166-169 | of two readings that insert at most once at a place, they agree exactly when both insert one run |
| VoteRescue.RescueCounts | tools/vision_ocr.py:230-240 | each word's counter ends at its voted count, topped up from the rejected ones to the median and no further |
| VoteRescue.MedianIsMajority | tools/vision_ocr.py:230-236 | the median count reaches a number exactly when more than half of the readings hold the word that often |
| VoteRescue.StandsAsOften | tools/vision_ocr.py:226-240 | a word stands so often on the page exactly when it was voted so often, or most readings hold it so often and the rejected runs make up the difference |
| VoteRescue.WordsSplit | tools/vision_ocr.py:233-235 | rejected runs are taken apart word by word, in order, each word with its run's gap |
| VoteRescue.MarkedExactly | tools/vision_ocr.py:247-248 | a text that holds "[?]" keeps one vote, any other its own |
| VoteRescue.WeaveCounts | tools/vision_ocr.py:241-243 | the tokens hold each word as often as voted and restored together |
| VoteRescue.InsertRestored | tools/vision_ocr.py:241-243 | inserting from the last gap back weaves every restored word into its recorded gap, in rejection order, its anchor read from an original token |
| VoteRescue.WeaveKeepsVoted | tools/vision_ocr.py:241-243 | each voted token survives at its old place shifted by the words of earlier gaps |
| VoteRescue.WeaveAscends | tools/vision_ocr.py:241-243 | anchors still never step back |
| VoteRescue.RestoreWords | tools/vision_ocr.py:233-240 | the rescue loop |
| VoteRescue.VotePage | tools/vision_ocr.py:210-250 | vote, restore, mark: each word stands as often as voted, topped up to the median; an illegible text keeps one vote; anchors never step back |
| VoteRescue.GroupLines | tools/vision_ocr.py:253-259 | grouping loses and reorders nothing; each line has one group where lines never step back |
| PdfWriter.BuildPdf | tools/fixture_corpus.py:65-121 | the file, byte by byte; an empty page list is refused |
| PdfWriter.WriteObjects | tools/fixture_corpus.py:100-104 | the growing buffer and the offset of every object in it |
| PdfWriter.PaddedReads | tools/fixture_corpus.py:114-114 | a ten-digit record reads back as its offset |
| PdfWriter.FileLayout | tools/fixture_corpus.py:100-121 | header, body, table and trailer are where they should be, and `startxref` names the table |
| PdfWriter.ObjectIsThere | tools/fixture_corpus.py:106-121 | following `startxref` and the 20-byte record of any object lands on `N 0 obj` and its contents (sections 7.5.4 and 7.5.5 of ISO 32000-1) |
| PdfWriter.PageReadBack | tools/fixture_corpus.py:76-121 | from `startxref` over the trailer's `/Size` and `/Root`, the catalog and the page tree with its count, every page is reached in order, under its parent and with its font, and its stream of the declared length is its content stream (sections 7.5.5, 7.7.2, 7.7.3 and 7.3.8 of ISO 32000-1) |
| PdfWriter.LiteralUndoesEscape | tools/fixture_corpus.py:50-52 | decoding a literal string undoes `_escape` on texts without carriage returns |
| PdfWriter.EscapeRoundTrips | tools/fixture_corpus.py:50-52 | and on no others (section 7.3.4.2 of ISO 32000-1) |
| PdfWriter.TextReadBack | tools/fixture_corpus.py:55-98 | from the file back to each page's lines, `?` for what Latin-1 has not, exactly when no line holds a carriage return |
| NodeKeys.StampIdentity | packages/legal_contract.py:168-197 | one pass with a count per slug stamps every node of the level and below |
| NodeKeys.KeyIsPath | packages/legal_contract.py:168-197 | every key is the path of the ancestors' segments, by code |
| NodeKeys.LabelsDiffer | packages/legal_contract.py:187-192 | siblings' labels differ, repeated codes included, exactly when no slug is another's with an ordinal the list gives |
| NodeKeys.PathDecodes | packages/legal_contract.py:179-194 | a path has one reading as segments that hold no slash, kind and colon |
| NodeKeys.KeysAreDistinct | packages/legal_contract.py:168-211 | where no slug holds a slash, kind and colon, no two nodes of the document share a key exactly when no list has a clash of ordinals |
| NodeKeys.UncleanSlugsCollide | packages/legal_contract.py:165-192 | an ordinal with a namesake, and a mark with a child, do collide |
| NodeKeys.InsertionKeepsKeys | packages/legal_contract.py:179-194 | inserting a sibling whose slug is new, at any depth, changes no existing node's key |
| Compilation.WalkCounts | tools/check_cross_edition_quality.py:130-141 | the counter gains every node of the tree by kind |
| CompilationLaws.KindCountExactly | tools/check_cross_edition_quality.py:130-141 | the count of a kind under a node is the number of paths down to nodes of that kind |
| CompilationLaws.TreeCountsExactly | tools/check_cross_edition_quality.py:155-182 | the tree counts are the numbers of ways down from the roots, parts and divisions from all of them, sections apart under chapters and schedules |
| Compilation.Selected | packages/legal_contract.py:96-105 | the chosen nodes, or the first index out of range or taken twice |
| Compilation.Document.Represent | packages/legal_contract.py:75-147 | accepts exactly the non-empty, coded partitions that assign every root once; a refusal is justified and changes nothing |
| CompilationLaws.InstrumentsAsPartitioned | packages/legal_contract.py:100-131 | an accepted partition yields an instrument for each entry, in order, with trimmed code and heading and just the roots it names |
| CompilationLaws.StripExactly | packages/legal_contract.py:103-125 | trimming takes the whitespace at both ends and nothing else |
| Compilation.PickCounts | packages/legal_contract.py:135-141 | nodes picked by a permutation count as the nodes themselves |
| Compilation.CountsAreKept | tools/check_cross_edition_quality.py:155-182 | an accepted compilation keeps every tree count but the number of instruments |
| Dehyphenate.DehyphenateText | packages/legal_ingest/builder.py:3026-3048 | the loop with its early exit is eight passes |
| Dehyphenate.OneWrapDecided | packages/legal_ingest/builder.py:3035-3042 | a word wrapped once keeps its hyphen unless the corpus writes it solid three times or more, and oftener than hyphenated |
| Dehyphenate.PassDeletes | packages/legal_ingest/builder.py:2982-3041 | a pass's output is its input less some positions, each the hyphen or a gap character of a wrap it matched |
| Dehyphenate.PassKeepsInk | packages/legal_ingest/builder.py:2982-3041 | no character but blanks, newlines and hyphens is removed, added or moved |
| Dehyphenate.PassShortens | packages/legal_ingest/builder.py:3042-3047 | a pass is the identity exactly on a text without wraps, else it shortens it |
| Dehyphenate.PassHalves | packages/legal_ingest/builder.py:2982-3047 | on any text a pass at least halves the weight of the heaviest run of adjacent hyphens, whatever the vocabulary |
| Dehyphenate.WeighsNothing | packages/legal_ingest/builder.py:2982-3047 | a text weighs nothing exactly when it holds no wrap |
| Dehyphenate.RobustRun | packages/legal_ingest/builder.py:2982-3047 | where every continuation has two letters a run weighs its number of wraps |
| Dehyphenate.PassKeepsRobust | packages/legal_ingest/builder.py:2982-3047 | where no hyphen has a one-letter continuation a pass leaves none |
| Dehyphenate.EightPassesSuffice | packages/legal_ingest/builder.py:3042-3047 | on every text whose runs weigh less than 256 eight passes reach a true fixpoint |
| Dehyphenate.EightPassesExactly | packages/legal_ingest/builder.py:3042-3047 | on a run of words whose joins are all solid, eight passes end exactly below 256 wraps |
| Dehyphenate.EightLettersExactly | packages/legal_ingest/builder.py:3042-3047 | on a word spelled with single letters in front, all joins solid, they end exactly up to eight letters |
| Dehyphenate.LongRunsStopShort | packages/legal_ingest/builder.py:2982-3047 | every run of words has a vocabulary under which the weight bound is exact |
| Dehyphenate.SpelledWordsStopShort | packages/legal_ingest/builder.py:2982-3047 | so has every word spelled with single letters in front, which weighs 2^n - 1 |
| Dehyphenate.TwoHundredFiftySixWraps | packages/legal_ingest/builder.py:3042-3047 | 257 words and a vocabulary on which the returned text would still change |
| Dehyphenate.NineLetters | packages/legal_ingest/builder.py:3042-3047 | nine hyphens and a vocabulary on which the returned text would still change |
| Remap.Leaf.Move | tools/remap_pages_to_pdf.py:88-95 | the leaf's pages are set and its numbered footnotes follow, clamped |
| Remap.NotesStayInside | tools/remap_pages_to_pdf.py:88-95 | a moved footnote lies inside the leaf exactly when the leaf does not end before it starts, and keeps its distance where that fits |
| Remap.WalkedNotesInside | tools/remap_pages_to_pdf.py:98-140 | after a run the numbered footnotes of every walked leaf lie inside it |
| Remap.LateNotesInside | tools/remap_pages_to_pdf.py:142-157 | those of a leaf moved off the walk do exactly when it was declared to end no earlier than it starts |
| Remap.UnplacedStays | tools/remap_pages_to_pdf.py:142-157 | a leaf off the walk whose heading prints nowhere or more than once keeps its fields |
| Remap.ReversedLeafLosesNotes | tools/remap_pages_to_pdf.py:98-157 | two leaves and seven pages on which the run leaves a footnote outside its leaf |
| Remap.LeavesInPageOrder | tools/remap_pages_to_pdf.py:79-85 | leaves flagged against the highest page so far, then stably sorted |
| Remap.Nearest | tools/remap_pages_to_pdf.py:118-125 | of the pages in the window that print the key outside the contents, the nearest, the earlier of two |
| Remap.WalkLeaves | tools/remap_pages_to_pdf.py:107-131 | the walk with its offset, cursor and window |
| RemapLaws.WalkSettles | tools/remap_pages_to_pdf.py:106-131 | the walkable leaves in order: each is looked for behind its predecessor, within 12 pages (36 while none is found) of where the last leaf found lets expect it, and starts on the page where its first printing key prints nearest; not found, where expected, between the cursor and the last page |
| RemapLaws.DeclaredOn | tools/remap_pages_to_pdf.py:112-113 | a leaf is declared on its start page, on its page number where it has none or 0 |
| RemapLaws.MovedTo | tools/remap_pages_to_pdf.py:88-92 | a move sets the pages, the page number only where there is one |
| RemapLaws.WalkedExactly | tools/remap_pages_to_pdf.py:79-84 | a leaf is walked unless one before it is declared more than 12 pages further on |
| RemapLaws.ContentsExactly | tools/remap_pages_to_pdf.py:101-105 | a page is contents exactly when ten different headings stand on it |
| RemapLaws.PrintsExactly | tools/remap_pages_to_pdf.py:119-122 | a page prints a key exactly when the key stands on it and fewer than ten headings do |
| Remap.StartsRise | tools/remap_pages_to_pdf.py:107-131 | new starts never step back and stay in the rendered pages |
| Remap.EndPages | tools/remap_pages_to_pdf.py:133-140 | the loop that settles the end pages |
| Remap.EndsMeet | tools/remap_pages_to_pdf.py:133-140 | a leaf ends at its successor's start where they shared a page, else one page earlier, never before its own start; the last keeps its length as far as there are pages |
| Remap.PagesAreCovered | tools/remap_pages_to_pdf.py:133-140 | from the first start to the last end every page belongs to a leaf |
| Remap.PlaceLate | tools/remap_pages_to_pdf.py:142-157 | the loop over the leaves off the walk |
| Remap.LateExactlyOnce | tools/remap_pages_to_pdf.py:142-157 | the late moves are exactly those of the leaves off the walk whose first printing key prints on one page, to that page |
| Remap.EveryLeafMovesBy | tools/remap_pages_to_pdf.py:98-157 | if each leaf's key prints once, d pages from where it is declared and d within 36, every leaf moves by exactly d |
| Remap.ShiftsMoveOnce | tools/remap_pages_to_pdf.py:131-157 | no leaf is moved twice, and each from its declared page |
| Remap.ApplyOnce | tools/remap_pages_to_pdf.py:133-157 | a moved leaf has just its one move made, every other keeps its fields |
| Remap.RemapLeaves | tools/remap_pages_to_pdf.py:98-165 | the run on leaf objects |
| Outliers.FindOutliers | tools/check_cross_edition_quality.py:241-256 | the collecting loop over groups and editions |
| Outliers.Median2Exactly | tools/check_cross_edition_quality.py:248-250 | twice the median: of the middle count by rank, or of the two |
| Outliers.FlaggedExactly | tools/check_cross_edition_quality.py:245-256 | an edition is flagged exactly when it has five peers or more, holds less than half of their median, and three quarters of them lie within a quarter of it |
| Outliers.LoneCollapseIsFlagged | tools/check_cross_edition_quality.py:245-256 | an edition below half of what five or more others all hold is flagged |
| Outliers.FlaggedAreListed | tools/check_cross_edition_quality.py:241-256 | the report lists the flagged editions of a group and no others, with their own peers' figures |
| Outliers.AllAreListed | tools/check_cross_edition_quality.py:241-256 | ... of all groups |
| Outliers.SortedPeers | tools/check_cross_edition_quality.py:248-249 | an edition's peers are the sorted group less one place holding its own count |
| Outliers.FlaggedAgainstGroup | tools/check_cross_edition_quality.py:247-255 | every flagged edition was judged against one and the same median, a figure of the group alone |
| Outliers.FlaggedOutsideBand | tools/check_cross_edition_quality.py:252-254 | each flagged edition lies outside the band the others cluster in |
| Outliers.FewAreFlagged | tools/check_cross_edition_quality.py:241-256 | of n editions at most one and a quarter of the other n - 1 are flagged |
| LineGrouping.GroupIntoLines | packages/fbr_ingest/pagemodel.py:130-149 | the scan for the nearest word yields exactly the sorted words cut at gaps above the tolerance |
| LineGrouping.OnlyTheLastIsNear | packages/fbr_ingest/pagemodel.py:140-145 | the next word is near the last line exactly when near its last word, and near no other line |
| LineGrouping.SplitKeepsWords | packages/fbr_ingest/pagemodel.py:139-149 | each word is in exactly one line and the lines read on in sorted order |
| LineGrouping.SplitCuts | packages/fbr_ingest/pagemodel.py:139-149 | lines are tight inside and further than the tolerance apart |
| LineGrouping.OnlyGrouping | packages/fbr_ingest/pagemodel.py:139-149 | no other grouping of the words has those two properties |
| LineGrouping.LinesAreSorted | packages/fbr_ingest/pagemodel.py:148-148 | the closing sort moves nothing |

## Left out

- Recognition of text: regexes, fonts, bold gates, gazette patterns and heading stems are fields and predicates of a line; only what the algorithms do with the answers is modelled.
- Foreign geometry: word extraction, gridlines and white fills; a table starts from its boxes.
- `difflib.SequenceMatcher` and the choice of the anchor reading: each reading comes with a valid ordered script onto the anchor.
- Floats are reals, and doubled integers in the outlier test; rounding of a mean is not modelled.
- `html.unescape` is modelled on the five references the printer writes; other references never follow from printing.
- The head of a table (`n_head`) is any number of rows; which rows are a numbering row is not modelled.
- A footnote's joined text and html are derived from its records and are not stored; prose rendering and grid styling are not modelled.
- Geometry.NormaliseGeometric: takes a row's boxes to run parallel to its texts; where a row has more boxes than texts the source raises, and the model leaves the boxes behind out.
- The footnote store is a sequence of pages in a field of an object; single notes are values, so aliasing between notes is not captured.
- NodeKeys.StampIdentity: builds the stamped tree instead of writing into each node; that the source writes the same node dict in place is not captured.
- Slugs are given; `slug` itself is a regular expression over the code.
- Partition indexes are integers; the refusals of partitions that are no mappings or hold other types are not modelled.
- Remap.RemapLeaves: needs at least one rendered page, since the source indexes an empty list without one; a page field that is present but null counts as absent; the metadata it writes is not modelled.
- NodeKeys.KeysAreDistinct: says nothing of documents with a slug that holds a slash, a kind and a colon; there a key can be read in two ways, and whether two nodes share one depends on both whole paths.
- FootnoteGrids.BuildHtml: a drawn part is compared by the tokens of its grids' cells, not by the cells the rendered table keeps; drawing is a given predicate.
- Adoption.AdoptOrphans: the order of footnote numbers in the closing sort is any rank on the number; page numbers are natural.
- PdfWriter.ObjectIsThere: offsets below 10^10, as a cross-reference record holds ten digits.
- The building of the hyphenation vocabulary; the vocabulary is any pair of counts.
- Building one section's text and html after the cut (`_build_one` past its first lines), the preamble, the schedules, and the second copies of the shared helpers: the same operations over again or I/O.
- Merging along a page's list of blocks (`_merge_continuation_tables`): it calls the merge modelled here on each pair.
- Network, deployment, provenance, batch scheduling and argument parsing.
