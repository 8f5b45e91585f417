# PathCreation in Dafny

PathCreation reads a list of tiles on a unit grid. A tile is a square, or one of the four right-triangle halves of a square. For each connected region of tiles, the program is meant to compute the outline of that region as a list of corner points, and it writes the list of outlines to a JSON result file. It does not always manage: a region whose groups merge twice loses boundary edges (see "Findings"), and a group whose edges are not one closed loop can make it hang (see "Degenerate groups" below). This project models the part of the program that computes those outlines and proves properties of the model. The modelled parts are:

- **Points and edges** (`Geometry`). A point is a pair of exact reals, with `+` and `-`. An edge is an ordered pair of points, and edges are equal only when their endpoints agree in order.
- **Tiles** (`Tiles`). The `Tile` constructor builds a tile's edge list from its centre and type code, using the six edge helpers.
- **Grouping** (`Grouping`, `Multiplicity`, `Connectivity`). This is the loop that folds the tiles, in input order, into groups of edges. A new tile's edges are merged with every existing group that contains one of them. The groups it builds are exactly the connected regions: two tiles with edges end up in one group if and only if a chain of tiles, each sharing an edge value with the next, links them.
- **Removal of repeated edges** (`Cancellation`). Within a group, every edge value that occurs more than once is removed, every occurrence of it.
- **Tracing** (`Tracing`). This loop walks a group's surviving edges and records the points where the raw direction `p2 - p1` changes.
- **The three stages chained** (`Pipeline`). A worked set of concrete inputs is in `WorkedExamples`.

The shared list operations are in `Seqs`. `Option` and `Result` are in `Outcomes`.

Where the program cannot produce an outline for a group, the model returns an error for that group:

- **Empty group.** The program throws on `tileGroup[0]`. The model returns `Err(EmptyGroup)`.
- **No remaining edge touches the current point.** The program's `while` loop never ends. The model returns `Err(Stuck(..))`. `Tracing.Loop` iterates the literal loop body any number of times, and `Tracing.StuckNeverExits` proves that the literal loop never empties the group in that case.

The program itself has no error for a single group. It traces the groups one after another and writes the result file only after the last one. So either case ends the whole run, by an exception or by a loop that never ends: no later group is traced and nothing is written. `Pipeline.Outlines` keeps one entry per group. `Pipeline.Written` gives what the program writes: the list of outlines when every entry is one, and nothing otherwise.

Grouping is modelled twice:

- **As written.** `Grouping.GroupTiles` and `Pipeline.Outlines` follow the program.
- **Corrected.** `Grouping.GroupTilesOnce` and `Pipeline.OutlinesOnce` merge each matching group once. See "Findings".

Behaviour worth knowing:

- **Unknown type code.** The program silently builds a tile with no edges from any type code outside 0..4. Every such tile, wherever it is in the input, becomes an empty group of its own. When the tracer reaches that group the program throws, and the whole run writes nothing (`WorkedExamples.UnknownKind`, `WorkedExamples.UnknownKindWritten`).
- **Direction comparison.** The tracer compares the raw direction `p2 - p1` of the stored edge, whichever way the edge is walked. Every tile edge is stored left to right or top to bottom (`Tiles.TileEdgesShape`). So two collinear tile edges always have the same raw direction, and a point is recorded exactly where the outline changes line (`Tiles.TileEdgeDirections`).
- **Two squares side by side.** They give one outline of 4 points, the rectangle's corners (`WorkedExamples.TwoSquares`): the points in the middle of the long sides are not recorded, since the direction does not change there.
- **Closed loops.** A group whose edges form one simple closed loop is always traced to the end, in exactly as many passes as it has edges (`Tracing.ClosedLoopRuns`).
- **Degenerate groups.** The program reports no failure for a group whose surviving edges do not form one closed loop. The loop never ends exactly when `Tracing.Run` reports `Stuck`: edges remain, and none of them touches the current point (`Tracing.StuckNeverExits`, `WorkedExamples.TwoLoops`). An open path walked from one end exits normally, with an outline that is not closed (`WorkedExamples.BlockTrace`). A group of one edge gives an empty outline (`WorkedExamples.OneEdge`).

## Model

| member | source | states |
|---|---|---|
| Tiles.TileEdgeDirections | PathCreation.cs:29-30 | `Geometry.Sub`, `operator -`, as the tracer uses it for the raw direction: every tile edge's direction is one of four vectors, one per line direction, so two tile edges have equal directions exactly when they are parallel |
| Geometry.CanonicalUnique | PathCreation.cs:107-122 | two canonically oriented edges over the same two endpoints are equal under the order-sensitive edge equality |
| Tiles.TileEdges | PathCreation.cs:161-196 | a square has 4 edges, each triangle 3, any other type code none |
| Tiles.TileEdgesShape | PathCreation.cs:154-196 | the six edge helpers `Tiles.TopEdge` to `Tiles.BackSlashEdge`, as the constructor lists them: every tile edge joins two corners of the tile's cell and is canonically oriented; a square has only axis edges; a triangle lists two axis edges and then its diagonal; no tile lists an edge twice |
| Tiles.NeighbourEdgesAgree | PathCreation.cs:154-157 | the edge helpers, which offset a tile's centre with `Geometry.Add` (`operator +`, PathCreation.cs:26-27), give the same value to the side two cells share: a cell's right edge is its right neighbour's left edge, and its top edge is the bottom edge of the cell above, with endpoints in the same order |
| Tiles.HalvesShareDiagonal | PathCreation.cs:172-195 | at one position, triangles 1 and 3 share the back-slash diagonal and triangles 2 and 4 the forward-slash diagonal |
| Tiles.SharedSegmentSameEdge | PathCreation.cs:154-159 | two tile edges over the same segment are equal values and never each other's reverse, so `List.Contains` detects adjacency |
| Seqs.Count | PathCreation.cs:282 | `FindAll(..).Count` is at most the list's length, and zero exactly when the value is absent |
| Seqs.RemoveFirst | PathCreation.cs:303 | `List.Remove` shortens the list by one when the value is present, leaves it unchanged otherwise, and adds nothing |
| Seqs.RemoveFirstMultiset | PathCreation.cs:303 | `List.Remove` takes exactly one occurrence of the value out, and nothing when there is none |
| Seqs.Without | PathCreation.cs:284 | `List.RemoveAll` keeps exactly the elements not being removed |
| Seqs.CountWithout | PathCreation.cs:284 | after `RemoveAll`, a removed value occurs zero times and any other value as often as before |
| Grouping.Matches | PathCreation.cs:248-253 | the number of the tile's edges a group contains is at most the tile's edge count, and positive exactly when the group shares an edge with the tile |
| Grouping.Scan | PathCreation.cs:248-253 | the inner scan adds only references to the group being scanned, once per matching tile edge |
| Grouping.Connected | PathCreation.cs:245-255 | `connectedGroups` references each group once per matching tile edge, and references exactly the groups sharing an edge with the tile |
| Grouping.ConnectedOnce | PathCreation.cs:245-255 | the corrected reference list names every group that shares an edge with the tile exactly once |
| Grouping.Gather | PathCreation.cs:264-269 | the copied edges are exactly the edges of the referenced groups |
| Grouping.GatherCount | PathCreation.cs:264-269 | with disjoint groups, an edge of group i occurs in the copy (references to i) times its count in group i |
| Grouping.RemoveEachIsWithout | PathCreation.cs:270 | `Grouping.RemoveEach`: removing groups by reference once per entry leaves exactly the unreferenced groups; a repeated entry removes nothing more |
| Grouping.ProcessWithEffect | PathCreation.cs:256-273 | `Grouping.ProcessWith`, the loop body for a given reference list: with no match, the tile's edges are appended as a new group; otherwise the unmatched groups keep their order and are followed by one merged group that starts with the tile's edges and holds exactly the values of the tile and of the matched groups |
| Grouping.ProcessTileEffect | PathCreation.cs:245-273 | `Grouping.ProcessTile`, one pass of the loop body as written, has the shape above |
| Grouping.ConnectedOrder | PathCreation.cs:245-269 | `connectedGroups` lists the groups in list order, each once per tile edge it contains, so the copied edges are each matched group in turn, repeated that many times |
| Grouping.ProcessTileOrder | PathCreation.cs:245-273 | the merged group as written is exactly the tile's edges followed by every group in list order, each repeated once per tile edge it contains |
| Grouping.ProcessTileCopies | PathCreation.cs:246-271 | an edge of a group matched by k tile edges occurs in the merged group k times as often as in that group, plus its count among the tile's edges |
| Grouping.ProcessTileOnceEffect | PathCreation.cs:245-273 | `Grouping.ProcessTileOnce`, the corrected pass, has the same shape: unmatched groups in order, then one merged group that starts with the tile's edges and holds exactly the values of the tile and of the matched groups |
| Grouping.ConnectedOnceOrder | PathCreation.cs:245-269 | the corrected reference list copies the sharing groups in list order, once each |
| Grouping.ProcessTileOnceOrder | PathCreation.cs:245-273 | the corrected merged group is exactly the tile's edges followed by each sharing group once, in list order |
| Grouping.ProcessTileOnceCopies | PathCreation.cs:246-271 | with the correction, a matched group's edges are copied into the merged group exactly once |
| Grouping.GroupingStep | PathCreation.cs:245-273 | one pass keeps the grouping invariant for the tiles processed so far |
| Grouping.GroupTilesInvariant | PathCreation.cs:243-274 | `Grouping.GroupTiles`: after the grouping loop, no edge value lies in two groups, the groups hold exactly the tiles' edge values, each tile's edges lie in one group, and there are no more groups than tiles |
| Grouping.GroupTilesOnceInvariant | PathCreation.cs:243-274 | `Grouping.GroupTilesOnce`, the corrected grouping, keeps the same invariant |
| Grouping.SharedEdgeSameGroup | PathCreation.cs:243-274 | two tiles sharing an edge value end up in the same group |
| Grouping.ApartTileNewGroup | PathCreation.cs:243-274 | a tile sharing no edge value with any earlier tile becomes a new last group of its own and leaves the earlier groups unchanged, as written and corrected |
| Connectivity.MergedLinked | PathCreation.cs:256-273 | every tile with an edge in the merged group is linked to the new tile by a chain of edge-sharing tiles |
| Connectivity.KeptLinked | PathCreation.cs:256-270 | a group left in place touches no edge of the new tile, so the tiles it links stay linked once the new tile is appended |
| Connectivity.LinkedStep | PathCreation.cs:245-273 | one pass of the loop body, as written or corrected, keeps every group within one region: any two tiles with an edge in the same group are linked by a chain of edge-sharing tiles |
| Connectivity.GroupTilesLinked | PathCreation.cs:243-274 | after the grouping loop as written, any two tiles with an edge in the same group are linked |
| Connectivity.GroupTilesOnceLinked | PathCreation.cs:243-274 | the same for the corrected loop |
| Connectivity.ChainHeld | PathCreation.cs:243-274 | given the grouping invariant, every tile along a chain of edge-sharing tiles is held by the group that holds the chain's first tile |
| Connectivity.GroupsAreRegions | PathCreation.cs:243-274 | given both invariants, two tiles with edges lie in one group if and only if a chain of edge-sharing tiles links them |
| Connectivity.GroupTilesRegions | PathCreation.cs:243-274 | the groups of the loop as written are exactly the connected regions: two tiles with edges share a group if and only if they are linked |
| Connectivity.GroupTilesOnceRegions | PathCreation.cs:243-274 | the corrected loop yields the same regions |
| Multiplicity.TileCount | PathCreation.cs:243-274 | the number of tiles listing an edge is zero exactly when no tile has it |
| Multiplicity.GroupTilesOnceCounts | PathCreation.cs:243-274 | with the correction, each group holds each of its edge values exactly as often as there are tiles with that edge |
| Cancellation.CancelRepeated | PathCreation.cs:278-287 | the removal loop, which rescans the live group and calls `RemoveAll`, computes the list of single-occurrence edges in their original order |
| Cancellation.RemovedStep | PathCreation.cs:280-286 | each pass keeps the removed set equal to the values met so far that are repeated in the original group; the live group's count of a value not yet removed is its original count |
| Cancellation.WithoutIsSingles | PathCreation.cs:282-285 | removing exactly the repeated values leaves the single-occurrence edges |
| Cancellation.CancelCounts | PathCreation.cs:278-287 | `Cancellation.Cancel`: after removal, an edge occurs once if it occurred once before, and otherwise not at all |
| Cancellation.CancelNoRepeats | PathCreation.cs:278-287 | after removal no edge value repeats |
| Cancellation.CancelIdempotent | PathCreation.cs:278-287 | running the removal a second time changes nothing |
| Tracing.FindIncident | PathCreation.cs:304-326 | the inner `foreach` finds the first remaining edge with an endpoint at the current point, or reports that none exists |
| Tracing.Run | PathCreation.cs:300-327 | the tracing loop run to completion either empties the group, recording fewer points than it had edges, or gets stuck with edges left, none of which touches the current point |
| Tracing.Trace | PathCreation.cs:292-333 | tracing fails with `EmptyGroup` exactly when the group is empty, and an outline has no more points than the group had edges |
| Tracing.StartReady | PathCreation.cs:294-299 | `Tracing.Start`: the walk begins on the group's first edge with its `p1` recorded, at its other end, with the current edge in the group and touching the current point |
| Tracing.FarEndOther | PathCreation.cs:306-323 | `Tracing.FarEnd`: seen from one endpoint of an edge, the next point is the other endpoint, and it touches the edge |
| Tracing.StepKeepsWalk | PathCreation.cs:302-326 | `Tracing.Step`: a pass takes exactly the current edge out of the group, and the new current edge touches the new current point and joins it to the old one |
| Tracing.StepTakesFirstIncident | PathCreation.cs:302-326 | `Tracing.Step`: a pass removes the current edge and continues with the first remaining edge touching the current point, from its far endpoint; with no such edge only the group and direction change |
| Tracing.StepRecordsTurns | PathCreation.cs:306-324 | a pass records at most the current point, and records it exactly when the raw direction changes |
| Tracing.RunUnfold | PathCreation.cs:300-327 | each pass shrinks the group by one, and `Run` continues from the next state, stops with `Ok` on an empty group, or stops with `Stuck` |
| Tracing.RunIsLoop | PathCreation.cs:300-327 | `Tracing.Loop`, the literal `while` loop built on `Tracing.Iterate`: when `Run` succeeds, the literal loop exits after exactly as many passes as there are edges, in `Run`'s final state |
| Tracing.CycleRunOk | PathCreation.cs:300-327 | midway round a closed loop, with the edges not yet walked left in the group, each pass takes the next edge of the loop and the loop runs to the end |
| Tracing.ClosedLoopRuns | PathCreation.cs:292-333 | a group whose edges form one simple closed loop, listed from an edge leaving the loop's first point, is traced to the end: the literal loop exits after exactly as many passes as the group has edges and not before, and the group has an outline |
| Tracing.StepFixpoint | PathCreation.cs:300-327 | with no remaining edge at the current point, a pass changes nothing |
| Tracing.StuckStep | PathCreation.cs:300-327 | from a stuck state a pass either reaches a non-empty fixed point or another stuck state with a smaller group |
| Tracing.StuckNeverExits | PathCreation.cs:300-327 | when `Run` reports `Stuck`, no number of passes of the literal loop empties the group: the program never leaves the loop |
| Tracing.TraceEndpoints | PathCreation.cs:292-333 | every point of an outline is an endpoint of one of the group's edges |
| Pipeline.TraceGroups | PathCreation.cs:278-334 | one result per group, each the trace of the group after removal |
| Pipeline.Outlines | PathCreation.cs:243-334 | there is at most one entry, outline or error, per tile |
| Pipeline.Collect | PathCreation.cs:292-357 | the outlines are collected in order, and only when every group has one |
| Pipeline.Written | PathCreation.cs:243-357 | the program writes a result exactly when every group has an outline, and then at most one outline per tile |
| Pipeline.OutlinesAtCorners | PathCreation.cs:243-334 | every point of every outline is a corner of some tile's cell |
| Pipeline.CancelKeepsMembers | PathCreation.cs:278-287 | an edge kept by removal was in the group exactly once |
| Pipeline.OnceKeepsBoundary | PathCreation.cs:243-287 | with the correction (`Pipeline.OutlinesOnce`), the edges that survive removal across all groups are exactly those belonging to one tile |
| WorkedExamples.SquareTrace | PathCreation.cs:292-333 | a square's edge list is traced clockwise from its top-left corner, keeping all four corners |
| WorkedExamples.OneSquare | PathCreation.cs:243-333 | a single square gives one outline of its four corners |
| WorkedExamples.UnknownKind | PathCreation.cs:161-196 | a tile with type code 7 has no edges, and its empty group has no outline |
| WorkedExamples.UnknownKindWritten | PathCreation.cs:295 | with that tile the run throws and writes nothing |
| WorkedExamples.OneSquareWritten | PathCreation.cs:243-357 | a single square's outline is what the program writes |
| WorkedExamples.SquareIsLoop | PathCreation.cs:292-333 | a square's edge list is one closed loop round its four corners, so it is traced to the end |
| WorkedExamples.OneEdge | PathCreation.cs:292-333 | a group of one edge is walked, the loop exits, and the outline is empty |
| WorkedExamples.DiagonalSquares | PathCreation.cs:243-274 | squares at (0,0) and (1,1), which meet only at a corner, stay two groups in input order |
| WorkedExamples.TwoSquares | PathCreation.cs:243-333 | two squares side by side give one outline of the rectangle's four corners |
| WorkedExamples.BlockGrouped | PathCreation.cs:243-274 | for the 2x2 block, the fourth square matches the single group twice, and the group is appended twice |
| WorkedExamples.BlockAsWritten | PathCreation.cs:243-333 | for the 2x2 block, the program's outline is two points |
| WorkedExamples.BlockLosesBoundary | PathCreation.cs:248-287 | the block's bottom-left edge belongs to one tile, yet the program's group loses it at removal |
| WorkedExamples.BlockOnce | PathCreation.cs:243-333 | with the correction, the 2x2 block gives its four outer corners |
| WorkedExamples.TwoLoops | PathCreation.cs:300-327 | a group made of two separate squares' edges gets stuck after the first square, and the literal loop never exits |

## Left out

- Reading the tiles from JSON and the command-line argument (PathCreation.cs:205-227), the console printing, which a constant `false` flag switches off (PathCreation.cs:337-352), and the serialisation of the outlines into the result file (PathCreation.cs:355-357). These are I/O. `Pipeline.Written` gives the list that is serialised.
- Sorting the tiles (PathCreation.cs:230-239). The model takes the tiles in the order they are given, which is the order the sort produced. The comparator's truncating casts are not modelled.
- `GetHashCode`, `ToString`, the tuple constructors, and the null, reference and type checks inside `Equals`. Equality is modelled as value equality, which is what `Equals` decides for two non-null points or edges.
- IEEE doubles. Coordinates are exact reals. The program only adds and subtracts halves and whole numbers to tile positions and compares the results with `==`. On half-integer inputs of moderate size this is exact in binary floating point.
- Tracing.Run: the program's endless loop is reported as `Err(Stuck(..))` and not modelled as divergence. `Tracing.StuckNeverExits` is the statement about the loop itself.
- Tracing.Trace: the exception from `tileGroup[0]` on an empty group is reported as `Err(EmptyGroup)`.
- Pipeline.Outlines: its own contract states only the bound on the number of entries. The content of the outlines is stated by `Pipeline.OutlinesAtCorners` and the worked examples.
- Pipeline.Outlines: an `Err` entry does not stand for a per-group result. It stands for the whole run aborting (`EmptyGroup`, an exception) or hanging (`Stuck`), and then nothing later is traced or written. The program writes output only when every entry is `Ok`, as `Pipeline.Written` states.
- Seqs.RemoveFirst: its contract states the length, the unchanged case and membership. That exactly one occurrence goes is stated by `Seqs.RemoveFirstMultiset`.

## Findings

| source | as written | input that shows it | evidently intended | confidence | as-written member | corrected member |
|---|---|---|---|---|---|---|
| PathCreation.cs:248-253 | a group is added to `connectedGroups` once per tile edge it contains, and lines 264-269 then copy it into the merged group once per entry | the 2x2 block of squares at (0,0), (0,1), (1,0), (1,1) in that order: the fourth square shares two edges with the one group, so the group is copied twice. Every edge of the first three squares then occurs at least twice and is removed, including the outer bottom-left edge, and the outline is the two points (0.5,1.5), (1.5,1.5) | each connected group is merged once, so an edge survives removal exactly when one tile has it, and the block's outline is its four outer corners | not executed | WorkedExamples.BlockLosesBoundary | Pipeline.OnceKeepsBoundary |
