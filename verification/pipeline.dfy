/**
 The three stages of the program's core chained together
 (PathCreation.cs:243-333): group the tiles, remove the repeated edges of
 each group, trace each group into an outline.
 */
module Pipeline {
  import opened Outcomes
  import opened Geometry
  import opened Seqs
  import opened Tiles
  import opened Grouping
  import opened Multiplicity
  import opened Cancellation
  import opened Tracing

  /** Removal and tracing applied to each group in turn. */
  function TraceGroups(gs: seq<Group>): (r: seq<Result<seq<Point>, TraceError>>)
    ensures |r| == |gs|
    ensures forall i :: 0 <= i < |gs| ==> r[i] == Trace(Cancel(gs[i]))
  {
    if gs == [] then [] else [Trace(Cancel(gs[0]))] + TraceGroups(gs[1..])
  }

  /**
   One entry per group: its outline, or the reason the program has none for
   it. The program itself stops at the first such reason (see `Written`).
   */
  function Outlines(tiles: seq<Tile>): (r: seq<Result<seq<Point>, TraceError>>)
    ensures |r| <= |tiles|
  {
    GroupTilesInvariant(tiles);
    TraceGroups(GroupTiles(tiles))
  }

  /** The same, with each matched group merged once. */
  function OutlinesOnce(tiles: seq<Tile>): (r: seq<Result<seq<Point>, TraceError>>)
    ensures |r| <= |tiles|
  {
    GroupTilesOnceInvariant(tiles);
    TraceGroups(GroupTilesOnce(tiles))
  }

  /**
   The outlines in order when every entry is one, and nothing otherwise: the
   program traces the groups one after another and writes the whole list only
   after the last, so an empty group (an exception) or a stuck one (an endless
   loop) means no result file at all.
   */
  function Collect(rs: seq<Result<seq<Point>, TraceError>>): (r: Option<seq<seq<Point>>>)
    ensures r.Some? <==> forall i :: 0 <= i < |rs| ==> rs[i].Ok?
    ensures r.Some? ==> |r.value| == |rs| && forall i :: 0 <= i < |rs| ==> rs[i] == Ok(r.value[i])
  {
    if rs == [] then Some([])
    else match rs[0]
      case Err(_) => None
      case Ok(p) =>
        match Collect(rs[1..])
        case None => None
        case Some(ps) => Some([p] + ps)
  }

  /** What the program writes to its result file, or `None` when the run aborts or never ends. */
  function Written(tiles: seq<Tile>): (r: Option<seq<seq<Point>>>)
    ensures r.Some? <==> forall i :: 0 <= i < |Outlines(tiles)| ==> Outlines(tiles)[i].Ok?
    ensures r.Some? ==> |r.value| <= |tiles|
  {
    Collect(Outlines(tiles))
  }

  /** True when `q` is a corner of some tile's cell. */
  predicate AtSomeCorner(tiles: seq<Tile>, q: Point)
  {
    exists k :: 0 <= k < |tiles| && IsCorner(tiles[k].pos, q)
  }

  /** Everything cancellation keeps was in the group. */
  lemma CancelKeepsMembers(g: seq<Edge>, e: Edge)
    requires e in Cancel(g)
    ensures e in g && Count(g, e) == 1
  {
    CancelCounts(g, e);
  }

  /** The outline of a group whose edges are all tile edges runs through tile corners only. */
  lemma GroupOutlineCorners(g: Group, tiles: seq<Tile>, q: Point)
    requires forall e :: e in g ==> InSomeTile(tiles, e)
    requires Trace(Cancel(g)).Ok? && q in Trace(Cancel(g)).value
    ensures AtSomeCorner(tiles, q)
  {
    var c := Cancel(g);
    TraceEndpoints(c);
    var e :| e in c && Touches(e, q);
    CancelKeepsMembers(g, e);
    var k :| 0 <= k < |tiles| && e in TileEdges(tiles[k]);
    TileEdgesShape(tiles[k]);
    var j :| 0 <= j < |TileEdges(tiles[k])| && TileEdges(tiles[k])[j] == e;
  }

  /** Every point of every outline the program produces is a corner of one of the tiles. */
  lemma OutlinesAtCorners(tiles: seq<Tile>, i: nat, q: Point)
    requires i < |Outlines(tiles)| && Outlines(tiles)[i].Ok? && q in Outlines(tiles)[i].value
    ensures AtSomeCorner(tiles, q)
  {
    var gs := GroupTiles(tiles);
    GroupTilesInvariant(tiles);
    forall e | e in gs[i] ensures InSomeTile(tiles, e) {
      assert InSomeGroup(gs, e);
    }
    GroupOutlineCorners(gs[i], tiles, q);
  }

  /**
   With each matched group merged once, the edges that survive removal, over
   all groups, are exactly the boundary edges: those belonging to exactly one
   tile.
   */
  lemma OnceKeepsBoundary(tiles: seq<Tile>, e: Edge)
    ensures (exists i :: 0 <= i < |GroupTilesOnce(tiles)| && e in Cancel(GroupTilesOnce(tiles)[i]))
        <==> TileCount(tiles, e) == 1
  {
    var gs := GroupTilesOnce(tiles);
    GroupTilesOnceInvariant(tiles);
    GroupTilesOnceCounts(tiles);
    if TileCount(tiles, e) == 1 {
      assert InSomeGroup(gs, e);
      var i :| 0 <= i < |gs| && e in gs[i];
      CancelCounts(gs[i], e);
    }
    if exists i :: 0 <= i < |gs| && e in Cancel(gs[i]) {
      var i :| 0 <= i < |gs| && e in Cancel(gs[i]);
      CancelKeepsMembers(gs[i], e);
    }
  }
}
