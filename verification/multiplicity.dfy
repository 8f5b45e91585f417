/**
 How often an edge value occurs in a group, compared with how many tiles list
 it. With each matched group merged once, a group holds every edge value
 exactly as often as there are tiles with that edge; the loop as written can
 hold it more often, which is what makes the removal of repeated edges throw
 away outer edges (see the 2x2 block among the worked examples).
 */
module Multiplicity {
  import opened Geometry
  import opened Seqs
  import opened Tiles
  import opened Grouping

  /** The number of tiles whose edge list contains `e`. */
  function TileCount(tiles: seq<Tile>, e: Edge): (n: nat)
    ensures n <= |tiles|
    ensures n == 0 <==> !InSomeTile(tiles, e)
  {
    if tiles == [] then 0
    else
      var k := |tiles| - 1;
      assert tiles[..k] + [tiles[k]] == tiles;
      InSomeTileSnoc(tiles[..k], tiles[k], e);
      TileCount(tiles[..k], e) + (if e in TileEdges(tiles[k]) then 1 else 0)
  }

  /** Every edge value of every group occurs there once per tile that has it. */
  ghost predicate CountsMatch(groups: seq<Group>, tiles: seq<Tile>)
  {
    forall i, e :: 0 <= i < |groups| && e in groups[i] ==> Count(groups[i], e) == TileCount(tiles, e)
  }

  /** An edge value in no group does not occur in the merged group beyond the tile's own edges. */
  lemma MergedOutside(groups: seq<Group>, es: seq<Edge>, conn: seq<nat>, e: Edge)
    requires ValidRefs(groups, conn)
    requires !InSomeGroup(groups, e)
    ensures var r := ProcessWith(groups, es, conn);
      Count(r[|r| - 1], e) == Count(es, e)
  {
    if |conn| != 0 {
      var gathered := Gather(groups, conn);
      assert forall k :: 0 <= k < |conn| ==> e !in groups[conn[k]];
      assert e !in gathered;
      CountAppend(es, gathered, e);
    }
  }

  /** A group kept unmatched holds no edge of the new tile, so its counts still agree. */
  lemma KeptCounts(groups: seq<Group>, front: seq<Tile>, t: Tile, g: Group, e: Edge)
    requires CountsMatch(groups, front)
    requires g in groups && !Shares(g, TileEdges(t)) && e in g
    ensures Count(g, e) == TileCount(front + [t], e)
  {
    var tiles := front + [t];
    assert tiles[..|front|] == front;
    assert e !in TileEdges(t);
    var j :| 0 <= j < |groups| && groups[j] == g;
  }

  /** The merged group of the corrected loop agrees on an edge value that some group already held. */
  lemma MergedCountsInside(groups: seq<Group>, front: seq<Tile>, t: Tile, j: nat, e: Edge)
    requires GroupingInvariant(groups, front) && CountsMatch(groups, front)
    requires j < |groups| && e in groups[j]
    requires var r := ProcessTileOnce(groups, TileEdges(t)); e in r[|r| - 1]
    ensures var r := ProcessTileOnce(groups, TileEdges(t));
      Count(r[|r| - 1], e) == TileCount(front + [t], e)
  {
    var es := TileEdges(t);
    var tiles := front + [t];
    assert tiles[..|front|] == front;
    ProcessTileOnceEffect(groups, es);
    assert Shares(groups[j], es) by {
      if e !in es {
        var k :| 0 <= k < |groups| && Shares(groups[k], es) && e in groups[k];
        assert k == j;
      }
    }
    ProcessTileOnceCopies(groups, es, j, e);
    TileEdgesShape(t);
    CountNoRepeats(es, e);
  }

  /** The merged group of the corrected loop agrees on an edge value no group held before. */
  lemma MergedCountsNew(groups: seq<Group>, front: seq<Tile>, t: Tile, e: Edge)
    requires GroupingInvariant(groups, front)
    requires !InSomeGroup(groups, e)
    requires var r := ProcessTileOnce(groups, TileEdges(t)); e in r[|r| - 1]
    ensures var r := ProcessTileOnce(groups, TileEdges(t));
      Count(r[|r| - 1], e) == TileCount(front + [t], e)
  {
    var es := TileEdges(t);
    var tiles := front + [t];
    assert tiles[..|front|] == front;
    ProcessTileOnceEffect(groups, es);
    assert !InSharedGroup(groups, es, e);
    MergedOutside(groups, es, ConnectedOnce(groups, es), e);
    TileEdgesShape(t);
    CountNoRepeats(es, e);
  }

  /** One pass of the corrected loop keeps the counts in agreement. */
  lemma OnceCountsStep(groups: seq<Group>, front: seq<Tile>, t: Tile)
    requires GroupingInvariant(groups, front) && CountsMatch(groups, front)
    ensures CountsMatch(ProcessTileOnce(groups, TileEdges(t)), front + [t])
  {
    var es := TileEdges(t);
    var r := ProcessTileOnce(groups, es);
    ProcessTileOnceEffect(groups, es);
    UnmatchedSubset(groups, es);
    var u := Unmatched(groups, es);
    forall i, e | 0 <= i < |r| && e in r[i] ensures Count(r[i], e) == TileCount(front + [t], e) {
      if i < |r| - 1 {
        assert r[i] == u[i];
        assert u[i] in u;
        KeptCounts(groups, front, t, r[i], e);
      } else if InSomeGroup(groups, e) {
        var j :| 0 <= j < |groups| && e in groups[j];
        MergedCountsInside(groups, front, t, j, e);
      } else {
        MergedCountsNew(groups, front, t, e);
      }
    }
  }

  /**
   With each matched group merged once, every group holds each of its edge
   values exactly as often as there are tiles with that edge.
   */
  lemma {:induction false} GroupTilesOnceCounts(tiles: seq<Tile>)
    ensures CountsMatch(GroupTilesOnce(tiles), tiles)
    decreases |tiles|
  {
    if tiles != [] {
      var n := |tiles| - 1;
      var front := tiles[..n];
      GroupTilesOnceCounts(front);
      GroupTilesOnceInvariant(front);
      assert front + [tiles[n]] == tiles;
      OnceCountsStep(GroupTilesOnce(front), front, tiles[n]);
    }
  }
}
