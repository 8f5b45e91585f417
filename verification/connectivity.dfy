/**
 The groups the grouping loop (PathCreation.cs:243-274) builds are exactly
 the connected regions of the tiles: two tiles with edges lie in one group
 if and only if a chain of tiles, each sharing an edge value with the next,
 leads from one to the other. `Grouping.SharedEdgeSameGroup` gives one
 direction for a single shared edge; this module carries the other through
 the loop and closes the equivalence, for the loop as written and for the
 corrected one.
 */
module Connectivity {
  import opened Geometry
  import opened Tiles
  import opened Grouping

  /** Tiles `a` and `b` of the list share an edge value. */
  predicate Adjacent(tiles: seq<Tile>, a: nat, b: nat)
    requires a < |tiles| && b < |tiles|
  {
    Shares(TileEdges(tiles[a]), TileEdges(tiles[b]))
  }

  /** `c` lists tile positions in which each tile shares an edge value with the next. */
  predicate IsChain(tiles: seq<Tile>, c: seq<nat>)
  {
    && |c| > 0
    && (forall k :: 0 <= k < |c| ==> c[k] < |tiles|)
    && (forall k :: 0 <= k < |c| - 1 ==> Adjacent(tiles, c[k], c[k + 1]))
  }

  /** Some chain of edge-sharing tiles leads from tile `a` to tile `b`. */
  ghost predicate Linked(tiles: seq<Tile>, a: nat, b: nat)
  {
    exists c :: IsChain(tiles, c) && c[0] == a && c[|c| - 1] == b
  }

  /**
   Every two tiles that both have an edge in the same group are linked: a
   group never joins tiles from different regions.
   */
  ghost predicate GroupsLinked(groups: seq<Group>, tiles: seq<Tile>)
  {
    forall i, a, b :: 0 <= i < |groups| && 0 <= a < |tiles| && 0 <= b < |tiles|
      && Shares(groups[i], TileEdges(tiles[a])) && Shares(groups[i], TileEdges(tiles[b]))
      ==> Linked(tiles, a, b)
  }

  /** Some group holds every edge of both tiles. */
  ghost predicate InOneGroup(groups: seq<Group>, t: Tile, u: Tile)
  {
    exists i :: 0 <= i < |groups| && Holds(groups[i], t) && Holds(groups[i], u)
  }

  // ---------------------------------------------------------------------------
  // Chains

  lemma LinkedSelf(tiles: seq<Tile>, a: nat)
    requires a < |tiles|
    ensures Linked(tiles, a, a)
  {
    assert IsChain(tiles, [a]);
  }

  lemma LinkedAdjacent(tiles: seq<Tile>, a: nat, b: nat)
    requires a < |tiles| && b < |tiles| && Adjacent(tiles, a, b)
    ensures Linked(tiles, a, b)
  {
    assert IsChain(tiles, [a, b]);
  }

  lemma AdjacentSym(tiles: seq<Tile>, a: nat, b: nat)
    requires a < |tiles| && b < |tiles| && Adjacent(tiles, a, b)
    ensures Adjacent(tiles, b, a)
  {
    var e :| e in TileEdges(tiles[b]) && e in TileEdges(tiles[a]);
  }

  /** Read backwards, a chain is still a chain: sharing an edge value is symmetric. */
  lemma LinkedSym(tiles: seq<Tile>, a: nat, b: nat)
    requires Linked(tiles, a, b)
    ensures Linked(tiles, b, a)
  {
    var c :| IsChain(tiles, c) && c[0] == a && c[|c| - 1] == b;
    var n := |c|;
    var r := seq(n, k requires 0 <= k < n => c[n - 1 - k]);
    forall k | 0 <= k < n - 1 ensures Adjacent(tiles, r[k], r[k + 1]) {
      var j := n - 2 - k;
      assert r[k] == c[j + 1] && r[k + 1] == c[j];
      assert Adjacent(tiles, c[j], c[j + 1]);
      AdjacentSym(tiles, c[j], c[j + 1]);
    }
    assert IsChain(tiles, r) && r[0] == b && r[n - 1] == a;
  }

  /** Two chains meeting at `b` make one. */
  lemma LinkedTrans(tiles: seq<Tile>, a: nat, b: nat, d: nat)
    requires Linked(tiles, a, b) && Linked(tiles, b, d)
    ensures Linked(tiles, a, d)
  {
    var c1 :| IsChain(tiles, c1) && c1[0] == a && c1[|c1| - 1] == b;
    var c2 :| IsChain(tiles, c2) && c2[0] == b && c2[|c2| - 1] == d;
    var c := c1 + c2[1..];
    forall k | 0 <= k < |c| - 1 ensures Adjacent(tiles, c[k], c[k + 1]) {
      if k < |c1| - 1 {
        assert c[k] == c1[k] && c[k + 1] == c1[k + 1];
      } else {
        var j := k - |c1| + 1;
        assert c[k] == c2[j] && c[k + 1] == c2[j + 1];
      }
    }
    assert IsChain(tiles, c);
    if |c2| == 1 {
      assert c[|c| - 1] == c1[|c1| - 1];
    } else {
      assert c[|c| - 1] == c2[|c2| - 1];
    }
  }

  /** A chain among the first tiles stays a chain when a tile is appended. */
  lemma LinkedGrow(tiles: seq<Tile>, t: Tile, a: nat, b: nat)
    requires Linked(tiles, a, b)
    ensures Linked(tiles + [t], a, b)
  {
    var all := tiles + [t];
    var c :| IsChain(tiles, c) && c[0] == a && c[|c| - 1] == b;
    forall k | 0 <= k < |c| ensures c[k] < |all| && all[c[k]] == tiles[c[k]] {
    }
    assert IsChain(all, c);
  }

  // ---------------------------------------------------------------------------
  // The loop keeps its groups linked

  /**
   Every tile with an edge in the merged group is linked to the new tile `t`:
   it either shares an edge with `t` directly, or has an edge in a group that
   `t` touches, and that group's tiles are linked already.
   */
  lemma MergedLinked(groups: seq<Group>, tiles: seq<Tile>, t: Tile, m: Group, a: nat)
    requires GroupingInvariant(groups, tiles) && GroupsLinked(groups, tiles)
    requires forall e :: e in m <==> e in TileEdges(t) || InSharedGroup(groups, TileEdges(t), e)
    requires a <= |tiles| && Shares(m, TileEdges((tiles + [t])[a]))
    ensures Linked(tiles + [t], a, |tiles|)
  {
    var all := tiles + [t];
    var n := |tiles|;
    var es := TileEdges(t);
    assert all[n] == t;
    if a == n {
      LinkedSelf(all, n);
    } else {
      assert all[a] == tiles[a];
      var e :| e in TileEdges(tiles[a]) && e in m;
      if e in es {
        assert Adjacent(all, a, n);
        LinkedAdjacent(all, a, n);
      } else {
        var j :| 0 <= j < |groups| && Shares(groups[j], es) && e in groups[j];
        var f :| f in es && f in groups[j];
        assert InSomeGroup(groups, f);
        var c :| 0 <= c < |tiles| && f in TileEdges(tiles[c]);
        assert Shares(groups[j], TileEdges(tiles[a])) && Shares(groups[j], TileEdges(tiles[c]));
        assert Linked(tiles, a, c);
        LinkedGrow(tiles, t, a, c);
        assert all[c] == tiles[c];
        assert Adjacent(all, c, n);
        LinkedAdjacent(all, c, n);
        LinkedTrans(all, a, c, n);
      }
    }
  }

  /** A kept group touches no edge of `t`, so its tiles are old tiles, linked already. */
  lemma KeptLinked(groups: seq<Group>, tiles: seq<Tile>, t: Tile, g: Group, a: nat, b: nat)
    requires GroupsLinked(groups, tiles)
    requires g in groups && !Shares(g, TileEdges(t))
    requires a <= |tiles| && b <= |tiles|
    requires Shares(g, TileEdges((tiles + [t])[a])) && Shares(g, TileEdges((tiles + [t])[b]))
    ensures Linked(tiles + [t], a, b)
  {
    var all := tiles + [t];
    assert all[a] == if a < |tiles| then tiles[a] else t;
    assert all[b] == if b < |tiles| then tiles[b] else t;
    assert a < |tiles| && b < |tiles|;
    var i :| 0 <= i < |groups| && groups[i] == g;
    assert Linked(tiles, a, b);
    LinkedGrow(tiles, t, a, b);
  }

  /** One pass of the loop body, for any reference list naming exactly the sharing groups, keeps the groups linked. */
  lemma LinkedStep(groups: seq<Group>, tiles: seq<Tile>, t: Tile, conn: seq<nat>, r: seq<Group>)
    requires GroupingInvariant(groups, tiles) && GroupsLinked(groups, tiles)
    requires ValidRefs(groups, conn)
    requires forall i: nat :: i < |groups| ==> (i in conn <==> Shares(groups[i], TileEdges(t)))
    requires r == ProcessWith(groups, TileEdges(t), conn)
    ensures GroupsLinked(r, tiles + [t])
  {
    var all := tiles + [t];
    var n := |tiles|;
    var es := TileEdges(t);
    ProcessWithEffect(groups, es, conn);
    var u := Unmatched(groups, es);
    var m := r[|r| - 1];
    assert r == u + [m];
    UnmatchedSubset(groups, es);
    forall i, a, b | 0 <= i < |r| && 0 <= a < |all| && 0 <= b < |all|
      && Shares(r[i], TileEdges(all[a])) && Shares(r[i], TileEdges(all[b]))
      ensures Linked(all, a, b)
    {
      if i == |u| {
        assert r[i] == m;
        MergedLinked(groups, tiles, t, m, a);
        MergedLinked(groups, tiles, t, m, b);
        LinkedSym(all, b, n);
        LinkedTrans(all, a, n, b);
      } else {
        assert r[i] == u[i] && u[i] in u;
        KeptLinked(groups, tiles, t, u[i], a, b);
      }
    }
  }

  /** The grouping loop as written keeps every group within one region. */
  lemma {:induction false} GroupTilesLinked(tiles: seq<Tile>)
    ensures GroupsLinked(GroupTiles(tiles), tiles)
    decreases |tiles|
  {
    if tiles != [] {
      var n := |tiles| - 1;
      var front := tiles[..n];
      GroupTilesLinked(front);
      GroupTilesInvariant(front);
      var gs := GroupTiles(front);
      var es := TileEdges(tiles[n]);
      assert front + [tiles[n]] == tiles;
      LinkedStep(gs, front, tiles[n], Connected(gs, es), GroupTiles(tiles));
    }
  }

  /** The corrected loop keeps every group within one region. */
  lemma {:induction false} GroupTilesOnceLinked(tiles: seq<Tile>)
    ensures GroupsLinked(GroupTilesOnce(tiles), tiles)
    decreases |tiles|
  {
    if tiles != [] {
      var n := |tiles| - 1;
      var front := tiles[..n];
      GroupTilesOnceLinked(front);
      GroupTilesOnceInvariant(front);
      var gs := GroupTilesOnce(front);
      var es := TileEdges(tiles[n]);
      assert front + [tiles[n]] == tiles;
      LinkedStep(gs, front, tiles[n], ConnectedOnce(gs, es), GroupTilesOnce(tiles));
    }
  }

  // ---------------------------------------------------------------------------
  // Groups are exactly the regions

  /** Along a chain, every tile is held by the group holding the chain's first tile. */
  lemma {:induction false} ChainHeld(groups: seq<Group>, tiles: seq<Tile>, c: seq<nat>, k: nat, i: nat)
    requires GroupingInvariant(groups, tiles)
    requires IsChain(tiles, c) && k < |c|
    requires i < |groups| && Holds(groups[i], tiles[c[0]])
    ensures Holds(groups[i], tiles[c[k]])
    decreases k
  {
    if k > 0 {
      ChainHeld(groups, tiles, c, k - 1, i);
      assert Adjacent(tiles, c[k - 1], c[k]);
      var e :| e in TileEdges(tiles[c[k]]) && e in TileEdges(tiles[c[k - 1]]);
      assert Placed(groups, tiles[c[k]]);
      var j :| 0 <= j < |groups| && Holds(groups[j], tiles[c[k]]);
      assert e in groups[i] && e in groups[j];
      assert i == j;
    }
  }

  /**
   Given the loop's invariants, two tiles with edges sit in one group exactly
   when a chain of edge-sharing tiles links them.
   */
  lemma GroupsAreRegions(groups: seq<Group>, tiles: seq<Tile>, a: nat, b: nat)
    requires GroupingInvariant(groups, tiles) && GroupsLinked(groups, tiles)
    requires a < |tiles| && b < |tiles|
    requires TileEdges(tiles[a]) != [] && TileEdges(tiles[b]) != []
    ensures InOneGroup(groups, tiles[a], tiles[b]) <==> Linked(tiles, a, b)
  {
    if InOneGroup(groups, tiles[a], tiles[b]) {
      var i :| 0 <= i < |groups| && Holds(groups[i], tiles[a]) && Holds(groups[i], tiles[b]);
      assert TileEdges(tiles[a])[0] in TileEdges(tiles[a]);
      assert TileEdges(tiles[b])[0] in TileEdges(tiles[b]);
      assert Shares(groups[i], TileEdges(tiles[a])) && Shares(groups[i], TileEdges(tiles[b]));
    }
    if Linked(tiles, a, b) {
      var c :| IsChain(tiles, c) && c[0] == a && c[|c| - 1] == b;
      assert Placed(groups, tiles[a]);
      var i :| 0 <= i < |groups| && Holds(groups[i], tiles[a]);
      ChainHeld(groups, tiles, c, |c| - 1, i);
    }
  }

  /**
   The grouping loop as written yields exactly the regions: two tiles with
   edges share a final group if and only if a chain of edge-sharing tiles
   links them.
   */
  lemma GroupTilesRegions(tiles: seq<Tile>, a: nat, b: nat)
    requires a < |tiles| && b < |tiles|
    requires TileEdges(tiles[a]) != [] && TileEdges(tiles[b]) != []
    ensures InOneGroup(GroupTiles(tiles), tiles[a], tiles[b]) <==> Linked(tiles, a, b)
  {
    GroupTilesInvariant(tiles);
    GroupTilesLinked(tiles);
    GroupsAreRegions(GroupTiles(tiles), tiles, a, b);
  }

  /** The corrected loop yields exactly the same regions. */
  lemma GroupTilesOnceRegions(tiles: seq<Tile>, a: nat, b: nat)
    requires a < |tiles| && b < |tiles|
    requires TileEdges(tiles[a]) != [] && TileEdges(tiles[b]) != []
    ensures InOneGroup(GroupTilesOnce(tiles), tiles[a], tiles[b]) <==> Linked(tiles, a, b)
  {
    GroupTilesOnceInvariant(tiles);
    GroupTilesOnceLinked(tiles);
    GroupsAreRegions(GroupTilesOnce(tiles), tiles, a, b);
  }
}
