/**
 Grouping of tiles into connected groups of edges (PathCreation.cs:243-274).

 The tiles are folded, in input order, into a list of groups, each group a
 list of edges in which values may repeat. For each new tile the program
 builds `connectedGroups`: for every existing group and every edge of the
 tile that the group contains, one more reference to that group. With no
 reference the tile's edge list becomes a new last group. Otherwise the new
 group is the tile's edges followed by the edges of every referenced group,
 once per reference; each referenced group is removed (by reference, so a
 second removal of the same group does nothing) and the new group is
 appended last.

 A group is identified here by its position in the list, and
 `connectedGroups` is the list of those positions.
 */
module Grouping {
  import opened Geometry
  import opened Seqs
  import opened Tiles

  type Group = seq<Edge>

  /** True when group `g` contains one of the edges in `es` (`List.Contains`). */
  predicate Shares(g: Group, es: seq<Edge>)
  {
    exists e :: e in es && e in g
  }

  /** How many of the edges in `es` group `g` contains. */
  function Matches(g: Group, es: seq<Edge>): (k: nat)
    ensures k <= |es|
    ensures k > 0 <==> Shares(g, es)
  {
    if es == [] then 0
    else
      assert forall e :: e in es <==> e == es[0] || e in es[1..];
      (if es[0] in g then 1 else 0) + Matches(g, es[1..])
  }

  /** The references the inner scan (PathCreation.cs:248-253) adds for group number `i`. */
  function Scan(i: nat, g: Group, es: seq<Edge>): (r: seq<nat>)
    ensures forall k :: 0 <= k < |r| ==> r[k] == i
    ensures Count(r, i) == Matches(g, es)
    ensures forall j :: j != i ==> Count(r, j) == 0
  {
    if es == [] then []
    else
      var head := if es[0] in g then [i] else [];
      CountAppend(head, Scan(i, g, es[1..]), i);
      assert forall j :: Count(head + Scan(i, g, es[1..]), j) == Count(head, j) + Count(Scan(i, g, es[1..]), j) by {
        forall j { CountAppend(head, Scan(i, g, es[1..]), j); }
      }
      head + Scan(i, g, es[1..])
  }

  /** True when every entry of `conn` names a group of `groups`. */
  predicate ValidRefs(groups: seq<Group>, conn: seq<nat>)
  {
    forall k :: 0 <= k < |conn| ==> conn[k] < |groups|
  }

  /**
   `connectedGroups` as the program builds it (PathCreation.cs:245-255): group
   number `i` is referenced once per edge of the tile that it contains, so the
   number of references to a group is its number of matching edges.
   */
  function Connected(groups: seq<Group>, es: seq<Edge>): (conn: seq<nat>)
    ensures ValidRefs(groups, conn)
    ensures forall i: nat :: i < |groups| ==> Count(conn, i) == Matches(groups[i], es)
    ensures forall i: nat :: i < |groups| ==> (i in conn <==> Shares(groups[i], es))
  {
    if groups == [] then []
    else
      var n: nat := |groups| - 1;
      var front := Connected(groups[..n], es);
      var scan := Scan(n, groups[n], es);
      assert Count(scan, n) == Matches(groups[n], es);
      assert forall j :: Count(front + scan, j) == Count(front, j) + Count(scan, j) by {
        forall j { CountAppend(front, scan, j); }
      }
      assert forall i :: 0 <= i < n ==> groups[..n][i] == groups[i];
      assert forall i :: i in front + scan <==> Count(front + scan, i) > 0;
      assert Count(front, n) == 0;
      forall i: nat | i < |groups| ensures Count(front + scan, i) == Matches(groups[i], es) {
        CountAppend(front, scan, i);
        if i < n {
          assert groups[..n][i] == groups[i];
          assert Count(front, i) == Matches(groups[..n][i], es);
          assert Count(scan, i) == 0;
        } else {
          assert i == n;
          assert Count(scan, i) == Matches(groups[n], es);
        }
      }
      front + scan
  }

  /**
   The corrected scan: each group that shares an edge with the tile is
   referenced exactly once.
   */
  function ConnectedOnce(groups: seq<Group>, es: seq<Edge>): (conn: seq<nat>)
    ensures ValidRefs(groups, conn)
    ensures forall i: nat :: i < |groups| ==> Count(conn, i) == if Shares(groups[i], es) then 1 else 0
    ensures forall i: nat :: i < |groups| ==> (i in conn <==> Shares(groups[i], es))
  {
    if groups == [] then []
    else
      var n: nat := |groups| - 1;
      var front := ConnectedOnce(groups[..n], es);
      var last: seq<nat> := if Shares(groups[n], es) then [n] else [];
      assert forall j :: Count(front + last, j) == Count(front, j) + Count(last, j) by {
        forall j { CountAppend(front, last, j); }
      }
      assert forall i :: 0 <= i < n ==> groups[..n][i] == groups[i];
      assert forall i :: i in front + last <==> Count(front + last, i) > 0;
      assert Count(front, n) == 0;
      forall i: nat | i < |groups| ensures Count(front + last, i) == if Shares(groups[i], es) then 1 else 0 {
        CountAppend(front, last, i);
        if i < n {
          assert groups[..n][i] == groups[i];
          assert Count(front, i) == if Shares(groups[..n][i], es) then 1 else 0;
          assert Count(last, i) == 0;
        } else {
          assert i == n;
          assert Count(last, i) == if Shares(groups[n], es) then 1 else 0;
        }
      }
      front + last
  }

  /** True when `e` is in one of the groups that `conn` references. */
  predicate Referenced(groups: seq<Group>, conn: seq<nat>, e: Edge)
    requires ValidRefs(groups, conn)
  {
    exists k :: 0 <= k < |conn| && e in groups[conn[k]]
  }

  /** The edges of the referenced groups, one full copy per reference, in reference order. */
  function Gather(groups: seq<Group>, conn: seq<nat>): (r: seq<Edge>)
    requires ValidRefs(groups, conn)
    ensures forall e :: e in r <==> Referenced(groups, conn, e)
  {
    if conn == [] then []
    else
      var rest := Gather(groups, conn[1..]);
      assert forall e :: Referenced(groups, conn, e) <==> e in groups[conn[0]] || Referenced(groups, conn[1..], e) by {
        forall e | Referenced(groups, conn, e)
          ensures e in groups[conn[0]] || Referenced(groups, conn[1..], e)
        {
          var k :| 0 <= k < |conn| && e in groups[conn[k]];
          if k > 0 {
            assert conn[1..][k - 1] == conn[k];
          }
        }
        forall e | Referenced(groups, conn[1..], e)
          ensures Referenced(groups, conn, e)
        {
          var k :| 0 <= k < |conn[1..]| && e in groups[conn[1..][k]];
          assert conn[k + 1] == conn[1..][k];
        }
      }
      groups[conn[0]] + rest
  }

  /** The indices 0, 1, ..., n-1. */
  function Range(n: nat): (r: seq<nat>)
    ensures |r| == n
    ensures forall k :: 0 <= k < n ==> r[k] == k
  {
    seq(n, k => k)
  }

  /** The groups at the listed positions, in list order. */
  function Pick(groups: seq<Group>, idx: seq<nat>): (r: seq<Group>)
    requires ValidRefs(groups, idx)
    ensures |r| == |idx|
    ensures forall k :: 0 <= k < |idx| ==> r[k] == groups[idx[k]]
  {
    seq(|idx|, k requires 0 <= k < |idx| => groups[idx[k]])
  }

  /**
   `tileGroups.Remove(connectedGroup)` once per reference, in reference order,
   applied to the positions of the groups still present.
   */
  function RemoveEach(live: seq<nat>, conn: seq<nat>): (r: seq<nat>)
    ensures forall x :: x in r ==> x in live
    decreases |conn|
  {
    if conn == [] then live else RemoveEach(RemoveFirst(live, conn[0]), conn[1..])
  }

  /**
   One pass of the outer loop body (PathCreation.cs:245-273) for a tile with
   edge list `es`, given the reference list `conn`.
   */
  function ProcessWith(groups: seq<Group>, es: seq<Edge>, conn: seq<nat>): seq<Group>
    requires ValidRefs(groups, conn)
  {
    if |conn| == 0 then groups + [es]
    else
      var live := RemoveEach(Range(|groups|), conn);
      assert ValidRefs(groups, live) by {
        forall k | 0 <= k < |live| ensures live[k] < |groups| {
          assert live[k] in Range(|groups|);
        }
      }
      Pick(groups, live) + [es + Gather(groups, conn)]
  }

  /** The loop body exactly as written. */
  function ProcessTile(groups: seq<Group>, es: seq<Edge>): seq<Group>
  {
    ProcessWith(groups, es, Connected(groups, es))
  }

  /** The loop body with each matching group merged once. */
  function ProcessTileOnce(groups: seq<Group>, es: seq<Edge>): seq<Group>
  {
    ProcessWith(groups, es, ConnectedOnce(groups, es))
  }

  /** The grouping loop (PathCreation.cs:243-274) over the tiles in input order. */
  function GroupTiles(tiles: seq<Tile>): seq<Group>
  {
    if tiles == [] then []
    else ProcessTile(GroupTiles(tiles[..|tiles| - 1]), TileEdges(tiles[|tiles| - 1]))
  }

  /** The grouping loop with the corrected merge. */
  function GroupTilesOnce(tiles: seq<Tile>): seq<Group>
  {
    if tiles == [] then []
    else ProcessTileOnce(GroupTilesOnce(tiles[..|tiles| - 1]), TileEdges(tiles[|tiles| - 1]))
  }

  // ---------------------------------------------------------------------------
  // Reference definitions the loop is compared against

  /** `k` copies of group `g`, one after the other. */
  function Copies(g: Group, k: nat): (r: Group)
    ensures |r| == k * |g|
  {
    if k == 0 then [] else g + Copies(g, k - 1)
  }

  /** The edges the program copies for a tile: each group in list order, once per tile edge it contains. */
  function MatchedCopies(groups: seq<Group>, es: seq<Edge>): Group
  {
    if groups == [] then []
    else
      var n := |groups| - 1;
      MatchedCopies(groups[..n], es) + Copies(groups[n], Matches(groups[n], es))
  }

  /** The groups sharing an edge with `es`, concatenated in list order, each once. */
  function SharedGroups(groups: seq<Group>, es: seq<Edge>): Group
  {
    if groups == [] then []
    else
      var n := |groups| - 1;
      SharedGroups(groups[..n], es) + (if Shares(groups[n], es) then groups[n] else [])
  }

  /** The groups sharing no edge with `es`, in their original relative order. */
  function Unmatched(groups: seq<Group>, es: seq<Edge>): seq<Group>
  {
    if groups == [] then []
    else
      var n: nat := |groups| - 1;
      Unmatched(groups[..n], es) + (if Shares(groups[n], es) then [] else [groups[n]])
  }

  /** True when edge `e` is in some group. */
  predicate InSomeGroup(groups: seq<Group>, e: Edge)
  {
    exists i :: 0 <= i < |groups| && e in groups[i]
  }

  /** True when edge `e` is an edge of some tile. */
  predicate InSomeTile(tiles: seq<Tile>, e: Edge)
  {
    exists t :: 0 <= t < |tiles| && e in TileEdges(tiles[t])
  }

  /** No edge value is in two different groups. */
  predicate Disjoint(groups: seq<Group>)
  {
    forall i, j, e :: 0 <= i < |groups| && 0 <= j < |groups| && i != j && e in groups[i] ==> e !in groups[j]
  }

  /** Every edge of tile `t` is in group `g`. */
  predicate Holds(g: Group, t: Tile)
  {
    forall e :: e in TileEdges(t) ==> e in g
  }

  /** True when `e` is in a group that shares an edge with `es`. */
  predicate InSharedGroup(groups: seq<Group>, es: seq<Edge>, e: Edge)
  {
    exists i :: 0 <= i < |groups| && Shares(groups[i], es) && e in groups[i]
  }

  /** True when `e` is in a group that shares no edge with `es`. */
  predicate InUnsharedGroup(groups: seq<Group>, es: seq<Edge>, e: Edge)
  {
    exists i :: 0 <= i < |groups| && !Shares(groups[i], es) && e in groups[i]
  }

  /** True when some group holds every edge of tile `t`. */
  predicate Placed(groups: seq<Group>, t: Tile)
  {
    exists i :: 0 <= i < |groups| && Holds(groups[i], t)
  }

  /**
   What the grouping loop maintains over the tiles processed so far: no more
   groups than tiles, no edge value in two groups, the edge values of the
   groups are exactly those of the tiles, and each tile's edges sit together
   in one group.
   */
  ghost predicate GroupingInvariant(groups: seq<Group>, tiles: seq<Tile>)
  {
    && |groups| <= |tiles|
    && Disjoint(groups)
    && (forall e :: InSomeGroup(groups, e) <==> InSomeTile(tiles, e))
    && (forall k :: 0 <= k < |tiles| ==> Placed(groups, tiles[k]))
  }

  // ---------------------------------------------------------------------------
  // Lemmas

  /**
   Removing by reference once per entry of `conn` leaves exactly the positions
   not referenced; a repeated reference removes nothing more.
   */
  lemma {:induction false} RemoveEachIsWithout(live: seq<nat>, conn: seq<nat>)
    requires NoRepeats(live)
    ensures RemoveEach(live, conn) == Without(live, set k: nat | k in conn)
    decreases |conn|
  {
    if conn == [] {
      WithoutAbsent(live, set k: nat | k in conn);
    } else {
      var c := conn[0];
      var rest := conn[1..];
      var live' := RemoveFirst(live, c);
      RemoveFirstNoRepeats(live, c);
      var one: set<nat> := {c};
      assert live' == Without(live, one);
      RemoveEachIsWithout(live', rest);
      assert RemoveEach(live, conn) == RemoveEach(live', rest);
      var others: set<nat> := set k: nat | k in rest;
      WithoutWithout(live, one, others);
      assert (set k: nat | k in conn) == one + others by {
        assert conn == [c] + rest;
      }
    }
  }

  lemma RangeBelow(n: nat, d: set<nat>, groups: seq<Group>)
    requires n <= |groups|
    ensures ValidRefs(groups, Without(Range(n), d))
  {
    var w := Without(Range(n), d);
    forall k | 0 <= k < |w| ensures w[k] < |groups| {
      assert w[k] in Range(n);
    }
  }

  lemma UnmatchedSnoc(front: seq<Group>, g: Group, es: seq<Edge>)
    ensures Unmatched(front + [g], es) == Unmatched(front, es) + (if Shares(g, es) then [] else [g])
  {
    assert (front + [g])[..|front|] == front;
  }

  lemma UnmatchedPrefix(groups: seq<Group>, es: seq<Edge>, m: nat)
    requires m < |groups|
    ensures Unmatched(groups[..m + 1], es) == Unmatched(groups[..m], es) + (if Shares(groups[m], es) then [] else [groups[m]])
  {
    var p := groups[..m + 1];
    assert p[..m] == groups[..m];
    assert p[m] == groups[m];
  }

  lemma WithoutSnoc(a: seq<nat>, m: nat, d: set<nat>)
    ensures Without(a + [m], d) == Without(a, d) + (if m in d then [] else [m])
  {
    WithoutAppend(a, [m], d);
    assert [m][1..] == [];
  }

  /** The positions kept, read back as groups, are the unmatched groups in order. */
  lemma {:induction false} PickUnmatched(groups: seq<Group>, es: seq<Edge>, d: set<nat>, n: nat)
    requires n <= |groups|
    requires forall i: nat :: i < n ==> (i in d <==> Shares(groups[i], es))
    ensures ValidRefs(groups, Without(Range(n), d))
    ensures Pick(groups, Without(Range(n), d)) == Unmatched(groups[..n], es)
    decreases n
  {
    RangeBelow(n, d, groups);
    if n == 0 {
      assert Range(0) == [];
      assert groups[..0] == [];
    } else {
      PickUnmatched(groups, es, d, n - 1);
      RangeBelow(n, d, groups);
      PickUnmatchedStep(groups, es, d, n - 1);
    }
  }

  lemma PickSnoc(groups: seq<Group>, a: seq<nat>, m: nat)
    requires ValidRefs(groups, a) && m < |groups|
    ensures ValidRefs(groups, a + [m])
    ensures Pick(groups, a + [m]) == Pick(groups, a) + [groups[m]]
  {
  }

  lemma PickUnmatchedStep(groups: seq<Group>, es: seq<Edge>, d: set<nat>, m: nat)
    requires m < |groups|
    requires m in d <==> Shares(groups[m], es)
    requires ValidRefs(groups, Without(Range(m), d))
    requires Pick(groups, Without(Range(m), d)) == Unmatched(groups[..m], es)
    requires ValidRefs(groups, Without(Range(m + 1), d))
    ensures Pick(groups, Without(Range(m + 1), d)) == Unmatched(groups[..m + 1], es)
  {
    var front := Without(Range(m), d);
    assert Range(m + 1) == Range(m) + [m];
    WithoutSnoc(Range(m), m, d);
    UnmatchedPrefix(groups, es, m);
    if m in d {
      assert Without(Range(m + 1), d) == front && Unmatched(groups[..m + 1], es) == Unmatched(groups[..m], es);
    } else {
      PickSnoc(groups, front, m);
    }
  }

  lemma {:induction false} DisjointPrefix(groups: seq<Group>, n: nat)
    requires n <= |groups|
    requires Disjoint(groups)
    ensures Disjoint(groups[..n])
  {
    forall i, j, e | 0 <= i < n && 0 <= j < n && i != j && e in groups[..n][i]
      ensures e !in groups[..n][j]
    {
      assert groups[..n][i] == groups[i] && groups[..n][j] == groups[j];
    }
  }

  /** Appending a group whose edges are in no existing group keeps the groups disjoint. */
  lemma {:induction false} DisjointSnoc(groups: seq<Group>, g: Group)
    requires Disjoint(groups)
    requires forall e :: e in g ==> !InSomeGroup(groups, e)
    ensures Disjoint(groups + [g])
  {
    var r := groups + [g];
    forall i, j, e | 0 <= i < |r| && 0 <= j < |r| && i != j && e in r[i]
      ensures e !in r[j]
    {
      if i < |groups| && j < |groups| {
        assert r[i] == groups[i] && r[j] == groups[j];
      } else if i < |groups| {
        assert r[i] == groups[i] && r[j] == g;
        assert InSomeGroup(groups, e);
      } else {
        assert r[i] == g && r[j] == groups[j];
        assert !InSomeGroup(groups, e);
      }
    }
  }

  /** Every unmatched group is one of the groups and shares no edge with `es`. */
  lemma {:induction false} UnmatchedSubset(groups: seq<Group>, es: seq<Edge>)
    ensures forall g :: g in Unmatched(groups, es) ==> g in groups && !Shares(g, es)
    ensures |Unmatched(groups, es)| <= |groups|
    decreases |groups|
  {
    if groups != [] {
      var n := |groups| - 1;
      var front := groups[..n];
      UnmatchedSubset(front, es);
      assert groups == front + [groups[n]];
      UnmatchedSnoc(front, groups[n], es);
    }
  }

  /** Every group sharing no edge with `es` is kept among the unmatched groups. */
  lemma {:induction false} UnmatchedKeeps(groups: seq<Group>, es: seq<Edge>)
    ensures forall i :: 0 <= i < |groups| && !Shares(groups[i], es) ==> groups[i] in Unmatched(groups, es)
    decreases |groups|
  {
    if groups != [] {
      var n := |groups| - 1;
      var front := groups[..n];
      UnmatchedKeeps(front, es);
      assert groups == front + [groups[n]];
      UnmatchedSnoc(front, groups[n], es);
      forall i | 0 <= i < |groups| && !Shares(groups[i], es)
        ensures groups[i] in Unmatched(groups, es)
      {
        if i < n {
          assert front[i] == groups[i];
        }
      }
    }
  }

  /** With no group sharing an edge with `es`, every group is kept, in order. */
  lemma {:induction false} UnmatchedAll(groups: seq<Group>, es: seq<Edge>)
    requires forall i :: 0 <= i < |groups| ==> !Shares(groups[i], es)
    ensures Unmatched(groups, es) == groups
    decreases |groups|
  {
    if groups != [] {
      var n := |groups| - 1;
      var front := groups[..n];
      assert forall i :: 0 <= i < |front| ==> front[i] == groups[i];
      UnmatchedAll(front, es);
      assert groups == front + [groups[n]];
      UnmatchedSnoc(front, groups[n], es);
    }
  }

  /** An edge is in an unmatched group exactly when it is in a group sharing no edge with `es`. */
  lemma {:induction false} UnmatchedEdges(groups: seq<Group>, es: seq<Edge>)
    ensures forall e :: InSomeGroup(Unmatched(groups, es), e) <==> InUnsharedGroup(groups, es, e)
    decreases |groups|
  {
    if groups != [] {
      var n := |groups| - 1;
      var front := groups[..n];
      UnmatchedEdges(front, es);
      var u := Unmatched(front, es);
      var last: seq<Group> := if Shares(groups[n], es) then [] else [groups[n]];
      assert Unmatched(groups, es) == u + last;
      forall e ensures InSomeGroup(u + last, e) <==> InUnsharedGroup(groups, es, e) {
        if InSomeGroup(u + last, e) {
          var k :| 0 <= k < |u + last| && e in (u + last)[k];
          if k < |u| {
            assert (u + last)[k] == u[k];
            assert InSomeGroup(u, e);
            var i :| 0 <= i < |front| && !Shares(front[i], es) && e in front[i];
            assert front[i] == groups[i];
          } else {
            assert (u + last)[k] == groups[n];
          }
        }
        if InUnsharedGroup(groups, es, e) {
          var i :| 0 <= i < |groups| && !Shares(groups[i], es) && e in groups[i];
          if i < n {
            assert front[i] == groups[i];
            assert InUnsharedGroup(front, es, e);
            var k :| 0 <= k < |u| && e in u[k];
            assert (u + last)[k] == u[k];
          } else {
            assert (u + last)[|u|] == groups[n];
          }
        }
      }
    }
  }

  /** Dropping the matched groups keeps the remaining groups disjoint. */
  lemma {:induction false} UnmatchedDisjoint(groups: seq<Group>, es: seq<Edge>)
    requires Disjoint(groups)
    ensures Disjoint(Unmatched(groups, es))
    decreases |groups|
  {
    if groups != [] {
      var n := |groups| - 1;
      var front := groups[..n];
      DisjointPrefix(groups, n);
      UnmatchedDisjoint(front, es);
      var u := Unmatched(front, es);
      if !Shares(groups[n], es) {
        UnmatchedEdges(front, es);
        forall e | e in groups[n] ensures !InSomeGroup(u, e) {
          forall i | 0 <= i < |front| ensures e !in front[i] {
            assert front[i] == groups[i];
          }
          assert !InUnsharedGroup(front, es, e);
        }
        DisjointSnoc(u, groups[n]);
        assert Unmatched(groups, es) == u + [groups[n]];
      } else {
        assert Unmatched(groups, es) == u;
      }
    }
  }

  /**
   One pass of the loop body for any reference list that names exactly the
   groups sharing an edge with the tile: with no such group the tile's edges
   are appended as a new group and nothing else changes; otherwise the
   unmatched groups keep their order and are followed by one merged group that
   starts with the tile's edges and holds, besides them, exactly the edge
   values of the matched groups.
   */
  lemma ProcessWithEffect(groups: seq<Group>, es: seq<Edge>, conn: seq<nat>)
    requires ValidRefs(groups, conn)
    requires forall i: nat :: i < |groups| ==> (i in conn <==> Shares(groups[i], es))
    ensures var r := ProcessWith(groups, es, conn);
      && |r| > 0
      && r[..|r| - 1] == Unmatched(groups, es)
      && |es| <= |r[|r| - 1]| && r[|r| - 1][..|es|] == es
      && (forall e :: e in r[|r| - 1] <==> e in es || InSharedGroup(groups, es, e))
    ensures (forall i :: 0 <= i < |groups| ==> !Shares(groups[i], es)) ==> ProcessWith(groups, es, conn) == groups + [es]
  {
    var r := ProcessWith(groups, es, conn);
    if |conn| == 0 {
      UnmatchedAll(groups, es);
      assert forall i: nat :: i < |groups| ==> !Shares(groups[i], es);
      assert r[..|r| - 1] == groups;
    } else {
      var d := set k: nat | k in conn;
      RemoveEachIsWithout(Range(|groups|), conn);
      PickUnmatched(groups, es, d, |groups|);
      assert groups[..|groups|] == groups;
      var merged := es + Gather(groups, conn);
      assert r == Pick(groups, Without(Range(|groups|), d)) + [merged];
      assert merged[..|es|] == es;
      forall e ensures e in merged <==> e in es || InSharedGroup(groups, es, e) {
        if Referenced(groups, conn, e) {
          var k :| 0 <= k < |conn| && e in groups[conn[k]];
          assert conn[k] in conn;
        }
        if InSharedGroup(groups, es, e) {
          var i :| 0 <= i < |groups| && Shares(groups[i], es) && e in groups[i];
          assert i in conn;
          var k :| 0 <= k < |conn| && conn[k] == i;
        }
      }
      assert conn[0] in conn;
      assert Shares(groups[conn[0]], es);
    }
  }

  /**
   Distributes one product for `GatherCount`'s inductive step, kept apart so
   that the nonlinear fact is proved outside that lemma's larger context.
   */
  lemma MulSucc(a: int, k: int)
    ensures (1 + a) * k == k + a * k
  {
  }

  /** Each reference contributes one full copy: with disjoint groups, an edge of group `i` occurs (references to `i`) times its count in that group. */
  lemma {:induction false} GatherCount(groups: seq<Group>, conn: seq<nat>, i: nat, e: Edge)
    requires ValidRefs(groups, conn)
    requires Disjoint(groups)
    requires i < |groups| && e in groups[i]
    ensures Count(Gather(groups, conn), e) == Count(conn, i) * Count(groups[i], e)
    decreases |conn|
  {
    if conn != [] {
      var c := conn[0];
      var rest := conn[1..];
      assert ValidRefs(groups, rest);
      GatherCount(groups, rest, i, e);
      CountAppend(groups[c], Gather(groups, rest), e);
      var k := Count(groups[i], e);
      if c == i {
        assert Count(conn, i) == 1 + Count(rest, i);
        MulSucc(Count(rest, i), k);
      } else {
        assert e !in groups[c];
        assert Count(conn, i) == Count(rest, i);
      }
    }
  }

  lemma InSomeGroupSnoc(groups: seq<Group>, g: Group, e: Edge)
    ensures InSomeGroup(groups + [g], e) <==> InSomeGroup(groups, e) || e in g
  {
    var r := groups + [g];
    if InSomeGroup(r, e) {
      var i :| 0 <= i < |r| && e in r[i];
      if i < |groups| {
        assert r[i] == groups[i];
      }
    }
    if InSomeGroup(groups, e) {
      var i :| 0 <= i < |groups| && e in groups[i];
      assert r[i] == groups[i];
    }
    if e in g {
      assert r[|groups|] == g;
    }
  }

  lemma InSomeTileSnoc(tiles: seq<Tile>, t: Tile, e: Edge)
    ensures InSomeTile(tiles + [t], e) <==> InSomeTile(tiles, e) || e in TileEdges(t)
  {
    var r := tiles + [t];
    if InSomeTile(r, e) {
      var k :| 0 <= k < |r| && e in TileEdges(r[k]);
      if k < |tiles| {
        assert r[k] == tiles[k];
      }
    }
    if InSomeTile(tiles, e) {
      var k :| 0 <= k < |tiles| && e in TileEdges(tiles[k]);
      assert r[k] == tiles[k];
    }
    if e in TileEdges(t) {
      assert r[|tiles|] == t;
    }
  }

  /** After one pass the merged group shares no edge value with a kept group. */
  lemma StepDisjoint(groups: seq<Group>, es: seq<Edge>, m: Group)
    requires Disjoint(groups)
    requires forall e :: e in m <==> e in es || InSharedGroup(groups, es, e)
    ensures Disjoint(Unmatched(groups, es) + [m])
  {
    var u := Unmatched(groups, es);
    UnmatchedEdges(groups, es);
    UnmatchedDisjoint(groups, es);
    forall e | e in m ensures !InSomeGroup(u, e) {
      forall j | 0 <= j < |groups| && e in groups[j] ensures Shares(groups[j], es) {
        if e !in es {
          var i :| 0 <= i < |groups| && Shares(groups[i], es) && e in groups[i];
          assert j == i;
        }
      }
      assert !InUnsharedGroup(groups, es, e);
    }
    DisjointSnoc(u, m);
  }

  /** After one pass the groups hold exactly the edge values of the old groups and of the new tile. */
  lemma StepEdges(groups: seq<Group>, es: seq<Edge>, m: Group, e: Edge)
    requires forall e :: e in m <==> e in es || InSharedGroup(groups, es, e)
    ensures InSomeGroup(Unmatched(groups, es) + [m], e) <==> InSomeGroup(groups, e) || e in es
  {
    var u := Unmatched(groups, es);
    UnmatchedEdges(groups, es);
    InSomeGroupSnoc(u, m, e);
    if InSomeGroup(groups, e) {
      var i :| 0 <= i < |groups| && e in groups[i];
      if Shares(groups[i], es) {
        assert InSharedGroup(groups, es, e);
      } else {
        assert InUnsharedGroup(groups, es, e);
      }
    }
  }

  /** After one pass a tile whose edges sat together in one group still has them together. */
  lemma StepPlaced(groups: seq<Group>, es: seq<Edge>, m: Group, t: Tile)
    requires forall e :: e in m <==> e in es || InSharedGroup(groups, es, e)
    requires Placed(groups, t)
    ensures Placed(Unmatched(groups, es) + [m], t)
  {
    var u := Unmatched(groups, es);
    var r := u + [m];
    var i :| 0 <= i < |groups| && Holds(groups[i], t);
    if Shares(groups[i], es) {
      forall e | e in TileEdges(t) ensures e in m {
        assert InSharedGroup(groups, es, e);
      }
      assert r[|u|] == m;
    } else {
      UnmatchedKeeps(groups, es);
      assert groups[i] in u;
      var j :| 0 <= j < |u| && u[j] == groups[i];
      assert r[j] == u[j];
    }
  }

  /** One pass of the loop body keeps the grouping invariant, for the tiles processed so far plus the new tile. */
  lemma GroupingStep(groups: seq<Group>, tiles: seq<Tile>, t: Tile, conn: seq<nat>, r: seq<Group>, tiles': seq<Tile>)
    requires GroupingInvariant(groups, tiles)
    requires ValidRefs(groups, conn)
    requires forall i: nat :: i < |groups| ==> (i in conn <==> Shares(groups[i], TileEdges(t)))
    requires r == ProcessWith(groups, TileEdges(t), conn)
    requires tiles' == tiles + [t]
    ensures GroupingInvariant(r, tiles')
  {
    var es := TileEdges(t);
    ProcessWithEffect(groups, es, conn);
    var u := Unmatched(groups, es);
    var m := r[|r| - 1];
    assert r == u + [m];
    UnmatchedSubset(groups, es);
    StepDisjoint(groups, es, m);
    forall e ensures InSomeGroup(r, e) <==> InSomeTile(tiles + [t], e) {
      StepEdges(groups, es, m, e);
      InSomeTileSnoc(tiles, t, e);
    }
    forall k | 0 <= k < |tiles + [t]| ensures Placed(r, (tiles + [t])[k]) {
      if k == |tiles| {
        assert r[|u|] == m;
        assert Holds(m, t);
      } else {
        assert (tiles + [t])[k] == tiles[k];
        StepPlaced(groups, es, m, tiles[k]);
      }
    }
  }

  /**
   The grouping loop as written keeps its invariant: after all tiles, no edge
   value lies in two groups, the groups hold exactly the tiles' edge values,
   each tile's edges share one group, and there are at most as many groups as
   tiles.
   */
  lemma {:induction false} GroupTilesInvariant(tiles: seq<Tile>)
    ensures GroupingInvariant(GroupTiles(tiles), tiles)
    decreases |tiles|
  {
    if tiles != [] {
      var n := |tiles| - 1;
      var front := tiles[..n];
      GroupTilesInvariant(front);
      var gs := GroupTiles(front);
      var es := TileEdges(tiles[n]);
      assert front + [tiles[n]] == tiles;
      GroupingStep(gs, front, tiles[n], Connected(gs, es), GroupTiles(tiles), tiles);
    }
  }

  /** The same invariant for the corrected loop. */
  lemma {:induction false} GroupTilesOnceInvariant(tiles: seq<Tile>)
    ensures GroupingInvariant(GroupTilesOnce(tiles), tiles)
    decreases |tiles|
  {
    if tiles != [] {
      var n := |tiles| - 1;
      var front := tiles[..n];
      GroupTilesOnceInvariant(front);
      var gs := GroupTilesOnce(front);
      var es := TileEdges(tiles[n]);
      assert front + [tiles[n]] == tiles;
      GroupingStep(gs, front, tiles[n], ConnectedOnce(gs, es), GroupTilesOnce(tiles), tiles);
    }
  }

  /** Two tiles sharing an edge value end up in the same group: grouping never splits a connected region. */
  lemma SharedEdgeSameGroup(tiles: seq<Tile>, a: nat, b: nat, e: Edge)
    requires a < |tiles| && b < |tiles|
    requires e in TileEdges(tiles[a]) && e in TileEdges(tiles[b])
    ensures exists i :: 0 <= i < |GroupTiles(tiles)| && Holds(GroupTiles(tiles)[i], tiles[a]) && Holds(GroupTiles(tiles)[i], tiles[b])
  {
    var gs := GroupTiles(tiles);
    GroupTilesInvariant(tiles);
    assert Placed(gs, tiles[a]) && Placed(gs, tiles[b]);
    var i :| 0 <= i < |gs| && Holds(gs[i], tiles[a]);
    var j :| 0 <= j < |gs| && Holds(gs[j], tiles[b]);
    assert e in gs[i] && e in gs[j];
    assert i == j;
  }

  /** The merged group for a reference list: the tile's edges, then one copy of a group per reference. */
  lemma MergedCount(groups: seq<Group>, es: seq<Edge>, conn: seq<nat>, i: nat, e: Edge)
    requires ValidRefs(groups, conn)
    requires Disjoint(groups)
    requires i < |groups| && e in groups[i]
    ensures var r := ProcessWith(groups, es, conn);
      Count(r[|r| - 1], e) == Count(es, e) + Count(conn, i) * Count(groups[i], e)
  {
    var r := ProcessWith(groups, es, conn);
    if |conn| == 0 {
      assert r[|r| - 1] == es;
      assert Count(conn, i) == 0;
    } else {
      assert r[|r| - 1] == es + Gather(groups, conn);
      GatherCount(groups, conn, i, e);
      CountAppend(es, Gather(groups, conn), e);
    }
  }

  /**
   One tile, as written: with no matching group its edges become a new last
   group and the other groups are untouched; otherwise the matched groups are
   removed, the rest keep their order, and the merged group comes last,
   starting with the tile's own edges.
   */
  lemma ProcessTileEffect(groups: seq<Group>, es: seq<Edge>)
    ensures (forall i :: 0 <= i < |groups| ==> !Shares(groups[i], es)) ==> ProcessTile(groups, es) == groups + [es]
    ensures var r := ProcessTile(groups, es);
      && |r| > 0
      && r[..|r| - 1] == Unmatched(groups, es)
      && |es| <= |r[|r| - 1]| && r[|r| - 1][..|es|] == es
      && (forall e :: e in r[|r| - 1] <==> e in es || InSharedGroup(groups, es, e))
  {
    var conn := Connected(groups, es);
    assert ProcessTile(groups, es) == ProcessWith(groups, es, conn);
    ProcessWithEffect(groups, es, conn);
  }

  /**
   A group matched by k of the tile's edges is copied k times into the merged
   group, so each of its edges occurs k times as often there.
   */
  lemma ProcessTileCopies(groups: seq<Group>, es: seq<Edge>, i: nat, e: Edge)
    requires Disjoint(groups)
    requires i < |groups| && e in groups[i]
    ensures var r := ProcessTile(groups, es);
      Count(r[|r| - 1], e) == Count(es, e) + Matches(groups[i], es) * Count(groups[i], e)
  {
    var conn := Connected(groups, es);
    assert ProcessTile(groups, es) == ProcessWith(groups, es, conn);
    MergedCount(groups, es, conn, i, e);
  }

  /**
   One tile, corrected: the same shape of result, but every matched group is
   copied into the merged group exactly once.
   */
  lemma ProcessTileOnceEffect(groups: seq<Group>, es: seq<Edge>)
    ensures (forall i :: 0 <= i < |groups| ==> !Shares(groups[i], es)) ==> ProcessTileOnce(groups, es) == groups + [es]
    ensures var r := ProcessTileOnce(groups, es);
      && |r| > 0
      && r[..|r| - 1] == Unmatched(groups, es)
      && |es| <= |r[|r| - 1]| && r[|r| - 1][..|es|] == es
      && (forall e :: e in r[|r| - 1] <==> e in es || InSharedGroup(groups, es, e))
  {
    var conn := ConnectedOnce(groups, es);
    assert ProcessTileOnce(groups, es) == ProcessWith(groups, es, conn);
    ProcessWithEffect(groups, es, conn);
  }

  /** With the correction, an edge of a matched group occurs in the merged group exactly as often as in that group. */
  lemma ProcessTileOnceCopies(groups: seq<Group>, es: seq<Edge>, i: nat, e: Edge)
    requires Disjoint(groups)
    requires i < |groups| && e in groups[i]
    ensures var r := ProcessTileOnce(groups, es);
      Count(r[|r| - 1], e) == Count(es, e) + (if Shares(groups[i], es) then Count(groups[i], e) else 0)
  {
    var conn := ConnectedOnce(groups, es);
    assert ProcessTileOnce(groups, es) == ProcessWith(groups, es, conn);
    MergedCount(groups, es, conn, i, e);
    var k := Count(groups[i], e);
    if Shares(groups[i], es) {
      assert Count(conn, i) == 1;
      assert Count(conn, i) * k == k;
    } else {
      assert Count(conn, i) == 0;
      assert Count(conn, i) * k == 0;
    }
  }

  lemma {:induction false} GatherAppend(groups: seq<Group>, a: seq<nat>, b: seq<nat>)
    requires ValidRefs(groups, a) && ValidRefs(groups, b)
    ensures ValidRefs(groups, a + b)
    ensures Gather(groups, a + b) == Gather(groups, a) + Gather(groups, b)
    decreases |a|
  {
    if a == [] {
      assert a + b == b;
    } else {
      assert (a + b)[0] == a[0] && (a + b)[1..] == a[1..] + b;
      GatherAppend(groups, a[1..], b);
    }
  }

  lemma {:induction false} GatherRepeat(groups: seq<Group>, conn: seq<nat>, i: nat)
    requires i < |groups|
    requires forall k :: 0 <= k < |conn| ==> conn[k] == i
    ensures ValidRefs(groups, conn) && Gather(groups, conn) == Copies(groups[i], |conn|)
    decreases |conn|
  {
    if conn != [] {
      GatherRepeat(groups, conn[1..], i);
    }
  }

  lemma {:induction false} GatherPrefix(groups: seq<Group>, n: nat, conn: seq<nat>)
    requires n <= |groups| && ValidRefs(groups[..n], conn)
    ensures ValidRefs(groups, conn) && Gather(groups[..n], conn) == Gather(groups, conn)
    decreases |conn|
  {
    if conn != [] {
      assert groups[..n][conn[0]] == groups[conn[0]];
      GatherPrefix(groups, n, conn[1..]);
    }
  }

  /** References to the earlier groups followed by references to the last one. */
  lemma GatherSnoc(groups: seq<Group>, front: seq<nat>, last: seq<nat>)
    requires groups != []
    requires ValidRefs(groups[..|groups| - 1], front)
    requires forall k :: 0 <= k < |last| ==> last[k] == |groups| - 1
    ensures ValidRefs(groups, front + last)
    ensures Gather(groups, front + last) == Gather(groups[..|groups| - 1], front) + Copies(groups[|groups| - 1], |last|)
  {
    var n := |groups| - 1;
    GatherPrefix(groups, n, front);
    GatherRepeat(groups, last, n);
    GatherAppend(groups, front, last);
  }

  /**
   The order of `connectedGroups`: the groups in list order, each referenced
   once per tile edge it contains, so the copied edges are each matched group
   in turn, repeated that many times.
   */
  lemma {:induction false} ConnectedOrder(groups: seq<Group>, es: seq<Edge>)
    ensures Gather(groups, Connected(groups, es)) == MatchedCopies(groups, es)
    decreases |groups|
  {
    if groups != [] {
      var n: nat := |groups| - 1;
      var front := Connected(groups[..n], es);
      var scan := Scan(n, groups[n], es);
      assert Connected(groups, es) == front + scan;
      ConnectedOrder(groups[..n], es);
      CountAll(scan, n);
      assert Count(scan, n) == Matches(groups[n], es);
      GatherSnoc(groups, front, scan);
      assert MatchedCopies(groups, es) == MatchedCopies(groups[..n], es) + Copies(groups[n], |scan|);
    }
  }

  /** The corrected reference list names the sharing groups in list order, once each. */
  lemma {:induction false} ConnectedOnceOrder(groups: seq<Group>, es: seq<Edge>)
    ensures Gather(groups, ConnectedOnce(groups, es)) == SharedGroups(groups, es)
    decreases |groups|
  {
    if groups != [] {
      var n := |groups| - 1;
      var front := ConnectedOnce(groups[..n], es);
      var last: seq<nat> := if Shares(groups[n], es) then [n] else [];
      assert ConnectedOnce(groups, es) == front + last;
      ConnectedOnceOrder(groups[..n], es);
      GatherSnoc(groups, front, last);
      assert Copies(groups[n], |last|) == if Shares(groups[n], es) then groups[n] else [];
    }
  }

  /**
   The merged group as written, element by element: the tile's edges, then
   every group in list order, repeated once per tile edge it contains.
   */
  lemma ProcessTileOrder(groups: seq<Group>, es: seq<Edge>)
    ensures var r := ProcessTile(groups, es);
      |r| > 0 && r[|r| - 1] == es + MatchedCopies(groups, es)
  {
    var conn := Connected(groups, es);
    assert ProcessTile(groups, es) == ProcessWith(groups, es, conn);
    ConnectedOrder(groups, es);
    if |conn| == 0 {
      assert es + [] == es;
    }
  }

  /** The corrected merged group: the tile's edges, then each sharing group once, in list order. */
  lemma ProcessTileOnceOrder(groups: seq<Group>, es: seq<Edge>)
    ensures var r := ProcessTileOnce(groups, es);
      |r| > 0 && r[|r| - 1] == es + SharedGroups(groups, es)
  {
    var conn := ConnectedOnce(groups, es);
    assert ProcessTileOnce(groups, es) == ProcessWith(groups, es, conn);
    ConnectedOnceOrder(groups, es);
    if |conn| == 0 {
      assert es + [] == es;
    }
  }

  lemma ApartNoShares(groups: seq<Group>, tiles: seq<Tile>, es: seq<Edge>)
    requires forall e :: InSomeGroup(groups, e) <==> InSomeTile(tiles, e)
    requires forall e :: e in es ==> !InSomeTile(tiles, e)
    ensures forall i :: 0 <= i < |groups| ==> !Shares(groups[i], es)
  {
    forall i, e | 0 <= i < |groups| && e in groups[i] ensures e !in es {
      assert InSomeGroup(groups, e);
    }
  }

  /**
   A tile sharing no edge value with any earlier tile becomes a group of its
   own, appended last, and the earlier groups stay as they were. That groups
   never join tiles from different regions, over any number of passes, is
   `Connectivity.GroupTilesRegions`.
   */
  lemma ApartTileNewGroup(tiles: seq<Tile>, t: Tile)
    requires forall e :: e in TileEdges(t) ==> !InSomeTile(tiles, e)
    ensures GroupTiles(tiles + [t]) == GroupTiles(tiles) + [TileEdges(t)]
    ensures GroupTilesOnce(tiles + [t]) == GroupTilesOnce(tiles) + [TileEdges(t)]
  {
    var all := tiles + [t];
    var es := TileEdges(t);
    assert all[..|all| - 1] == tiles && all[|all| - 1] == t;
    GroupTilesInvariant(tiles);
    GroupTilesOnceInvariant(tiles);
    ApartNoShares(GroupTiles(tiles), tiles, es);
    ApartNoShares(GroupTilesOnce(tiles), tiles, es);
    ProcessTileEffect(GroupTiles(tiles), es);
    ProcessTileOnceEffect(GroupTilesOnce(tiles), es);
  }
}
