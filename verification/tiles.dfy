/**
 Tiles and their outlines (PathCreation.cs:148-196). A tile is a unit cell
 centred on `pos`; its type code selects the square (0) or one of the four
 right-triangle halves of the square (1 to 4). The edge list is fixed at
 construction from the position and the code alone.
 */
module Tiles {
  import opened Geometry
  import opened Seqs

  datatype Tile = Tile(pos: Point, kind: int)

  /** The point offset from `pos` by (dx, dy). */
  function Offset(pos: Point, dx: real, dy: real): Point
  {
    Add(pos, Point(dx, dy))
  }

  function TopEdge(pos: Point): Edge
  {
    Edge(Offset(pos, -0.5, 0.5), Offset(pos, 0.5, 0.5))
  }

  function RightEdge(pos: Point): Edge
  {
    Edge(Offset(pos, 0.5, 0.5), Offset(pos, 0.5, -0.5))
  }

  function BotEdge(pos: Point): Edge
  {
    Edge(Offset(pos, -0.5, -0.5), Offset(pos, 0.5, -0.5))
  }

  function LeftEdge(pos: Point): Edge
  {
    Edge(Offset(pos, -0.5, 0.5), Offset(pos, -0.5, -0.5))
  }

  function ForwardSlashEdge(pos: Point): Edge
  {
    Edge(Offset(pos, -0.5, -0.5), Offset(pos, 0.5, 0.5))
  }

  function BackSlashEdge(pos: Point): Edge
  {
    Edge(Offset(pos, -0.5, 0.5), Offset(pos, 0.5, -0.5))
  }

  /** True when `q` is one of the four corners of the unit square centred on `pos`. */
  predicate IsCorner(pos: Point, q: Point)
  {
    (q.x - pos.x == 0.5 || q.x - pos.x == -0.5) && (q.y - pos.y == 0.5 || q.y - pos.y == -0.5)
  }

  /** True when the edge is neither horizontal nor vertical. */
  predicate IsDiagonal(e: Edge)
  {
    e.p1.x != e.p2.x && e.p1.y != e.p2.y
  }

  /**
   The edge list the constructor builds. The square has four axis edges; each
   triangle has two axis edges followed by one diagonal; any other code is
   accepted silently and gives no edges at all.
   */
  function TileEdges(t: Tile): (r: seq<Edge>)
    ensures |r| == (if t.kind == 0 then 4 else if 1 <= t.kind <= 4 then 3 else 0)
  {
    var p := t.pos;
    if t.kind == 0 then [TopEdge(p), RightEdge(p), BotEdge(p), LeftEdge(p)]
    else if t.kind == 1 then [BotEdge(p), LeftEdge(p), BackSlashEdge(p)]
    else if t.kind == 2 then [TopEdge(p), LeftEdge(p), ForwardSlashEdge(p)]
    else if t.kind == 3 then [TopEdge(p), RightEdge(p), BackSlashEdge(p)]
    else if t.kind == 4 then [RightEdge(p), BotEdge(p), ForwardSlashEdge(p)]
    else []
  }

  /**
   Every edge of a tile runs between two corners of its unit square and is
   canonically oriented; the square has only axis edges, each triangle two
   axis edges followed by its diagonal; no edge is listed twice.
   */
  lemma TileEdgesShape(t: Tile)
    ensures var r := TileEdges(t);
      && (forall i :: 0 <= i < |r| ==> IsCorner(t.pos, r[i].p1) && IsCorner(t.pos, r[i].p2))
      && (forall i :: 0 <= i < |r| ==> Canonical(r[i]))
      && (t.kind == 0 ==> forall i :: 0 <= i < |r| ==> !IsDiagonal(r[i]))
      && (1 <= t.kind <= 4 ==> !IsDiagonal(r[0]) && !IsDiagonal(r[1]) && IsDiagonal(r[2]))
      && NoRepeats(r)
  {
  }

  /**
   Horizontally and vertically adjacent cells produce the same value for the
   segment between them, endpoints in the same order.
   */
  lemma NeighbourEdgesAgree(p: Point)
    ensures RightEdge(p) == LeftEdge(Offset(p, 1.0, 0.0))
    ensures TopEdge(p) == BotEdge(Offset(p, 0.0, 1.0))
  {
  }

  /** At one position the triangle pairs 1/3 and 2/4 share their diagonal. */
  lemma HalvesShareDiagonal(p: Point)
    ensures BackSlashEdge(p) in TileEdges(Tile(p, 1)) && BackSlashEdge(p) in TileEdges(Tile(p, 3))
    ensures ForwardSlashEdge(p) in TileEdges(Tile(p, 2)) && ForwardSlashEdge(p) in TileEdges(Tile(p, 4))
  {
    assert TileEdges(Tile(p, 1))[2] == BackSlashEdge(p);
    assert TileEdges(Tile(p, 3))[2] == BackSlashEdge(p);
    assert TileEdges(Tile(p, 2))[2] == ForwardSlashEdge(p);
    assert TileEdges(Tile(p, 4))[2] == ForwardSlashEdge(p);
  }

  /**
   Any two tile edges that lie on the same segment are equal values, never
   each other's reverse; this is what lets order-sensitive edge equality
   detect adjacency.
   */
  lemma SharedSegmentSameEdge(t: Tile, u: Tile, i: nat, j: nat)
    requires i < |TileEdges(t)| && j < |TileEdges(u)|
    requires {TileEdges(t)[i].p1, TileEdges(t)[i].p2} == {TileEdges(u)[j].p1, TileEdges(u)[j].p2}
    ensures TileEdges(t)[i] == TileEdges(u)[j]
    ensures TileEdges(u)[j] != Reverse(TileEdges(t)[i])
  {
    TileEdgesShape(t);
    TileEdgesShape(u);
    CanonicalUnique(TileEdges(t)[i], TileEdges(u)[j]);
  }

  /**
   The raw direction `p2 - p1` of a tile edge is one of four vectors, one per
   line direction: (1, 0) horizontal, (0, -1) vertical, (1, 1) forward slash
   and (1, -1) back slash. So two tile edges have equal raw directions exactly
   when they are parallel (their cross product is zero), and the tracer's
   direction test sees a turn exactly where the outline changes line.
   */
  lemma TileEdgeDirections(t: Tile, u: Tile, i: nat, j: nat)
    requires i < |TileEdges(t)| && j < |TileEdges(u)|
    ensures var d := Dir(TileEdges(t)[i]);
      d == Point(1.0, 0.0) || d == Point(0.0, -1.0) || d == Point(1.0, 1.0) || d == Point(1.0, -1.0)
    ensures var d, d' := Dir(TileEdges(t)[i]), Dir(TileEdges(u)[j]);
      d == d' <==> d.x * d'.y == d.y * d'.x
  {
  }
}
