/**
 Points and edges (PathCreation.cs:10-146). Coordinates are exact reals: the
 program only adds and subtracts halves and whole numbers and compares the
 results with `==`, which is exact in binary floating point on half-integer
 inputs of moderate size, so no rounding is modelled. Both types compare by value, which is what
 the overridden `Equals` and `==` do once the null and reference checks are
 set aside.
 */
module Geometry {

  /** A point of the plane, also used as a direction vector. */
  datatype Point = Point(x: real, y: real)

  /** Vector addition, `operator +` (PathCreation.cs:26-27). */
  function Add(a: Point, b: Point): Point
  {
    Point(a.x + b.x, a.y + b.y)
  }

  /** Vector subtraction, `operator -` (PathCreation.cs:29-30). */
  function Sub(a: Point, b: Point): Point
  {
    Point(a.x - b.x, a.y - b.y)
  }

  /**
   An ordered pair of points. Two edges are equal only when their endpoints
   agree role by role: the reversed edge is a different value.
   */
  datatype Edge = Edge(p1: Point, p2: Point)

  /** The edge with its endpoints swapped. */
  function Reverse(e: Edge): Edge
  {
    Edge(e.p2, e.p1)
  }

  /** The raw direction `p2 - p1` the tracer compares. */
  function Dir(e: Edge): Point
  {
    Sub(e.p2, e.p1)
  }

  /** True when `p` is one of the endpoints of `e`. */
  predicate Touches(e: Edge, p: Point)
  {
    e.p1 == p || e.p2 == p
  }

  /**
   The orientation every tile edge is given: left to right, or top to bottom
   when the edge is vertical.
   */
  predicate Canonical(e: Edge)
  {
    e.p1.x < e.p2.x || (e.p1.x == e.p2.x && e.p1.y > e.p2.y)
  }

  /**
   Of an edge and its reverse at most one is canonical, so two canonical edges
   over the same two endpoints are the same value: order-sensitive equality
   still recognises a shared segment.
   */
  lemma CanonicalUnique(e: Edge, f: Edge)
    requires Canonical(e) && Canonical(f)
    requires {e.p1, e.p2} == {f.p1, f.p2}
    ensures e == f
  {
    assert f.p1 in {e.p1, e.p2} && f.p2 in {e.p1, e.p2};
    assert e.p1 in {f.p1, f.p2};
  }
}
