/**
 Tracing one group's surviving edges into a closed outline
 (PathCreation.cs:292-333). Starting from the group's first edge, the tracer
 repeatedly removes the current edge and moves on to the first remaining edge
 that touches the current point, recording the point whenever the raw
 direction `p2 - p1` changes. At the end the starting point is dropped when
 the last direction equals the first one.
 */
module Tracing {
  import opened Outcomes
  import opened Geometry
  import opened Seqs

  /** Why a group yields no outline. */
  datatype TraceError =
    | EmptyGroup                               // `tileGroup[0]` on an empty group
    | Stuck(remaining: seq<Edge>, at: Point)   // no remaining edge touches `at`: the loop never ends

  /** The variables of the tracing loop: the live group and the walk so far. */
  datatype TraceState = TraceState(
    group: seq<Edge>,
    nextEdge: Edge,
    nextPoint: Point,
    path: seq<Point>,
    currentDirection: Point)

  /**
   The position of the first edge of `s` with an endpoint at `p`. The program
   compares `p1` before `p2` inside each edge, which decides only which endpoint
   is the far one, not which edge is found.
   */
  function FindIncident(s: seq<Edge>, p: Point): (r: Option<nat>)
    ensures r.Some? ==> r.value < |s| && Touches(s[r.value], p)
    ensures r.Some? ==> forall j :: 0 <= j < r.value ==> !Touches(s[j], p)
    ensures r.None? <==> forall j :: 0 <= j < |s| ==> !Touches(s[j], p)
  {
    if s == [] then None
    else if Touches(s[0], p) then Some(0)
    else match FindIncident(s[1..], p)
      case None => None
      case Some(k) => Some(k + 1)
  }

  /** The other endpoint of `e`, seen from `p`; `p1` is compared first. */
  function FarEnd(e: Edge, p: Point): Point
  {
    if e.p1 == p then e.p2 else e.p1
  }

  /** The state before the loop: the first edge is current, its `p1` is recorded. */
  function Start(g: seq<Edge>): TraceState
    requires g != []
  {
    TraceState(g, g[0], g[0].p2, [g[0].p1], Dir(g[0]))
  }

  /** One pass of the `while` body. */
  function Step(s: TraceState): TraceState
  {
    var cd := Dir(s.nextEdge);
    var g := RemoveFirst(s.group, s.nextEdge);
    match FindIncident(g, s.nextPoint)
    case None => s.(group := g, currentDirection := cd)
    case Some(k) =>
      var e := g[k];
      var path := if Dir(e) != cd then s.path + [s.nextPoint] else s.path;
      TraceState(g, e, FarEnd(e, s.nextPoint), path, cd)
  }

  /** The state after at most `n` applications of `pass`, stopping once the group is empty. */
  function Iterate(pass: TraceState -> TraceState, s: TraceState, n: nat): TraceState
    decreases n
  {
    if n == 0 || s.group == [] then s else Iterate(pass, pass(s), n - 1)
  }

  /** The state after at most `n` passes of the loop. */
  function Loop(s: TraceState, n: nat): TraceState
  {
    Iterate(Step, s, n)
  }

  /**
   The loop run to completion. Every pass removes the current edge, so the
   group shrinks by one each time until it is empty (`Ok`), unless no
   remaining edge touches the current point: the program then spins forever,
   which is reported as `Stuck`.
   */
  function Run(s: TraceState): (r: Result<TraceState, TraceError>)
    requires s.nextEdge in s.group
    ensures r.Ok? ==> r.value.group == [] && s.path <= r.value.path
    ensures r.Ok? ==> |r.value.path| < |s.path| + |s.group|
    ensures r.Err? ==> r.error.Stuck? && r.error.remaining != []
    ensures r.Err? ==> forall j :: 0 <= j < |r.error.remaining| ==> !Touches(r.error.remaining[j], r.error.at)
    decreases |s.group|
  {
    var g := RemoveFirst(s.group, s.nextEdge);
    if g == [] then Ok(Step(s))
    else if FindIncident(g, s.nextPoint).None? then Err(Stuck(g, s.nextPoint))
    else Run(Step(s))
  }

  /**
   The outline of one group: the recorded points, without the starting point
   when the walk ends in the direction it began with.
   */
  function Trace(g: seq<Edge>): (r: Result<seq<Point>, TraceError>)
    ensures r == Err(EmptyGroup) <==> g == []
    ensures r.Ok? ==> |r.value| <= |g|
  {
    if g == [] then Err(EmptyGroup)
    else match Run(Start(g))
      case Err(e) => Err(e)
      case Ok(f) => Ok(if f.currentDirection == Dir(g[0]) then f.path[1..] else f.path)
  }

  /**
   The loop starts on the group's first edge, which is in the group and
   touches the current point: what `Run` and the walk need.
   */
  lemma StartReady(g: seq<Edge>)
    requires g != []
    ensures Start(g).nextEdge in Start(g).group && Touches(Start(g).nextEdge, Start(g).nextPoint)
  {
  }

  /**
   Seen from one of its endpoints, `FarEnd` gives the other: the two points
   together are the edge's endpoints, so the new current point is on the edge.
   */
  lemma FarEndOther(e: Edge, p: Point)
    requires Touches(e, p)
    ensures Touches(e, FarEnd(e, p))
    ensures {p, FarEnd(e, p)} == {e.p1, e.p2}
  {
  }

  /**
   From a state whose current edge is in the group and touches the current
   point, a pass takes exactly that one edge out of the group, and the walk
   stays connected: the new current edge touches the new current point and,
   when one was found, joins the old current point to the new one.
   */
  lemma StepKeepsWalk(s: TraceState)
    requires s.nextEdge in s.group && Touches(s.nextEdge, s.nextPoint)
    ensures multiset(Step(s).group) == multiset(s.group) - multiset{s.nextEdge}
    ensures Touches(Step(s).nextEdge, Step(s).nextPoint)
    ensures FindIncident(Step(s).group, s.nextPoint).Some? ==>
      Step(s).nextEdge in Step(s).group && {s.nextPoint, Step(s).nextPoint} == {Step(s).nextEdge.p1, Step(s).nextEdge.p2}
  {
    var g := RemoveFirst(s.group, s.nextEdge);
    RemoveFirstMultiset(s.group, s.nextEdge);
    match FindIncident(g, s.nextPoint)
    case None =>
    case Some(k) =>
      FarEndOther(g[k], s.nextPoint);
  }

  /**
   A pass removes the current edge and takes the first remaining edge that
   touches the current point, continuing from its other endpoint; with no
   such edge nothing but the group changes.
   */
  lemma StepTakesFirstIncident(s: TraceState)
    ensures Step(s).group == RemoveFirst(s.group, s.nextEdge)
    ensures Step(s).currentDirection == Dir(s.nextEdge)
    ensures var g := RemoveFirst(s.group, s.nextEdge);
      (exists j :: 0 <= j < |g| && Touches(g[j], s.nextPoint)) ==>
        exists k :: 0 <= k < |g| && Step(s).nextEdge == g[k] && Touches(g[k], s.nextPoint)
          && (forall j :: 0 <= j < k ==> !Touches(g[j], s.nextPoint))
          && Step(s).nextPoint == FarEnd(g[k], s.nextPoint)
    ensures var g := RemoveFirst(s.group, s.nextEdge);
      (forall j :: 0 <= j < |g| ==> !Touches(g[j], s.nextPoint)) ==>
        Step(s).nextEdge == s.nextEdge && Step(s).nextPoint == s.nextPoint && Step(s).path == s.path
  {
  }

  /**
   A pass records at most one point, the current point, and records it
   exactly when the new current edge's raw direction differs from the old
   one's.
   */
  lemma StepRecordsTurns(s: TraceState)
    ensures Step(s).path == s.path || Step(s).path == s.path + [s.nextPoint]
    ensures Step(s).path != s.path <==> Dir(Step(s).nextEdge) != Dir(s.nextEdge)
  {
  }

  /** What one pass does to the size of the group, and how `Run` continues from it. */
  lemma RunUnfold(s: TraceState)
    requires s.nextEdge in s.group
    ensures var rest := RemoveFirst(s.group, s.nextEdge);
      |rest| == |s.group| - 1 && Step(s).group == rest
      && (rest == [] ==> Run(s) == Ok(Step(s)))
      && (rest != [] && FindIncident(rest, s.nextPoint).None? ==> Run(s) == Err(Stuck(rest, s.nextPoint)))
      && (FindIncident(rest, s.nextPoint).None? ==> Step(s) == s.(group := rest, currentDirection := Dir(s.nextEdge)))
      && (FindIncident(rest, s.nextPoint).Some? ==>
            Step(s).nextEdge in Step(s).group && Touches(Step(s).nextEdge, Step(s).nextPoint) && Run(s) == Run(Step(s)))
  {
  }

  /**
   When `Run` succeeds, the loop exits after exactly as many passes as the
   group has edges: the group is still non-empty before that, and the state
   then reached is `Run`'s.
   */
  lemma {:induction false} RunIsLoop(s: TraceState)
    requires s.nextEdge in s.group
    ensures Run(s).Ok? ==> Loop(s, |s.group|) == Run(s).value
    ensures Run(s).Ok? ==> forall k: nat :: k < |s.group| ==> Loop(s, k).group != []
    decreases |s.group|
  {
    var g := RemoveFirst(s.group, s.nextEdge);
    var t := Step(s);
    RunUnfold(s);
    assert Loop(s, |s.group|) == Loop(t, |s.group| - 1);
    if Run(s).Ok? && g != [] {
      RunIsLoop(t);
      forall k: nat | 0 < k < |s.group| ensures Loop(s, k).group != [] {
        assert Loop(s, k) == Loop(t, k - 1);
      }
    }
  }

  /**
   Once no remaining edge touches the current point and the current
   direction is the current edge's, a pass changes nothing: the program's
   loop spins in place.
   */
  lemma StepFixpoint(t: TraceState)
    requires Touches(t.nextEdge, t.nextPoint)
    requires forall j :: 0 <= j < |t.group| ==> !Touches(t.group[j], t.nextPoint)
    requires t.currentDirection == Dir(t.nextEdge)
    ensures Step(t) == t
  {
    assert t.nextEdge !in t.group;
  }

  /** A state that a pass leaves unchanged is never left. */
  lemma {:induction false} IterateFixpoint(pass: TraceState -> TraceState, t: TraceState, n: nat)
    requires pass(t) == t
    ensures Iterate(pass, t, n) == t
    decreases n
  {
    if n > 0 && t.group != [] {
      IterateFixpoint(pass, t, n - 1);
    }
  }

  /**
   A state from which `pass` can never empty the group: each pass either
   lands on a non-empty state it then never leaves, or on another trapped
   state with a smaller group.
   */
  lemma {:induction false} IterateTrapped(pass: TraceState -> TraceState, trapped: TraceState -> bool, s: TraceState, n: nat)
    requires forall x :: trapped(x) ==>
      (x.group != [] &&
       ((pass(pass(x)) == pass(x) && pass(x).group != []) || (trapped(pass(x)) && |pass(x).group| < |x.group|)))
    requires trapped(s)
    ensures Iterate(pass, s, n).group != []
    decreases |s.group|
  {
    if n > 0 {
      assert Iterate(pass, s, n) == Iterate(pass, pass(s), n - 1);
      if trapped(pass(s)) && |pass(s).group| < |s.group| {
        IterateTrapped(pass, trapped, pass(s), n - 1);
      } else {
        IterateFixpoint(pass, pass(s), n - 1);
      }
    }
  }

  /** The loop's state when `Run` reports `Stuck` and the current edge touches the current point. */
  ghost predicate StuckState(s: TraceState)
  {
    s.nextEdge in s.group && Touches(s.nextEdge, s.nextPoint) && Run(s).Err?
  }

  /**
   From a stuck state a pass either reaches a state it never leaves, with
   edges still in the group, or another stuck state with one edge fewer.
   */
  lemma StuckStep(s: TraceState)
    requires StuckState(s)
    ensures s.group != []
    ensures (Step(Step(s)) == Step(s) && Step(s).group != []) || (StuckState(Step(s)) && |Step(s).group| < |s.group|)
  {
    var t := Step(s);
    RunUnfold(s);
    if FindIncident(RemoveFirst(s.group, s.nextEdge), s.nextPoint).None? {
      assert t.nextEdge == s.nextEdge && t.nextPoint == s.nextPoint;
      StepFixpoint(t);
    }
  }

  /**
   When `Run` reports `Stuck`, the loop as written never exits: however many
   passes are made, the group is never empty. This holds for every state the
   loop can reach, where the current edge touches the current point.
   */
  lemma StuckNeverExits(s: TraceState, n: nat)
    requires s.nextEdge in s.group && Touches(s.nextEdge, s.nextPoint)
    requires Run(s).Err?
    ensures Loop(s, n).group != []
  {
    forall x | StuckState(x)
      ensures x.group != []
      ensures (Step(Step(x)) == Step(x) && Step(x).group != []) || (StuckState(Step(x)) && |Step(x).group| < |x.group|)
    {
      StuckStep(x);
    }
    IterateTrapped(Step, StuckState, s, n);
  }

  /** `p` is an endpoint of some edge of `g`. */
  predicate OnEdges(g: seq<Edge>, p: Point)
  {
    exists e :: e in g && Touches(e, p)
  }

  /** Every recorded point is an endpoint of an edge of the original group `g`. */
  lemma {:induction false} RunEndpoints(s: TraceState, g: seq<Edge>)
    requires s.nextEdge in s.group && Touches(s.nextEdge, s.nextPoint)
    requires forall e :: e in s.group ==> e in g
    requires forall q :: q in s.path ==> OnEdges(g, q)
    ensures Run(s).Ok? ==> forall q :: q in Run(s).value.path ==> OnEdges(g, q)
    decreases |s.group|
  {
    var rest := RemoveFirst(s.group, s.nextEdge);
    var t := Step(s);
    RunUnfold(s);
    StepRecordsTurns(s);
    assert s.nextEdge in g && Touches(s.nextEdge, s.nextPoint);
    assert OnEdges(g, s.nextPoint);
    assert forall q :: q in t.path ==> OnEdges(g, q);
    if rest != [] && FindIncident(rest, s.nextPoint).Some? {
      assert forall e :: e in t.group ==> e in s.group;
      RunEndpoints(t, g);
    }
  }

  /**
   An outline's points are endpoints of the group's edges, and there are no
   more of them than edges.
   */
  lemma TraceEndpoints(g: seq<Edge>)
    ensures Trace(g).Ok? ==> |Trace(g).value| <= |g|
    ensures Trace(g).Ok? ==> forall q :: q in Trace(g).value ==> OnEdges(g, q)
  {
    if g != [] {
      var s := Start(g);
      StartReady(g);
      assert g[0] in g && Touches(g[0], g[0].p1);
      RunEndpoints(s, g);
    }
  }

  // ---------------------------------------------------------------------------
  // Groups that form one closed loop

  /** The position after `i` on a cycle of length `m`. */
  function Next(i: nat, m: nat): nat
    requires i < m
  {
    if i + 1 == m then 0 else i + 1
  }

  /** True when `e` runs between `a` and `b`, in either order. */
  predicate Joins(e: Edge, a: Point, b: Point)
  {
    (e.p1 == a && e.p2 == b) || (e.p1 == b && e.p2 == a)
  }

  /**
   `es` walks once round the cycle of distinct points `q`: edge `i` joins
   point `i` to the next one, and the last edge closes the loop.
   */
  predicate CycleEdges(es: seq<Edge>, q: seq<Point>)
  {
    && |es| == |q|
    && NoRepeats(q)
    && forall i :: 0 <= i < |q| ==> Joins(es[i], q[i], q[Next(i, |q|)])
  }

  /**
   Group `g` is one simple closed loop: its edges, in any order and either
   orientation, are those of a walk `es` round the distinct points `q`, and
   its first edge leaves `q[0]` (any loop can be listed that way round).
   */
  predicate ClosedLoop(g: seq<Edge>, es: seq<Edge>, q: seq<Point>)
  {
    && g != []
    && CycleEdges(es, q)
    && multiset(g) == multiset(es)
    && g[0] == es[0] && g[0].p1 == q[0]
  }

  /** On a cycle of distinct points, of the edges from `k + 1` on only edge `k + 1` touches point `k + 1`. */
  lemma OnlyNextTouches(es: seq<Edge>, q: seq<Point>, k: nat, j: nat)
    requires CycleEdges(es, q)
    requires k + 1 <= j < |q|
    requires Touches(es[j], q[k + 1])
    ensures j == k + 1
  {
    assert Joins(es[j], q[j], q[Next(j, |q|)]);
  }

  /** Taking the current edge, edge `k` of the walk, out of the group leaves the edges after it. */
  lemma CycleRest(s: TraceState, es: seq<Edge>, k: nat)
    requires k < |es|
    requires s.nextEdge == es[k]
    requires multiset(s.group) == multiset(es[k..])
    ensures s.nextEdge in s.group
    ensures multiset(RemoveFirst(s.group, s.nextEdge)) == multiset(es[k + 1..])
  {
    assert es[k..] == [es[k]] + es[k + 1..];
    assert s.nextEdge in multiset(s.group);
    RemoveFirstMultiset(s.group, s.nextEdge);
  }

  /** Among the edges after edge `k`, the first one touching point `k + 1` is edge `k + 1`. */
  lemma CycleFound(rest: seq<Edge>, es: seq<Edge>, q: seq<Point>, k: nat)
    requires CycleEdges(es, q)
    requires k + 1 < |q|
    requires multiset(rest) == multiset(es[k + 1..])
    ensures FindIncident(rest, q[k + 1]).Some?
    ensures rest[FindIncident(rest, q[k + 1]).value] == es[k + 1]
  {
    var p := q[k + 1];
    assert Joins(es[k + 1], p, q[Next(k + 1, |q|)]);
    assert es[k + 1..][0] == es[k + 1];
    assert es[k + 1] in multiset(rest);
    var i0 :| 0 <= i0 < |rest| && rest[i0] == es[k + 1];
    assert Touches(rest[i0], p);
    var e := rest[FindIncident(rest, p).value];
    assert e in multiset(es[k + 1..]);
    var d :| 0 <= d < |es[k + 1..]| && es[k + 1..][d] == e;
    assert es[k + 1 + d] == e;
    OnlyNextTouches(es, q, k, k + 1 + d);
  }

  /**
   Before the last edge of the loop, the first remaining edge at the current
   point is the next edge of the walk, and the pass moves on to the point after.
   */
  lemma CycleStep(s: TraceState, es: seq<Edge>, q: seq<Point>, k: nat)
    requires CycleEdges(es, q)
    requires k + 1 < |q|
    requires s.nextEdge == es[k] && s.nextPoint == q[k + 1]
    requires multiset(RemoveFirst(s.group, s.nextEdge)) == multiset(es[k + 1..])
    ensures FindIncident(RemoveFirst(s.group, s.nextEdge), s.nextPoint).Some?
    ensures Step(s).nextEdge == es[k + 1] && Step(s).nextPoint == q[Next(k + 1, |q|)]
    ensures Step(s).group == RemoveFirst(s.group, s.nextEdge)
  {
    var rest := RemoveFirst(s.group, s.nextEdge);
    CycleFound(rest, es, q, k);
    assert Joins(es[k + 1], q[k + 1], q[Next(k + 1, |q|)]);
    assert q[k + 1] != q[Next(k + 1, |q|)];
  }

  /**
   Midway round a closed loop: the current edge is edge `k` of the walk, the
   current point is the next point of the cycle, and the group holds exactly
   the edges not yet walked. From here `Run` empties the group.
   */
  lemma {:induction false} CycleRunOk(s: TraceState, es: seq<Edge>, q: seq<Point>, k: nat)
    requires CycleEdges(es, q)
    requires k < |q|
    requires s.nextEdge == es[k] && s.nextPoint == q[Next(k, |q|)]
    requires multiset(s.group) == multiset(es[k..])
    ensures s.nextEdge in s.group
    ensures Run(s).Ok?
    decreases |q| - k
  {
    CycleRest(s, es, k);
    var rest := RemoveFirst(s.group, s.nextEdge);
    RunUnfold(s);
    if k + 1 == |q| {
      assert es[k + 1..] == [];
      assert |rest| == |multiset(rest)| == 0;
    } else {
      CycleStep(s, es, q, k);
      CycleRunOk(Step(s), es, q, k + 1);
    }
  }

  /**
   A group forming one simple closed loop is traced to the end: `Run`
   succeeds, so the literal loop exits after exactly as many passes as the
   group has edges and not before, and the group has an outline.
   */
  lemma ClosedLoopRuns(g: seq<Edge>, es: seq<Edge>, q: seq<Point>)
    requires ClosedLoop(g, es, q)
    ensures Run(Start(g)).Ok?
    ensures Loop(Start(g), |g|).group == []
    ensures forall k: nat :: k < |g| ==> Loop(Start(g), k).group != []
    ensures Trace(g).Ok?
  {
    var s := Start(g);
    assert Joins(es[0], q[0], q[Next(0, |q|)]);
    assert es[0..] == es;
    CycleRunOk(s, es, q, 0);
    RunIsLoop(s);
  }
}
