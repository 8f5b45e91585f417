/**
 Worked examples: concrete tile lists, their results worked out by proof. Corner points are
 named by column and row: column A, B, C is x = -0.5, 0.5, 1.5 and row 0, 1, 2
 is y = -0.5, 0.5, 1.5. The edge lists are written out literally and tied to
 the tile constructor by `Edges00` to `Edges11`.
 */
module WorkedExamples {
  import opened Outcomes
  import opened Geometry
  import opened Seqs
  import opened Tiles
  import opened Grouping
  import opened Cancellation
  import opened Tracing
  import opened Pipeline
  import opened Multiplicity

  const A0 := Point(-0.5, -0.5)
  const A1 := Point(-0.5, 0.5)
  const A2 := Point(-0.5, 1.5)
  const B0 := Point(0.5, -0.5)
  const B1 := Point(0.5, 0.5)
  const B2 := Point(0.5, 1.5)
  const C0 := Point(1.5, -0.5)
  const C1 := Point(1.5, 0.5)
  const C2 := Point(1.5, 1.5)

  const East := Point(1.0, 0.0)
  const South := Point(0.0, -1.0)

  // Squares at (0,0), (0,1), (1,0), (1,1) and their edge lists (top, right, bottom, left).
  const T00 := Tile(Point(0.0, 0.0), 0)
  const T01 := Tile(Point(0.0, 1.0), 0)
  const T10 := Tile(Point(1.0, 0.0), 0)
  const T11 := Tile(Point(1.0, 1.0), 0)
  const E00 := [Edge(A1, B1), Edge(B1, B0), Edge(A0, B0), Edge(A1, A0)]
  const E01 := [Edge(A2, B2), Edge(B2, B1), Edge(A1, B1), Edge(A2, A1)]
  const E10 := [Edge(B1, C1), Edge(C1, C0), Edge(B0, C0), Edge(B1, B0)]
  const E11 := [Edge(B2, C2), Edge(C2, C1), Edge(B1, C1), Edge(B2, B1)]

  lemma Edges00()
    ensures TileEdges(T00) == E00
  {
  }

  lemma Edges01()
    ensures TileEdges(T01) == E01
  {
  }

  lemma Edges10()
    ensures TileEdges(T10) == E10
  {
  }

  lemma Edges11()
    ensures TileEdges(T11) == E11
  {
  }

  /** `Singles` over a four-edge list, one edge at a time. */
  lemma SinglesFour(s: seq<Edge>, whole: seq<Edge>)
    requires |s| == 4
    ensures Singles(s, whole) ==
      (if Count(whole, s[0]) == 1 then [s[0]] else []) + (if Count(whole, s[1]) == 1 then [s[1]] else []) +
      (if Count(whole, s[2]) == 1 then [s[2]] else []) + (if Count(whole, s[3]) == 1 then [s[3]] else [])
  {
    assert s[1..][1..] == s[2..] && s[2..][1..] == s[3..] && s[3..][1..] == [];
    SinglesHead(s, whole);
    SinglesHead(s[1..], whole);
    SinglesHead(s[2..], whole);
    SinglesHead(s[3..], whole);
    Concat4(if Count(whole, s[0]) == 1 then [s[0]] else [], if Count(whole, s[1]) == 1 then [s[1]] else [],
            if Count(whole, s[2]) == 1 then [s[2]] else [], if Count(whole, s[3]) == 1 then [s[3]] else []);
  }

  /**
   Regroups the right-nested concatenation that unfolding `Singles` four
   times produces into the left-nested form `SinglesFour` states. It is kept
   apart from that lemma so the associativity step is proved on plain
   sequences, not on the `Singles` terms.
   */
  lemma Concat4<T>(a: seq<T>, b: seq<T>, c: seq<T>, d: seq<T>)
    ensures a + (b + (c + (d + []))) == a + b + c + d
  {
    assert d + [] == d;
    assert a + (b + (c + d)) == (a + b) + (c + d);
  }

  lemma SinglesHead(s: seq<Edge>, whole: seq<Edge>)
    requires s != []
    ensures Singles(s, whole) == (if Count(whole, s[0]) == 1 then [s[0]] else []) + Singles(s[1..], whole)
  {
  }

  lemma {:induction false} SinglesAppend(a: seq<Edge>, b: seq<Edge>, whole: seq<Edge>)
    ensures Singles(a + b, whole) == Singles(a, whole) + Singles(b, whole)
    decreases |a|
  {
    if a != [] {
      assert (a + b)[0] == a[0] && (a + b)[1..] == a[1..] + b;
      SinglesAppend(a[1..], b, whole);
      var head := if Count(whole, a[0]) == 1 then [a[0]] else [];
      assert head + (Singles(a[1..], whole) + Singles(b, whole)) == (head + Singles(a[1..], whole)) + Singles(b, whole);
    } else {
      assert a + b == b;
    }
  }

  lemma MatchesFour(g: Group, es: seq<Edge>)
    requires |es| == 4
    ensures Matches(g, es) ==
      (if es[0] in g then 1 else 0) + (if es[1] in g then 1 else 0) +
      (if es[2] in g then 1 else 0) + (if es[3] in g then 1 else 0)
  {
    assert es[1..][1..] == es[2..] && es[2..][1..] == es[3..] && es[3..][1..] == [];
    assert Matches(g, es[3..]) == (if es[3] in g then 1 else 0);
    assert Matches(g, es[2..]) == (if es[2] in g then 1 else 0) + Matches(g, es[3..]);
    assert Matches(g, es[1..]) == (if es[1] in g then 1 else 0) + Matches(g, es[2..]);
  }

  /** Occurrences in a four-edge list, one position at a time. */
  lemma CountOfFour(a: seq<Edge>, x: Edge)
    requires |a| == 4
    ensures Count(a, x) == (if a[0] == x then 1 else 0) + (if a[1] == x then 1 else 0) + (if a[2] == x then 1 else 0) + (if a[3] == x then 1 else 0)
  {
    assert a[1..][1..] == a[2..] && a[2..][1..] == a[3..] && a[3..][1..] == [];
    assert Count(a[3..], x) == (if a[3] == x then 1 else 0);
    assert Count(a[2..], x) == (if a[2] == x then 1 else 0) + Count(a[3..], x);
    assert Count(a[1..], x) == (if a[1] == x then 1 else 0) + Count(a[2..], x);
  }

  /** Occurrences in two four-edge lists placed one after the other. */
  lemma CountFour(a: seq<Edge>, b: seq<Edge>, x: Edge)
    requires |a| == 4 && |b| == 4
    ensures Count(a + b, x) ==
      (if a[0] == x then 1 else 0) + (if a[1] == x then 1 else 0) + (if a[2] == x then 1 else 0) + (if a[3] == x then 1 else 0) +
      (if b[0] == x then 1 else 0) + (if b[1] == x then 1 else 0) + (if b[2] == x then 1 else 0) + (if b[3] == x then 1 else 0)
  {
    CountAppend(a, b, x);
    CountOfFour(a, x);
    CountOfFour(b, x);
  }

  lemma {:induction false} GatherSingle(g: Group, conn: seq<nat>)
    requires forall k :: 0 <= k < |conn| ==> conn[k] == 0
    ensures ValidRefs([g], conn) && Gather([g], conn) == Copies(g, |conn|)
    decreases |conn|
  {
    if conn != [] {
      GatherSingle(g, conn[1..]);
    }
  }

  lemma {:induction false} RemoveEachEmpty(conn: seq<nat>)
    ensures RemoveEach([], conn) == []
    decreases |conn|
  {
    if conn != [] {
      RemoveEachEmpty(conn[1..]);
    }
  }

  /**
   With a single group that the tile touches, the program's merged group is
   the tile's edges followed by one copy of the group per matching edge; the
   corrected merge takes the group once.
   */
  lemma SingleGroupMerge(g: Group, es: seq<Edge>)
    requires Shares(g, es)
    ensures ProcessTile([g], es) == [es + Copies(g, Matches(g, es))]
    ensures ProcessTileOnce([g], es) == [es + g]
  {
    var conn := Connected([g], es);
    var once := ConnectedOnce([g], es);
    assert 0 in conn && 0 in once;
    CountAll(conn, 0);
    CountAll(once, 0);
    GatherSingle(g, conn);
    GatherSingle(g, once);
    assert Range(1) == [0];
    RemoveEachEmpty(conn[1..]);
    RemoveEachEmpty(once[1..]);
    assert Copies(g, 1) == g;
  }

  /**
   When the tiles before position `k` form one group `g` and the next tile
   touches it, the program merges `Matches` copies of `g` behind the tile's
   edges, the corrected loop one copy.
   */
  lemma GroupSnoc(b: seq<Tile>, k: nat, g: Group)
    requires 0 < k <= |b|
    requires GroupTiles(b[..k - 1]) == [g] && Shares(g, TileEdges(b[k - 1]))
    ensures GroupTiles(b[..k]) == [TileEdges(b[k - 1]) + Copies(g, Matches(g, TileEdges(b[k - 1])))]
  {
    assert b[..k][..k - 1] == b[..k - 1];
    SingleGroupMerge(g, TileEdges(b[k - 1]));
  }

  lemma GroupOnceSnoc(b: seq<Tile>, k: nat, g: Group)
    requires 0 < k <= |b|
    requires GroupTilesOnce(b[..k - 1]) == [g] && Shares(g, TileEdges(b[k - 1]))
    ensures GroupTilesOnce(b[..k]) == [TileEdges(b[k - 1]) + g]
  {
    assert b[..k][..k - 1] == b[..k - 1];
    SingleGroupMerge(g, TileEdges(b[k - 1]));
  }

  /** When the tiles form a single group, the outlines are that group's trace after cancellation. */
  lemma SingleGroupOutline(b: seq<Tile>, g: Group, c: seq<Edge>, r: Result<seq<Point>, TraceError>)
    requires GroupTiles(b) == [g] && Cancel(g) == c && Trace(c) == r
    ensures Outlines(b) == [r]
  {
    assert TraceGroups([g]) == [Trace(Cancel(g))];
  }

  lemma SingleGroupOutlineOnce(b: seq<Tile>, g: Group, c: seq<Edge>, r: Result<seq<Point>, TraceError>)
    requires GroupTilesOnce(b) == [g] && Cancel(g) == c && Trace(c) == r
    ensures OutlinesOnce(b) == [r]
  {
    assert TraceGroups([g]) == [Trace(Cancel(g))];
  }

  /** The search finds the first touching edge. */
  lemma FindIncidentAt(s: seq<Edge>, p: Point, k: nat)
    requires k < |s| && Touches(s[k], p)
    requires forall j :: 0 <= j < k ==> !Touches(s[j], p)
    ensures FindIncident(s, p) == Some(k)
  {
  }

  /** The search fails on a four-edge list none of whose edges touches `p`. */
  lemma NoIncident(s: seq<Edge>, p: Point)
    requires |s| == 4 && !Touches(s[0], p) && !Touches(s[1], p) && !Touches(s[2], p) && !Touches(s[3], p)
    ensures FindIncident(s, p) == None
  {
  }

  /** Removing the first occurrence of the value at position `k`, found nowhere before it. */
  lemma {:induction false} RemoveFirstAt(s: seq<Edge>, k: nat)
    requires k < |s| && s[k] !in s[..k]
    ensures RemoveFirst(s, s[k]) == s[..k] + s[k + 1..]
    decreases k
  {
    if k > 0 {
      assert s[1..][k - 1] == s[k] && s[1..][..k - 1] == s[1..k];
      RemoveFirstAt(s[1..], k - 1);
      assert s[..k] == [s[0]] + s[1..k];
      assert s[1..][k..] == s[k + 1..];
    }
  }

  // ---------------------------------------------------------------------------
  // One square

  const Sq0 := TraceState(E00, Edge(A1, B1), B1, [A1], East)
  const Sq1 := TraceState([Edge(B1, B0), Edge(A0, B0), Edge(A1, A0)], Edge(B1, B0), B0, [A1, B1], East)
  const Sq2 := TraceState([Edge(A0, B0), Edge(A1, A0)], Edge(A0, B0), A0, [A1, B1, B0], South)
  const Sq3 := TraceState([Edge(A1, A0)], Edge(A1, A0), A1, [A1, B1, B0, A0], East)
  const Sq4 := TraceState([], Edge(A1, A0), A1, [A1, B1, B0, A0], South)

  lemma SquareStep0()
    ensures Step(Sq0) == Sq1
  {
    assert [A1] + [B1] == [A1, B1];
  }

  lemma SquareStep1()
    ensures Step(Sq1) == Sq2
  {
    assert [A1, B1] + [B0] == [A1, B1, B0];
  }

  lemma SquareStep2()
    ensures Step(Sq2) == Sq3
  {
    assert [A1, B1, B0] + [A0] == [A1, B1, B0, A0];
  }

  lemma SquareStep3()
    ensures Step(Sq3) == Sq4
  {
  }

  /** The square's edge list is walked clockwise from its top-left corner; all four corners are kept. */
  lemma SquareTrace()
    ensures Trace(E00) == Ok([A1, B1, B0, A0])
  {
    assert Start(E00) == Sq0;
    SquareStep0();
    SquareStep1();
    SquareStep2();
    SquareStep3();
    RunUnfold(Sq0);
    RunUnfold(Sq1);
    RunUnfold(Sq2);
    RunUnfold(Sq3);
  }

  /** A lone tile forms one group: its own edge list. */
  lemma OneTileGrouped(b: seq<Tile>, es: seq<Edge>)
    requires |b| == 1 && TileEdges(b[0]) == es
    ensures GroupTiles(b) == [es] && GroupTilesOnce(b) == [es]
  {
    assert b[..0] == [];
  }

  /**
   A group of a single edge is walked and the loop exits normally: the
   outline is empty, not an error.
   */
  lemma OneEdge(e: Edge)
    ensures Trace([e]) == Ok([])
  {
    RunUnfold(Start([e]));
  }

  /** A square's edge list is one closed loop round its corners, so tracing it always ends. */
  lemma SquareIsLoop()
    ensures ClosedLoop(E00, E00, [A1, B1, B0, A0])
    ensures Trace(E00).Ok?
  {
    ClosedLoopRuns(E00, E00, [A1, B1, B0, A0]);
  }

  /** A single square gives one outline: its four corners, clockwise from the top-left one. */
  lemma OneSquare(b: seq<Tile>)
    requires |b| == 1 && b[0] == T00
    ensures Outlines(b) == [Ok([A1, B1, B0, A0])]
  {
    Edges00();
    OneTileGrouped(b, E00);
    SquareCancel();
    SquareTrace();
    SingleGroupOutline(b, E00, E00, Ok([A1, B1, B0, A0]));
  }


  /** A lone square's edges are all different, so none cancels. */
  lemma SquareCancel()
    ensures Cancel(E00) == E00
  {
    Edges00();
    TileEdgesShape(T00);
    CancelDistinct(E00);
  }

  /** A tile of unknown type has no edges; its empty group has no outline. */
  lemma UnknownKind(b: seq<Tile>)
    requires |b| == 1 && b[0] == Tile(Point(0.0, 0.0), 7)
    ensures Outlines(b) == [Err(EmptyGroup)]
  {
    assert TileEdges(b[0]) == [];
    assert b[..0] == [];
    assert GroupTiles(b) == [[]];
  }

  /** The single square's outline is what the program writes to its result file. */
  lemma OneSquareWritten(b: seq<Tile>)
    requires |b| == 1 && b[0] == T00
    ensures Written(b) == Some([[A1, B1, B0, A0]])
  {
    OneSquare(b);
    var rs := Outlines(b);
    assert rs[1..] == [] && Collect(rs[1..]) == Some([]);
    assert [[A1, B1, B0, A0]] + [] == [[A1, B1, B0, A0]];
  }

  /** With an edgeless tile the run faults at `tileGroup[0]` and writes nothing at all. */
  lemma UnknownKindWritten(b: seq<Tile>)
    requires |b| == 1 && b[0] == Tile(Point(0.0, 0.0), 7)
    ensures Written(b) == None
  {
    UnknownKind(b);
  }

  /** The edge lists of two tiles placed corner to corner, in order. */
  predicate DiagonalEdges(b: seq<Tile>)
  {
    |b| == 2 && TileEdges(b[0]) == E00 && TileEdges(b[1]) == E11
  }

  /**
   Squares at (0,0) and (1,1) meet only at the corner B1 and share no edge,
   so each becomes a group of its own, in input order.
   */
  lemma DiagonalSquares(b: seq<Tile>)
    requires DiagonalEdges(b)
    ensures GroupTiles(b) == [E00, E11]
    ensures GroupTilesOnce(b) == [E00, E11]
  {
    var first := b[..1];
    OneTileGrouped(first, E00);
    assert b == first + [b[1]];
    forall e | e in E11 ensures !InSomeTile(first, e) {
      assert e !in E00;
    }
    ApartTileNewGroup(first, b[1]);
  }

  /** A group whose edges are all different loses nothing to the removal. */
  lemma CancelDistinct(g: seq<Edge>)
    requires NoRepeats(g)
    ensures Cancel(g) == g
  {
    forall x | x in g ensures Count(g, x) == 1 {
      CountNoRepeats(g, x);
    }
    SinglesAll(g, g);
  }

  // ---------------------------------------------------------------------------
  // Two squares side by side, (0,0) then (1,0)

  /** What survives of the merged group [E10 + E00]: all but the shared edge B1-B0. */
  const Pair := [Edge(B1, C1), Edge(C1, C0), Edge(B0, C0), Edge(A1, B1), Edge(A0, B0), Edge(A1, A0)]

  const Pw0 := TraceState(Pair, Edge(B1, C1), C1, [B1], East)
  const Pw1 := TraceState([Edge(C1, C0), Edge(B0, C0), Edge(A1, B1), Edge(A0, B0), Edge(A1, A0)], Edge(C1, C0), C0, [B1, C1], East)
  const Pw2 := TraceState([Edge(B0, C0), Edge(A1, B1), Edge(A0, B0), Edge(A1, A0)], Edge(B0, C0), B0, [B1, C1, C0], South)
  const Pw3 := TraceState([Edge(A1, B1), Edge(A0, B0), Edge(A1, A0)], Edge(A0, B0), A0, [B1, C1, C0], East)
  const Pw4 := TraceState([Edge(A1, B1), Edge(A1, A0)], Edge(A1, A0), A1, [B1, C1, C0, A0], East)
  const Pw5 := TraceState([Edge(A1, B1)], Edge(A1, B1), B1, [B1, C1, C0, A0, A1], South)
  const Pw6 := TraceState([], Edge(A1, B1), B1, [B1, C1, C0, A0, A1], East)

  /** The edge lists of the two tiles, in order. */
  predicate PairEdges(b: seq<Tile>)
  {
    |b| == 2 && TileEdges(b[0]) == E00 && TileEdges(b[1]) == E10
  }

  /** The second square shares one edge, B1-B0, with the first. */
  lemma PairMatches()
    ensures Matches(E00, E10) == 1
  {
    MatchesFour(E00, E10);
    assert E10[3] == E00[1];
  }

  lemma PairGrouped(b: seq<Tile>)
    requires PairEdges(b)
    ensures GroupTiles(b) == [E10 + E00]
  {
    assert b[..2] == b;
    calc {
      GroupTiles(b[..2]);
      { OneTileGrouped(b[..1], E00); PairMatches(); GroupSnoc(b, 2, E00); }
      [E10 + Copies(E00, 1)];
      { assert Copies(E00, 1) == E00 + [] == E00; }
      [E10 + E00];
    }
  }

  /** Of the right-hand square's edges only B1-B0 also belongs to the left-hand one. */
  lemma PairCancelRight()
    ensures Singles(E10, E10 + E00) == [Edge(B1, C1), Edge(C1, C0), Edge(B0, C0)]
  {
    SinglesFour(E10, E10 + E00);
    CountFour(E10, E00, E10[0]);
    CountFour(E10, E00, E10[1]);
    CountFour(E10, E00, E10[2]);
    CountFour(E10, E00, E10[3]);
    assert [Edge(B1, C1)] + [Edge(C1, C0)] + [Edge(B0, C0)] + [] == [Edge(B1, C1), Edge(C1, C0), Edge(B0, C0)];
  }

  lemma PairCancelLeft()
    ensures Singles(E00, E10 + E00) == [Edge(A1, B1), Edge(A0, B0), Edge(A1, A0)]
  {
    SinglesFour(E00, E10 + E00);
    CountFour(E10, E00, E00[0]);
    CountFour(E10, E00, E00[1]);
    CountFour(E10, E00, E00[2]);
    CountFour(E10, E00, E00[3]);
    assert [Edge(A1, B1)] + [] + [Edge(A0, B0)] + [Edge(A1, A0)] == [Edge(A1, B1), Edge(A0, B0), Edge(A1, A0)];
  }

  /** The shared edge B1-B0 occurs twice in the merged group and is removed. */
  lemma PairCancel()
    ensures Cancel(E10 + E00) == Pair
  {
    SinglesAppend(E10, E00, E10 + E00);
    PairCancelRight();
    PairCancelLeft();
  }

  lemma PairStep0()
    ensures Step(Pw0) == Pw1
  {
    assert [B1] + [C1] == [B1, C1];
  }

  lemma PairStep1()
    ensures Step(Pw1) == Pw2
  {
    assert [B1, C1] + [C0] == [B1, C1, C0];
  }

  lemma PairStep2()
    ensures Step(Pw2) == Pw3
  {
    assert FindIncident(Pw3.group, B0) == Some(1);
  }

  lemma PairStep3()
    ensures Step(Pw3) == Pw4
  {
    assert RemoveFirst(Pw3.group, Edge(A0, B0)) == [Edge(A1, B1)] + [Edge(A1, A0)] == Pw4.group;
    assert FindIncident(Pw4.group, A0) == Some(1);
    assert [B1, C1, C0] + [A0] == [B1, C1, C0, A0];
  }

  lemma PairStep4()
    ensures Step(Pw4) == Pw5
  {
    assert [B1, C1, C0, A0] + [A1] == [B1, C1, C0, A0, A1];
  }

  lemma PairStep5()
    ensures Step(Pw5) == Pw6
  {
  }

  /** The walk ends heading east as it began, so its starting point B1 is dropped. */
  lemma PairTrace()
    ensures Trace(Pair) == Ok([C1, C0, A0, A1])
  {
    assert Start(Pair) == Pw0;
    PairStep0();
    PairStep1();
    PairStep2();
    PairStep3();
    PairStep4();
    PairStep5();
    RunUnfold(Pw0);
    RunUnfold(Pw1);
    RunUnfold(Pw2);
    RunUnfold(Pw3);
    RunUnfold(Pw4);
    RunUnfold(Pw5);
  }

  /** Two squares side by side give one outline with their four outer corners. */
  lemma TwoSquares(b: seq<Tile>)
    requires |b| == 2 && b[0] == T00 && b[1] == T10
    ensures Outlines(b) == [Ok([C1, C0, A0, A1])]
  {
    Edges00();
    Edges10();
    PairGrouped(b);
    PairCancel();
    PairTrace();
    SingleGroupOutline(b, E10 + E00, Pair, Ok([C1, C0, A0, A1]));
  }


  // ---------------------------------------------------------------------------
  // A 2x2 block, listed (0,0), (0,1), (1,0), (1,1)

  predicate IsBlock(b: seq<Tile>)
  {
    |b| == 4 && b[0] == T00 && b[1] == T01 && b[2] == T10 && b[3] == T11
  }

  /** The single group after the second and after the third tile; each merge matches once. */
  const G1 := E01 + E00
  const G2 := E10 + G1

  /** The edge lists of the block's tiles, in order. */
  predicate BlockEdges(b: seq<Tile>)
  {
    |b| == 4 && TileEdges(b[0]) == E00 && TileEdges(b[1]) == E01 && TileEdges(b[2]) == E10 && TileEdges(b[3]) == E11
  }

  lemma BlockHasEdges(b: seq<Tile>)
    requires IsBlock(b)
    ensures BlockEdges(b)
  {
    Edges00();
    Edges01();
    Edges10();
    Edges11();
  }

  /** The square above shares one edge, A1-B1, with the first. */
  lemma SecondMatches()
    ensures Matches(E00, E01) == 1
  {
    MatchesFour(E00, E01);
    assert E01[2] == E00[0];
  }

  /** The square to the right shares one edge, B1-B0, with the group. */
  lemma ThirdMatches()
    ensures Matches(G1, E10) == 1
  {
    MatchesFour(G1, E10);
    assert E10[3] == G1[5];
  }

  /** The last square shares two edges with the group, B1-C1 and B2-B1. */
  lemma FourthMatches()
    ensures Matches(G2, E11) == 2
  {
    MatchesFour(G2, E11);
    assert E11[2] == G2[0] && E11[3] == G2[5];
  }

  lemma BlockSecond(b: seq<Tile>)
    requires BlockEdges(b)
    ensures GroupTiles(b[..2]) == [G1] && GroupTilesOnce(b[..2]) == [G1]
  {
    OneTileGrouped(b[..1], E00);
    SecondMatches();
    GroupSnoc(b, 2, E00);
    GroupOnceSnoc(b, 2, E00);
    assert Copies(E00, 1) == E00;
  }

  lemma BlockThird(b: seq<Tile>)
    requires BlockEdges(b)
    ensures GroupTiles(b[..3]) == [G2] && GroupTilesOnce(b[..3]) == [G2]
  {
    BlockSecond(b);
    ThirdMatches();
    GroupSnoc(b, 3, G1);
    GroupOnceSnoc(b, 3, G1);
    assert Copies(G1, 1) == G1;
  }

  /**
   The last square matches the group twice, so the program appends the group
   twice.
   */
  lemma BlockGrouped(b: seq<Tile>)
    requires BlockEdges(b)
    ensures GroupTiles(b) == [E11 + G2 + G2]
  {
    assert b[..4] == b;
    calc {
      GroupTiles(b[..4]);
      { BlockThird(b); FourthMatches(); GroupSnoc(b, 4, G2); }
      [E11 + Copies(G2, Matches(G2, E11))];
      { FourthMatches(); }
      [E11 + Copies(G2, 2)];
      { assert Copies(G2, 2) == G2 + Copies(G2, 1) && Copies(G2, 1) == G2 + [] == G2;
        assert E11 + (G2 + G2) == E11 + G2 + G2; }
      [E11 + G2 + G2];
    }
  }

  /** The corrected loop appends the group once. */
  lemma BlockGroupedOnce(b: seq<Tile>)
    requires BlockEdges(b)
    ensures GroupTilesOnce(b) == [E11 + G2]
  {
    assert b[..4] == b;
    calc {
      GroupTilesOnce(b[..4]);
      { BlockThird(b); FourthMatches(); GroupOnceSnoc(b, 4, G2); }
      [E11 + G2];
    }
  }

  /** Nothing of `s` survives when none of its edges occurs exactly once in `whole`. */
  lemma {:induction false} SinglesNone(s: seq<Edge>, whole: seq<Edge>)
    requires forall x :: x in s ==> Count(whole, x) != 1
    ensures Singles(s, whole) == []
    decreases |s|
  {
    if s != [] {
      assert forall x :: x in s[1..] ==> x in s;
      SinglesNone(s[1..], whole);
    }
  }

  /** In the group as written every edge of the first three squares occurs at least twice. */
  lemma BlockCancelCopies()
    ensures Singles(G2, E11 + G2 + G2) == []
  {
    forall x | x in G2 ensures Count(E11 + G2 + G2, x) != 1 {
      CountAppend(E11 + G2, G2, x);
      CountAppend(E11, G2, x);
    }
    SinglesNone(G2, E11 + G2 + G2);
  }

  lemma CountInBlock(x: Edge)
    ensures Count(E11 + G2 + G2, x) == Count(E11, x) + 2 * Count(G2, x)
  {
    CountAppend(E11 + G2, G2, x);
    CountAppend(E11, G2, x);
  }

  lemma NotInG2(x: Edge)
    requires x !in E10 && x !in E01 && x !in E00
    ensures Count(G2, x) == 0
  {
  }

  /** The last square's top and right edges occur once in the group as written. */
  lemma BlockHeadKept()
    ensures Count(E11 + G2 + G2, Edge(B2, C2)) == 1 && Count(E11 + G2 + G2, Edge(C2, C1)) == 1
  {
    CountInBlock(Edge(B2, C2));
    CountOfFour(E11, Edge(B2, C2));
    NotInG2(Edge(B2, C2));
    CountInBlock(Edge(C2, C1));
    CountOfFour(E11, Edge(C2, C1));
    NotInG2(Edge(C2, C1));
  }

  /** Its bottom and left edges, shared with the group, occur three times. */
  lemma BlockHeadDropped()
    ensures Count(E11 + G2 + G2, Edge(B1, C1)) != 1 && Count(E11 + G2 + G2, Edge(B2, B1)) != 1
  {
    CountInBlock(Edge(B1, C1));
    assert Edge(B1, C1) == G2[0];
    CountInBlock(Edge(B2, B1));
    assert Edge(B2, B1) == G2[5];
  }

  lemma BlockCancelHead()
    ensures Singles(E11, E11 + G2 + G2) == [Edge(B2, C2), Edge(C2, C1)]
  {
    SinglesFour(E11, E11 + G2 + G2);
    BlockHeadKept();
    BlockHeadDropped();
    assert [Edge(B2, C2)] + [Edge(C2, C1)] + [] + [] == [Edge(B2, C2), Edge(C2, C1)];
  }

  /** The program's group keeps only the last square's top and right edges. */
  lemma BlockCancel()
    ensures Cancel(E11 + G2 + G2) == [Edge(B2, C2), Edge(C2, C1)]
  {
    SinglesAppend(E11 + G2, G2, E11 + G2 + G2);
    SinglesAppend(E11, G2, E11 + G2 + G2);
    BlockCancelCopies();
    BlockCancelHead();
  }

  const Bw0 := TraceState([Edge(B2, C2), Edge(C2, C1)], Edge(B2, C2), C2, [B2], East)
  const Bw1 := TraceState([Edge(C2, C1)], Edge(C2, C1), C1, [B2, C2], East)
  const Bw2 := TraceState([], Edge(C2, C1), C1, [B2, C2], South)

  lemma BlockStep0()
    ensures Step(Bw0) == Bw1
  {
    assert [B2] + [C2] == [B2, C2];
  }

  lemma BlockStep1()
    ensures Step(Bw1) == Bw2
  {
  }

  /** The two surviving edges make an open path of two points. */
  lemma BlockTrace()
    ensures Trace([Edge(B2, C2), Edge(C2, C1)]) == Ok([B2, C2])
  {
    assert Start([Edge(B2, C2), Edge(C2, C1)]) == Bw0;
    BlockStep0();
    BlockStep1();
    RunUnfold(Bw0);
    RunUnfold(Bw1);
  }

  /**
   The 2x2 block as the program groups it: the merged group holds the first
   three squares twice, so all their edges cancel and the outline is the
   last square's top-right corner alone.
   */
  lemma BlockAsWritten(b: seq<Tile>)
    requires IsBlock(b)
    ensures Outlines(b) == [Ok([B2, C2])]
  {
    BlockHasEdges(b);
    BlockGrouped(b);
    BlockCancel();
    BlockTrace();
    SingleGroupOutline(b, E11 + G2 + G2, [Edge(B2, C2), Edge(C2, C1)], Ok([B2, C2]));
  }

  lemma TileCountSnoc(b: seq<Tile>, k: nat, e: Edge)
    requires 0 < k <= |b|
    ensures TileCount(b[..k], e) == TileCount(b[..k - 1], e) + (if e in TileEdges(b[k - 1]) then 1 else 0)
  {
    assert b[..k][..k - 1] == b[..k - 1];
  }

  /** In the block an edge is counted once per square whose edge list holds it. */
  lemma TileCountBlock(b: seq<Tile>, e: Edge)
    requires BlockEdges(b)
    ensures TileCount(b, e) ==
      (if e in E00 then 1 else 0) + (if e in E01 then 1 else 0) + (if e in E10 then 1 else 0) + (if e in E11 then 1 else 0)
  {
    assert b[..0] == [];
    TileCountSnoc(b, 1, e);
    TileCountSnoc(b, 2, e);
    TileCountSnoc(b, 3, e);
    TileCountSnoc(b, 4, e);
    assert b[..4] == b;
  }

  lemma BlockBoundaryCount(b: seq<Tile>)
    requires BlockEdges(b)
    ensures TileCount(b, Edge(A0, B0)) == 1
  {
    TileCountBlock(b, Edge(A0, B0));
  }

  lemma BlockBoundaryDropped(b: seq<Tile>)
    requires BlockEdges(b)
    ensures |GroupTiles(b)| == 1 && Edge(A0, B0) !in Cancel(GroupTiles(b)[0])
  {
    BlockGrouped(b);
    BlockCancel();
  }

  /**
   The block's bottom-left edge belongs to one tile only, yet no group keeps
   it after cancellation: the outline the program writes misses a boundary
   edge.
   */
  lemma BlockLosesBoundary(b: seq<Tile>)
    requires IsBlock(b)
    ensures TileCount(b, Edge(A0, B0)) == 1
    ensures |GroupTiles(b)| == 1 && Edge(A0, B0) !in Cancel(GroupTiles(b)[0])
  {
    BlockHasEdges(b);
    BlockBoundaryCount(b);
    BlockBoundaryDropped(b);
  }

  // The block with the corrected merge: the group holds each square once.

  /** Occurrences in the corrected group, square by square. */
  lemma CountOnceBlock(x: Edge)
    ensures Count(E11 + G2, x) ==
      (if E11[0] == x then 1 else 0) + (if E11[1] == x then 1 else 0) + (if E11[2] == x then 1 else 0) + (if E11[3] == x then 1 else 0) +
      (if E10[0] == x then 1 else 0) + (if E10[1] == x then 1 else 0) + (if E10[2] == x then 1 else 0) + (if E10[3] == x then 1 else 0) +
      (if E01[0] == x then 1 else 0) + (if E01[1] == x then 1 else 0) + (if E01[2] == x then 1 else 0) + (if E01[3] == x then 1 else 0) +
      (if E00[0] == x then 1 else 0) + (if E00[1] == x then 1 else 0) + (if E00[2] == x then 1 else 0) + (if E00[3] == x then 1 else 0)
  {
    CountAppend(E11, G2, x);
    CountAppend(E10, G1, x);
    CountAppend(E01, E00, x);
    CountOfFour(E11, x);
    CountOfFour(E10, x);
    CountOfFour(E01, x);
    CountOfFour(E00, x);
  }

  lemma OnceSingles11()
    ensures Singles(E11, E11 + G2) == [Edge(B2, C2), Edge(C2, C1)]
  {
    SinglesFour(E11, E11 + G2);
    CountOnceBlock(E11[0]);
    CountOnceBlock(E11[1]);
    CountOnceBlock(E11[2]);
    CountOnceBlock(E11[3]);
  }

  lemma OnceSingles10()
    ensures Singles(E10, E11 + G2) == [Edge(C1, C0), Edge(B0, C0)]
  {
    SinglesFour(E10, E11 + G2);
    CountOnceBlock(E10[0]);
    CountOnceBlock(E10[1]);
    CountOnceBlock(E10[2]);
    CountOnceBlock(E10[3]);
  }

  lemma OnceSingles01()
    ensures Singles(E01, E11 + G2) == [Edge(A2, B2), Edge(A2, A1)]
  {
    SinglesFour(E01, E11 + G2);
    CountOnceBlock(E01[0]);
    CountOnceBlock(E01[1]);
    CountOnceBlock(E01[2]);
    CountOnceBlock(E01[3]);
  }

  lemma OnceSingles00()
    ensures Singles(E00, E11 + G2) == [Edge(A0, B0), Edge(A1, A0)]
  {
    SinglesFour(E00, E11 + G2);
    CountOnceBlock(E00[0]);
    CountOnceBlock(E00[1]);
    CountOnceBlock(E00[2]);
    CountOnceBlock(E00[3]);
  }

  lemma SinglesFourParts(a: seq<Edge>, b: seq<Edge>, c: seq<Edge>, d: seq<Edge>, whole: seq<Edge>)
    ensures Singles(a + (b + (c + d)), whole) == Singles(a, whole) + Singles(b, whole) + Singles(c, whole) + Singles(d, whole)
  {
    SinglesAppend(a, b + (c + d), whole);
    SinglesAppend(b, c + d, whole);
    SinglesAppend(c, d, whole);
  }

  /** With each square once, exactly the four shared inner edges cancel. */
  lemma BlockOnceCancel()
    ensures Cancel(E11 + G2) == OnceRing
  {
    calc {
      Cancel(E11 + G2);
      Singles(E11 + (E10 + (E01 + E00)), E11 + G2);
      { SinglesFourParts(E11, E10, E01, E00, E11 + G2); }
      Singles(E11, E11 + G2) + Singles(E10, E11 + G2) + Singles(E01, E11 + G2) + Singles(E00, E11 + G2);
      { OnceSingles11(); OnceSingles10(); OnceSingles01(); OnceSingles00(); }
      [Edge(B2, C2), Edge(C2, C1)] + [Edge(C1, C0), Edge(B0, C0)] + [Edge(A2, B2), Edge(A2, A1)] + [Edge(A0, B0), Edge(A1, A0)];
      OnceRing;
    }
  }

  const OnceRing := [Edge(B2, C2), Edge(C2, C1), Edge(C1, C0), Edge(B0, C0), Edge(A2, B2), Edge(A2, A1), Edge(A0, B0), Edge(A1, A0)]

  const Rw0 := TraceState(OnceRing, Edge(B2, C2), C2, [B2], East)
  const Rw1 := TraceState([Edge(C2, C1), Edge(C1, C0), Edge(B0, C0), Edge(A2, B2), Edge(A2, A1), Edge(A0, B0), Edge(A1, A0)], Edge(C2, C1), C1, [B2, C2], East)
  const Rw2 := TraceState([Edge(C1, C0), Edge(B0, C0), Edge(A2, B2), Edge(A2, A1), Edge(A0, B0), Edge(A1, A0)], Edge(C1, C0), C0, [B2, C2], South)
  const Rw3 := TraceState([Edge(B0, C0), Edge(A2, B2), Edge(A2, A1), Edge(A0, B0), Edge(A1, A0)], Edge(B0, C0), B0, [B2, C2, C0], South)
  const Rw4 := TraceState([Edge(A2, B2), Edge(A2, A1), Edge(A0, B0), Edge(A1, A0)], Edge(A0, B0), A0, [B2, C2, C0], East)
  const Rw5 := TraceState([Edge(A2, B2), Edge(A2, A1), Edge(A1, A0)], Edge(A1, A0), A1, [B2, C2, C0, A0], East)
  const Rw6 := TraceState([Edge(A2, B2), Edge(A2, A1)], Edge(A2, A1), A2, [B2, C2, C0, A0], South)
  const Rw7 := TraceState([Edge(A2, B2)], Edge(A2, B2), B2, [B2, C2, C0, A0, A2], South)
  const Rw8 := TraceState([], Edge(A2, B2), B2, [B2, C2, C0, A0, A2], East)

  lemma RingStep0()
    ensures Step(Rw0) == Rw1
  {
    assert [B2] + [C2] == [B2, C2];
  }

  lemma RingStep1()
    ensures Step(Rw1) == Rw2
  {
  }

  lemma RingStep2()
    ensures Step(Rw2) == Rw3
  {
    assert [B2, C2] + [C0] == [B2, C2, C0];
  }

  lemma RingStep3()
    ensures Step(Rw3) == Rw4
  {
    FindIncidentAt(Rw4.group, B0, 2);
  }

  lemma RingStep4()
    ensures Step(Rw4) == Rw5
  {
    RemoveFirstAt(Rw4.group, 2);
    assert Rw4.group[..2] + Rw4.group[3..] == Rw5.group;
    FindIncidentAt(Rw5.group, A0, 2);
    assert [B2, C2, C0] + [A0] == [B2, C2, C0, A0];
  }

  lemma RingStep5()
    ensures Step(Rw5) == Rw6
  {
    assert RemoveFirst(Rw5.group, Edge(A1, A0)) == [Edge(A2, B2)] + ([Edge(A2, A1)] + []) == Rw6.group;
    assert FindIncident(Rw6.group, A1) == Some(1);
  }

  lemma RingStep6()
    ensures Step(Rw6) == Rw7
  {
    assert RemoveFirst(Rw6.group, Edge(A2, A1)) == [Edge(A2, B2)] + [] == Rw7.group;
    assert [B2, C2, C0, A0] + [A2] == [B2, C2, C0, A0, A2];
  }

  lemma RingStep7()
    ensures Step(Rw7) == Rw8
  {
  }

  /** The ring is walked clockwise from B2; it ends heading east as it began, so B2 is dropped. */
  lemma RingTrace()
    ensures Trace(OnceRing) == Ok([C2, C0, A0, A2])
  {
    assert Start(OnceRing) == Rw0;
    RingStep0();
    RingStep1();
    RingStep2();
    RingStep3();
    RingStep4();
    RingStep5();
    RingStep6();
    RingStep7();
    RunUnfold(Rw0);
    RunUnfold(Rw1);
    RunUnfold(Rw2);
    RunUnfold(Rw3);
    RunUnfold(Rw4);
    RunUnfold(Rw5);
    RunUnfold(Rw6);
    RunUnfold(Rw7);
  }

  /**
   With the corrected merge the block gives one outline: its four outer
   corners, clockwise from the top-right one.
   */
  lemma BlockOnce(b: seq<Tile>)
    requires IsBlock(b)
    ensures OutlinesOnce(b) == [Ok([C2, C0, A0, A2])]
  {
    BlockHasEdges(b);
    BlockGroupedOnce(b);
    BlockOnceCancel();
    RingTrace();
    SingleGroupOutlineOnce(b, E11 + G2, OnceRing, Ok([C2, C0, A0, A2]));
  }

  // ---------------------------------------------------------------------------
  // Two loops in one group: the squares (0,0) and (1,1), which meet only at B1

  const Kw0 := TraceState([Edge(A1, B1), Edge(B1, B0), Edge(A0, B0), Edge(A1, A0), Edge(B2, C2), Edge(C2, C1), Edge(B1, C1), Edge(B2, B1)], Edge(A1, B1), B1, [A1], East)
  const Kw1 := TraceState([Edge(B1, B0), Edge(A0, B0), Edge(A1, A0), Edge(B2, C2), Edge(C2, C1), Edge(B1, C1), Edge(B2, B1)], Edge(B1, B0), B0, [A1, B1], East)
  const Kw2 := TraceState([Edge(A0, B0), Edge(A1, A0), Edge(B2, C2), Edge(C2, C1), Edge(B1, C1), Edge(B2, B1)], Edge(A0, B0), A0, [A1, B1, B0], South)
  const Kw3 := TraceState([Edge(A1, A0), Edge(B2, C2), Edge(C2, C1), Edge(B1, C1), Edge(B2, B1)], Edge(A1, A0), A1, [A1, B1, B0, A0], East)

  lemma LoopsStep0()
    ensures Step(Kw0) == Kw1
  {
    assert [A1] + [B1] == [A1, B1];
  }

  lemma LoopsStep1()
    ensures Step(Kw1) == Kw2
  {
    assert [A1, B1] + [B0] == [A1, B1, B0];
  }

  lemma LoopsStep2()
    ensures Step(Kw2) == Kw3
  {
    assert [A1, B1, B0] + [A0] == [A1, B1, B0, A0];
  }

  lemma LoopsRun()
    ensures Run(Kw0) == Err(Stuck(E11, A1))
  {
    LoopsStep0();
    LoopsStep1();
    LoopsStep2();
    RunUnfold(Kw0);
    RunUnfold(Kw1);
    RunUnfold(Kw2);
    assert Kw3.group[1..] == E11;
    NoIncident(E11, A1);
    RunUnfold(Kw3);
  }

  /**
   After closing the first square the walk is back at A1, which no edge of
   the second square touches: the program's loop never ends, reported here
   as `Stuck` with the second square's edges left over.
   */
  lemma TwoLoops()
    ensures Trace(E00 + E11) == Err(Stuck(E11, A1))
    ensures forall n: nat :: Loop(Start(E00 + E11), n).group != []
  {
    assert E00 + E11 == Kw0.group;
    assert Start(E00 + E11) == Kw0;
    LoopsRun();
    forall n: nat ensures Loop(Kw0, n).group != [] {
      StuckNeverExits(Kw0, n);
    }
  }
}
