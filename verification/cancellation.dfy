/**
 Removal of inner edges (PathCreation.cs:278-287). Inside one group, every
 edge value that occurs more than once is removed entirely, every occurrence
 of it; edges occurring once stay, in their original order. An edge shared by
 two tiles of the group is therefore gone, and so is any edge the grouping
 copied more than once.
 */
module Cancellation {
  import opened Geometry
  import opened Seqs

  /** The elements of `s` whose value occurs exactly once in `whole`, in order. */
  function Singles(s: seq<Edge>, whole: seq<Edge>): seq<Edge>
  {
    if s == [] then [] else (if Count(whole, s[0]) == 1 then [s[0]] else []) + Singles(s[1..], whole)
  }

  /** The surviving edges of a group: those of multiplicity one, in order. */
  function Cancel(g: seq<Edge>): seq<Edge>
  {
    Singles(g, g)
  }

  /**
   The loop as written: walk a snapshot of the group and, whenever the
   current edge still occurs more than once in the live group, remove all of
   its occurrences. It computes exactly `Cancel`.
   */
  method CancelRepeated(group: seq<Edge>) returns (r: seq<Edge>)
    ensures r == Cancel(group)
  {
    var snapshot := group;
    r := group;
    ghost var removed: set<Edge> := {};
    WithoutAbsent(group, removed);
    var i := 0;
    while i < |snapshot|
      invariant 0 <= i <= |snapshot|
      invariant RemovedSoFar(group, removed, i)
      invariant r == Without(group, removed)
    {
      var edge := snapshot[i];
      RemovedStep(group, removed, i);
      if Count(r, edge) > 1 {
        WithoutWithout(group, removed, {edge});
        r := Without(r, {edge});
        removed := removed + {edge};
      }
      i := i + 1;
    }
    assert group[..i] == group;
    WithoutIsSingles(group, group, removed);
  }

  /** `removed` holds exactly the repeated values met among the first `i` elements. */
  ghost predicate RemovedSoFar(group: seq<Edge>, removed: set<Edge>, i: nat)
    requires i <= |group|
  {
    forall x :: x in removed <==> x in group[..i] && Count(group, x) > 1
  }

  /** One pass of the removal loop keeps `RemovedSoFar`. */
  lemma RemovedStep(group: seq<Edge>, removed: set<Edge>, i: nat)
    requires i < |group| && RemovedSoFar(group, removed, i)
    ensures Count(Without(group, removed), group[i]) > 1 ==> RemovedSoFar(group, removed + {group[i]}, i + 1)
    ensures Count(Without(group, removed), group[i]) <= 1 ==> RemovedSoFar(group, removed, i + 1)
  {
    var x0 := group[i];
    CountWithout(group, removed, x0);
    assert group[..i + 1] == group[..i] + [x0];
    assert forall y :: y in group[..i + 1] <==> y in group[..i] || y == x0;
    if Count(Without(group, removed), x0) > 1 {
      assert x0 !in removed && Count(group, x0) > 1;
    } else if x0 !in removed {
      assert Count(group, x0) <= 1;
    }
  }

  /** Removing exactly the repeated values leaves the singles. */
  lemma {:induction false} WithoutIsSingles(s: seq<Edge>, whole: seq<Edge>, d: set<Edge>)
    requires forall x :: x in s ==> x in whole && (x in d <==> Count(whole, x) > 1)
    ensures Without(s, d) == Singles(s, whole)
    decreases |s|
  {
    if s != [] {
      WithoutIsSingles(s[1..], whole, d);
    }
  }

  lemma {:induction false} CountSingles(s: seq<Edge>, whole: seq<Edge>, e: Edge)
    ensures Count(Singles(s, whole), e) == if Count(whole, e) == 1 then Count(s, e) else 0
    decreases |s|
  {
    if s != [] {
      CountSingles(s[1..], whole, e);
      var head := if Count(whole, s[0]) == 1 then [s[0]] else [];
      CountAppend(head, Singles(s[1..], whole), e);
      if head != [] {
        assert head[1..] == [];
      }
    }
  }

  /**
   An edge survives exactly when it occurs once in the group: occurring once,
   it is kept once; occurring twice or more, it is gone.
   */
  lemma CancelCounts(g: seq<Edge>, e: Edge)
    ensures Count(Cancel(g), e) == if Count(g, e) == 1 then 1 else 0
  {
    CountSingles(g, g, e);
  }

  /** Two equal elements at different positions give a count of at least two. */
  lemma {:induction false} RepeatCount(s: seq<Edge>, i: nat, j: nat)
    requires i < j < |s| && s[i] == s[j]
    ensures Count(s, s[i]) >= 2
    decreases |s|
  {
    if i == 0 {
      assert s[1..][j - 1] == s[j];
    } else {
      assert s[1..][i - 1] == s[i] && s[1..][j - 1] == s[j];
      RepeatCount(s[1..], i - 1, j - 1);
    }
  }

  /** After cancellation no edge value repeats. */
  lemma CancelNoRepeats(g: seq<Edge>)
    ensures NoRepeats(Cancel(g))
  {
    var c := Cancel(g);
    forall i, j | 0 <= i < j < |c| ensures c[i] != c[j] {
      CancelCounts(g, c[i]);
      if c[i] == c[j] {
        RepeatCount(c, i, j);
      }
    }
  }

  /** Keeping the singles of a list whose values all occur once keeps everything. */
  lemma {:induction false} SinglesAll(s: seq<Edge>, whole: seq<Edge>)
    requires forall x :: x in s ==> Count(whole, x) == 1
    ensures Singles(s, whole) == s
    decreases |s|
  {
    if s != [] {
      SinglesAll(s[1..], whole);
    }
  }

  /** Running the removal a second time changes nothing. */
  lemma CancelIdempotent(g: seq<Edge>)
    ensures Cancel(Cancel(g)) == Cancel(g)
  {
    var c := Cancel(g);
    forall x | x in c ensures Count(c, x) == 1 {
      CancelCounts(g, x);
    }
    SinglesAll(c, c);
  }
}
