/**
 The list operations the pipeline relies on, as pure functions over sequences:
 occurrence counting (`List.FindAll(..).Count`), removal of the first
 occurrence (`List.Remove`) and removal of every occurrence of a set of values
 (`List.RemoveAll`). Equality is the element type's value equality, which is
 what the overridden `Equals` of `Point` and `Edge` provides.
 */
module Seqs {

  /** Number of occurrences of `x` in `s`. */
  function Count<T(==)>(s: seq<T>, x: T): (n: nat)
    ensures n <= |s|
    ensures n == 0 <==> x !in s
  {
    if s == [] then 0 else (if s[0] == x then 1 else 0) + Count(s[1..], x)
  }

  lemma {:induction false} CountAppend<T>(a: seq<T>, b: seq<T>, x: T)
    ensures Count(a + b, x) == Count(a, x) + Count(b, x)
    decreases |a|
  {
    if a == [] {
      assert a + b == b;
    } else {
      assert (a + b)[1..] == a[1..] + b;
      CountAppend(a[1..], b, x);
    }
  }

  /** A list holding nothing but `x` holds it as many times as it is long. */
  lemma {:induction false} CountAll<T>(s: seq<T>, x: T)
    requires forall k :: 0 <= k < |s| ==> s[k] == x
    ensures Count(s, x) == |s|
    decreases |s|
  {
    if s != [] {
      CountAll(s[1..], x);
    }
  }

  /** `s` with its first occurrence of `x` taken out; `s` itself when `x` does not occur. */
  function RemoveFirst<T(==)>(s: seq<T>, x: T): (r: seq<T>)
    ensures x in s ==> |r| == |s| - 1
    ensures x !in s ==> r == s
    ensures forall y :: y in r ==> y in s
  {
    if s == [] then []
    else if s[0] == x then
      assert s == [s[0]] + s[1..];
      s[1..]
    else
      assert s == [s[0]] + s[1..];
      [s[0]] + RemoveFirst(s[1..], x)
  }

  /** Removing the first occurrence takes exactly one `x` out of the multiset, none when there is none. */
  lemma {:induction false} RemoveFirstMultiset<T>(s: seq<T>, x: T)
    ensures multiset(RemoveFirst(s, x)) == multiset(s) - multiset{x}
    decreases |s|
  {
    if s != [] {
      assert s == [s[0]] + s[1..];
      RemoveFirstMultiset(s[1..], x);
    }
  }

  /** The elements of `s` that are not in `d`, in their original order. */
  function Without<T(==,!new)>(s: seq<T>, d: set<T>): (r: seq<T>)
    ensures |r| <= |s|
    ensures forall y :: y in r <==> y in s && y !in d
  {
    if s == [] then [] else (if s[0] in d then [] else [s[0]]) + Without(s[1..], d)
  }

  lemma {:induction false} WithoutAppend<T(!new)>(a: seq<T>, b: seq<T>, d: set<T>)
    ensures Without(a + b, d) == Without(a, d) + Without(b, d)
    decreases |a|
  {
    if a == [] {
      assert a + b == b;
    } else {
      assert (a + b)[1..] == a[1..] + b;
      WithoutAppend(a[1..], b, d);
    }
  }

  lemma {:induction false} CountWithout<T(!new)>(s: seq<T>, d: set<T>, x: T)
    ensures Count(Without(s, d), x) == if x in d then 0 else Count(s, x)
    decreases |s|
  {
    if s != [] {
      CountWithout(s[1..], d, x);
      var tail := Without(s[1..], d);
      if s[0] !in d {
        assert Without(s, d) == [s[0]] + tail;
        CountAppend([s[0]], tail, x);
        assert [s[0]][1..] == [];
      } else {
        assert Without(s, d) == tail;
      }
    }
  }

  lemma {:induction false} WithoutWithout<T(!new)>(s: seq<T>, d1: set<T>, d2: set<T>)
    ensures Without(Without(s, d1), d2) == Without(s, d1 + d2)
    decreases |s|
  {
    if s != [] {
      WithoutWithout(s[1..], d1, d2);
      var tail := Without(s[1..], d1);
      if s[0] in d1 {
        assert Without(s, d1) == tail;
        assert Without(s, d1 + d2) == Without(s[1..], d1 + d2);
      } else {
        assert Without(s, d1) == [s[0]] + tail;
        WithoutAppend([s[0]], tail, d2);
        assert [s[0]][1..] == [];
        assert Without([s[0]], d2) == if s[0] in d2 then [] else [s[0]];
      }
    }
  }

  /** Removing values that do not occur changes nothing. */
  lemma {:induction false} WithoutAbsent<T(!new)>(s: seq<T>, d: set<T>)
    requires forall y :: y in d ==> y !in s
    ensures Without(s, d) == s
    decreases |s|
  {
    if s != [] {
      WithoutAbsent(s[1..], d);
      assert s == [s[0]] + s[1..];
    }
  }

  /** True when no value occurs twice in `s`. */
  predicate NoRepeats<T(==)>(s: seq<T>)
  {
    forall i, j :: 0 <= i < j < |s| ==> s[i] != s[j]
  }

  /** On a list without repeats every value occurs once or not at all. */
  lemma {:induction false} CountNoRepeats<T(!new)>(s: seq<T>, x: T)
    requires NoRepeats(s)
    ensures Count(s, x) == if x in s then 1 else 0
    decreases |s|
  {
    if s != [] {
      assert NoRepeats(s[1..]) by {
        forall i, j | 0 <= i < j < |s[1..]| ensures s[1..][i] != s[1..][j] {
          assert s[1..][i] == s[i + 1] && s[1..][j] == s[j + 1];
        }
      }
      CountNoRepeats(s[1..], x);
      if s[0] == x {
        forall k | 0 <= k < |s[1..]| ensures s[1..][k] != x {
          assert s[1..][k] == s[k + 1];
        }
      }
    }
  }

  /** On a list without repeats, removing the first occurrence removes every occurrence. */
  lemma {:induction false} RemoveFirstNoRepeats<T(!new)>(s: seq<T>, x: T)
    requires NoRepeats(s)
    ensures RemoveFirst(s, x) == Without(s, {x})
    ensures NoRepeats(RemoveFirst(s, x))
    decreases |s|
  {
    if s != [] {
      assert NoRepeats(s[1..]) by {
        forall i, j | 0 <= i < j < |s[1..]| ensures s[1..][i] != s[1..][j] {
          assert s[1..][i] == s[i + 1] && s[1..][j] == s[j + 1];
        }
      }
      RemoveFirstNoRepeats(s[1..], x);
      if s[0] == x {
        assert forall y :: y in s[1..] ==> y != x by {
          forall y | y in s[1..] ensures y != x {
            var k :| 0 <= k < |s[1..]| && s[1..][k] == y;
            assert s[k + 1] == y;
          }
        }
        WithoutAbsent(s[1..], {x});
      } else {
        var r := RemoveFirst(s[1..], x);
        assert s[0] !in r;
        forall i, j | 0 <= i < j < |[s[0]] + r| ensures ([s[0]] + r)[i] != ([s[0]] + r)[j] {
          if i > 0 {
            assert ([s[0]] + r)[i] == r[i - 1];
          }
        }
      }
    }
  }
}
