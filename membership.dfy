/**
 * Pure facts about the receiver list: how often a handle occurs in it, and Kotlin's
 * `MutableList.remove(element)`, which drops the first occurrence and reports whether there was one.
 */
module Membership {

  /** No handle occurs twice. */
  predicate Distinct<T(==)>(xs: seq<T>)
  {
    forall i, j :: 0 <= i < j < |xs| ==> xs[i] != xs[j]
  }

  /** How many times `x` occurs in `xs`, counted from the back. */
  function Occurrences<T(==)>(xs: seq<T>, x: T): nat
  {
    if xs == [] then 0
    else Occurrences(xs[..|xs| - 1], x) + (if xs[|xs| - 1] == x then 1 else 0)
  }

  lemma {:induction false} OccurrencesCount<T>(xs: seq<T>, x: T)
    ensures Occurrences(xs, x) == multiset(xs)[x]
  {
    if xs != [] {
      assert xs == xs[..|xs| - 1] + [xs[|xs| - 1]];
      OccurrencesCount(xs[..|xs| - 1], x);
    }
  }

  /** The list without the first occurrence of `x`; the list itself when `x` does not occur. */
  function RemoveFirst<T(==)>(xs: seq<T>, x: T): (r: seq<T>)
    ensures x !in xs ==> r == xs
    ensures |r| <= |xs| && forall y :: y in r ==> y in xs
  {
    if xs == [] then []
    else if xs[0] == x then xs[1..]
    else [xs[0]] + RemoveFirst(xs[1..], x)
  }

  /** In a list without duplicates every member occurs exactly once. */
  lemma {:induction false} DistinctOccursOnce<T>(xs: seq<T>, x: T)
    requires Distinct(xs)
    ensures multiset(xs)[x] == if x in xs then 1 else 0
  {
    if xs != [] {
      assert xs == [xs[0]] + xs[1..];
      DistinctOccursOnce(xs[1..], x);
      if x == xs[0] {
        assert x !in xs[1..] by {
          forall j | 0 <= j < |xs[1..]| ensures xs[1..][j] != x {
            assert xs[0] != xs[j + 1];
          }
        }
      }
    }
  }

  /** Removal takes away exactly one occurrence of `x`, when there is one, and nothing else. */
  lemma {:induction false} RemoveFirstMultiset<T>(xs: seq<T>, x: T)
    ensures multiset(RemoveFirst(xs, x)) == multiset(xs) - multiset{x}
  {
    if xs != [] {
      assert xs == [xs[0]] + xs[1..];
      if xs[0] != x {
        RemoveFirstMultiset(xs[1..], x);
      }
    }
  }

  /** The list shrinks by one exactly when `x` was in it. */
  lemma {:induction false} RemoveFirstLength<T>(xs: seq<T>, x: T)
    ensures |RemoveFirst(xs, x)| == if x in xs then |xs| - 1 else |xs|
  {
    if xs != [] {
      assert xs == [xs[0]] + xs[1..];
      RemoveFirstLength(xs[1..], x);
    }
  }

  /** The other handles keep their order: removal cuts out the first occurrence and nothing else. */
  lemma {:induction false} RemoveFirstCut<T>(xs: seq<T>, x: T, i: nat)
    requires i < |xs| && xs[i] == x && x !in xs[..i]
    ensures RemoveFirst(xs, x) == xs[..i] + xs[i + 1..]
  {
    if i > 0 {
      var tail := xs[1..];
      assert xs[0] in xs[..i];
      assert tail[..i - 1] == xs[1..i];
      assert x !in tail[..i - 1] by {
        forall j | 0 <= j < i - 1 ensures tail[j] != x {
          assert tail[j] == xs[..i][j + 1];
        }
      }
      RemoveFirstCut(tail, x, i - 1);
      assert tail[i..] == xs[i + 1..];
      assert xs[..i] == [xs[0]] + xs[1..i];
    }
  }

  /** From a list without duplicates, removal leaves no trace of `x`. */
  lemma {:induction false} RemoveFirstDistinct<T>(xs: seq<T>, x: T)
    requires Distinct(xs)
    ensures x !in RemoveFirst(xs, x)
  {
    RemoveFirstMultiset(xs, x);
    DistinctOccursOnce(xs, x);
  }
}
