/**
 Cardinalities of sets of numbers, and the pigeonhole principle.
 */
module Counting {
  /** The numbers below n. */
  ghost function Below(n: nat): (s: set<nat>)
    ensures |s| == n && forall c: nat :: c in s <==> c < n
  {
    if n == 0 then {} else Below(n - 1) + {n - 1}
  }

  lemma SubsetCount<T>(a: set<T>, b: set<T>)
    requires a <= b
    ensures |a| <= |b|
  {
    assert b == a + (b - a);
  }

  ghost predicate Distinct<T>(list: seq<T>) {
    forall i, j :: 0 <= i < j < |list| ==> list[i] != list[j]
  }

  /** A list without repetition has as many members as entries. */
  lemma {:induction false} DistinctCount<T>(list: seq<T>, held: set<T>)
    requires Distinct(list) && held == set i | 0 <= i < |list| :: list[i]
    ensures |held| == |list|
  {
    if list != [] {
      var front, last := list[..|list| - 1], list[|list| - 1];
      var less := set i | 0 <= i < |front| :: front[i];
      DistinctCount(front, less);
      assert held == less + {last};
    }
  }

  /** A list of distinct numbers below n has at most n entries, and fewer when one number is missing. */
  lemma DistinctBound(list: seq<nat>, n: nat)
    requires Distinct(list) && forall i :: 0 <= i < |list| ==> list[i] < n
    ensures |list| <= n
    ensures forall x: nat :: x < n && x !in list ==> |list| < n
  {
    var held := set i | 0 <= i < |list| :: list[i];
    DistinctCount(list, held);
    assert held <= Below(n);
    SubsetCount(held, Below(n));
    forall x: nat | x < n && x !in list ensures |list| < n {
      SubsetCount(held + {x}, Below(n));
    }
  }

  /** More entries than values: two entries agree. */
  lemma Pigeonhole(list: seq<nat>, n: nat) returns (i: nat, j: nat)
    requires |list| > n && forall i :: 0 <= i < |list| ==> list[i] < n
    ensures i < j < |list| && list[i] == list[j]
  {
    if Distinct(list) {
      DistinctBound(list, n);
      assert false;
    }
    i, j :| 0 <= i < j < |list| && list[i] == list[j];
  }

  /** The indices that are marked. */
  ghost function ClosedSet(marks: seq<bool>): set<nat> {
    set v | v in Below(|marks|) && marks[v]
  }

  /** The indices that are not marked. */
  ghost function OpenSet(marks: seq<bool>): set<nat> {
    set v | v in Below(|marks|) && !marks[v]
  }
}
