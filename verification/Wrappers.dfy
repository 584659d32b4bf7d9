/** Option, and finite-collection facts that several components share. */
module Wrappers {

  datatype Option<+T> = None | Some(value: T) {
    function GetOr(default: T): T {
      match this
      case Some(v) => v
      case None => default
    }
  }

  function Min(a: int, b: int): int { if a < b then a else b }

  function Max(a: int, b: int): int { if a < b then b else a }

  ghost predicate NoDuplicates<T(!new)>(s: seq<T>) {
    forall i, j :: 0 <= i < j < |s| ==> s[i] != s[j]
  }

  /** The elements of a sequence. */
  function Elements<T>(s: seq<T>): set<T> { set x | x in s }

  /** A sequence without duplicates has as many elements as positions. */
  lemma {:induction false} DistinctCardinality<T(!new)>(s: seq<T>)
    requires NoDuplicates(s)
    ensures |Elements(s)| == |s|
  {
    if s == [] {
    } else {
      var init, last := s[..|s| - 1], s[|s| - 1];
      DistinctCardinality(init);
      assert Elements(s) == Elements(init) + {last};
      assert last !in Elements(init);
    }
  }

  lemma {:induction false} SubsetCardinality<T>(a: set<T>, b: set<T>)
    requires a <= b
    ensures |a| <= |b|
    ensures |a| == |b| ==> a == b
  {
    if a == {} {
    } else {
      var x :| x in a;
      SubsetCardinality(a - {x}, b - {x});
    }
  }

  /** Reordering a sequence neither creates nor hides duplicates. */
  lemma PermutationKeepsDistinct<T(!new)>(s: seq<T>, t: seq<T>)
    requires multiset(s) == multiset(t) && NoDuplicates(s)
    ensures NoDuplicates(t)
  {
    forall i, j | 0 <= i < j < |t| ensures t[i] != t[j] {
      if t[i] == t[j] {
        var x := t[i];
        TwoOccurrences(t, i, j);
        DistinctMultiplicity(s, x);
      }
    }
  }

  lemma TwoOccurrences<T(!new)>(t: seq<T>, i: nat, j: nat)
    requires i < j < |t| && t[i] == t[j]
    ensures multiset(t)[t[i]] >= 2
  {
    assert t == t[..i] + [t[i]] + t[i + 1..j] + [t[j]] + t[j + 1..];
  }

  lemma {:induction false} DistinctMultiplicity<T(!new)>(s: seq<T>, x: T)
    requires NoDuplicates(s)
    ensures multiset(s)[x] <= 1
  {
    if s == [] {
    } else {
      var init, last := s[..|s| - 1], s[|s| - 1];
      assert s == init + [last];
      DistinctMultiplicity(init, x);
      assert last !in init;
    }
  }

  /** Each value once, in the order of first appearance. */
  function Distinct<T(==)>(s: seq<T>): seq<T> {
    if s == [] then [] else
      var before, x := Distinct(s[..|s| - 1]), s[|s| - 1];
      if x in before then before else before + [x]
  }

  lemma DistinctOfOneMore<T>(s: seq<T>, x: T)
    ensures Distinct(s + [x]) == if x in Distinct(s) then Distinct(s) else Distinct(s) + [x]
  {
    assert (s + [x])[..|s|] == s;
  }

  lemma {:induction false} DistinctKeepsValues<T>(s: seq<T>, x: T)
    ensures x in Distinct(s) <==> x in s
  {
    if s == [] {
    } else {
      var init, last := s[..|s| - 1], s[|s| - 1];
      DistinctKeepsValues(init, x);
      assert s == init + [last];
    }
  }

  lemma {:induction false} DistinctHasNoDuplicates<T(!new)>(s: seq<T>)
    ensures NoDuplicates(Distinct(s))
  {
    if s == [] {
    } else {
      DistinctHasNoDuplicates(s[..|s| - 1]);
    }
  }

  /** Position k is the first one of its value. */
  ghost predicate FirstAt<T(!new)>(s: seq<T>, k: nat) {
    k < |s| && forall j :: 0 <= j < k ==> s[j] != s[k]
  }

  /** The values of `Distinct` appear for the first time at growing positions. */
  lemma {:induction false} DistinctInOrder<T(!new)>(s: seq<T>) returns (firsts: seq<nat>)
    ensures |firsts| == |Distinct(s)|
    ensures forall i :: 0 <= i < |firsts| ==> FirstAt(s, firsts[i]) && s[firsts[i]] == Distinct(s)[i]
    ensures forall i, j :: 0 <= i < j < |firsts| ==> firsts[i] < firsts[j]
  {
    if s == [] {
      firsts := [];
    } else {
      var n := |s| - 1;
      var init := s[..n];
      firsts := DistinctInOrder(init);
      forall i | 0 <= i < |firsts| ensures FirstAt(s, firsts[i]) && s[firsts[i]] == Distinct(init)[i] {
        assert FirstAt(init, firsts[i]);
      }
      if s[n] !in Distinct(init) {
        DistinctKeepsValues(init, s[n]);
        assert forall j :: 0 <= j < n ==> s[j] == init[j];
        firsts := firsts + [n];
      }
    }
  }

  lemma ProductKeepsOrder(a: int, b: int, factor: int)
    requires factor >= 0 && a <= b
    ensures a * factor <= b * factor
  {
    assert (b - a) * factor >= 0;
  }

  lemma ProductOrder(a: int, b: int, factor: int)
    requires factor > 0 && a * factor < b * factor
    ensures a < b
  {
    if b <= a {
      ProductKeepsOrder(b, a, factor);
    }
  }
}
