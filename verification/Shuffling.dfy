/** The in-place random orders of the board: any random choice is allowed, so each result is
    only known to be a rearrangement. */
module Shuffling {
  import opened Wrappers

  method Choice<T>(s: seq<T>) returns (x: T)
    requires |s| > 0
    ensures x in s
  {
    var i: nat :| i < |s|;
    x := s[i];
  }

  method RandInt(lo: int, hi: int) returns (n: int)
    requires lo <= hi
    ensures lo <= n <= hi
  {
    n :| lo <= n <= hi;
  }

  lemma SwapIsPermutation<T>(s: seq<T>, i: nat, j: nat)
    requires i < |s| && j < |s|
    ensures multiset(s[i := s[j]][j := s[i]]) == multiset(s)
  {
  }

  method Shuffle<T>(a: array<T>)
    modifies a
    ensures multiset(a[..]) == multiset(old(a[..]))
  {
    var i := a.Length - 1;
    while i > 0
      invariant i < a.Length || a.Length == 0
      invariant multiset(a[..]) == multiset(old(a[..]))
    {
      var j := RandInt(0, i);
      ghost var was := a[..];
      a[i], a[j] := a[j], a[i];
      SwapIsPermutation(was, i, j);
      assert a[..] == was[i := was[j]][j := was[i]];
      i := i - 1;
    }
  }

  /** The first `count` positions of a partial Fisher-Yates shuffle. */
  method PartialShuffle<T(!new)>(a: array<T>, count: nat) returns (drawn: seq<T>)
    modifies a
    ensures multiset(a[..]) == multiset(old(a[..]))
    ensures |drawn| == Min(count, a.Length) && drawn == a[..|drawn|]
  {
    var n := Min(count, a.Length);
    var i := 0;
    while i < n
      invariant 0 <= i <= n
      invariant multiset(a[..]) == multiset(old(a[..]))
    {
      var j := RandInt(i, a.Length - 1);
      ghost var was := a[..];
      a[i], a[j] := a[j], a[i];
      SwapIsPermutation(was, i, j);
      assert a[..] == was[i := was[j]][j := was[i]];
      i := i + 1;
    }
    drawn := a[..n];
  }

  /** A draw without replacement: distinct elements of the original. */
  lemma DrawIsDistinct<T(!new)>(before: seq<T>, after: seq<T>, n: nat)
    requires multiset(before) == multiset(after) && NoDuplicates(before) && n <= |after|
    ensures NoDuplicates(after[..n]) && |after| == |before|
    ensures forall x :: x in after[..n] ==> x in before
  {
    PermutationKeepsDistinct(before, after);
    assert |multiset(before)| == |before| && |multiset(after)| == |after|;
    forall x | x in after[..n] ensures x in before {
      assert x in multiset(after);
    }
  }

  /** `shuffle(s.slice())`: the same elements in any order. */
  method ShuffledCopy<T(!new)>(s: seq<T>) returns (t: seq<T>)
    ensures |t| == |s| && forall x :: x in t <==> x in s
  {
    var a := new T[|s|](i requires 0 <= i < |s| => s[i]);
    assert a[..] == s;
    Shuffle(a);
    t := a[..];
    SameElements(s, t);
  }

  method ShuffledRange(n: nat) returns (t: seq<int>)
    ensures forall x :: x in t <==> 0 <= x < n
  {
    var range := seq(n, i => i);
    t := ShuffledCopy(range);
    forall x ensures x in range <==> 0 <= x < n {
      assert 0 <= x < n ==> range[x] == x;
    }
  }

  lemma SameElements<T(!new)>(s: seq<T>, t: seq<T>)
    requires multiset(s) == multiset(t)
    ensures |s| == |t| && forall x :: x in s <==> x in t
  {
    assert |multiset(s)| == |s| && |multiset(t)| == |t|;
    forall x ensures x in s <==> x in t {
      assert x in s <==> x in multiset(s);
      assert x in t <==> x in multiset(t);
    }
  }
}
