/** Induction over runs, stated once: a run is a sequence of states linked by a step relation. */
module Runs {

  ghost predicate IsRun<S(!new)>(run: seq<S>, next: (S, S) -> bool) {
    forall i :: 0 <= i < |run| - 1 ==> next(run[i], run[i + 1])
  }

  ghost predicate Preserves<S(!new)>(inv: S -> bool, next: (S, S) -> bool) {
    forall s, t :: inv(s) && next(s, t) ==> inv(t)
  }

  /** `rel` is a preorder that every step from an invariant state respects. */
  ghost predicate Tracks<S(!new)>(inv: S -> bool, next: (S, S) -> bool, rel: (S, S) -> bool) {
    && (forall s :: rel(s, s))
    && (forall s, t, u :: rel(s, t) && rel(t, u) ==> rel(s, u))
    && (forall s, t :: inv(s) && next(s, t) ==> rel(s, t))
  }

  /** A step from an invariant state lowers the rank, or the rank is zero and nothing changes. */
  ghost predicate Descends<S(!new)>(inv: S -> bool, next: (S, S) -> bool, rank: S -> nat) {
    forall s, t :: inv(s) && next(s, t) ==> if rank(s) == 0 then t == s else rank(t) < rank(s)
  }

  lemma {:induction false} InvariantAlongRun<S(!new)>(
    run: seq<S>, inv: S -> bool, next: (S, S) -> bool, i: nat, j: nat)
    requires IsRun(run, next) && Preserves(inv, next)
    requires i <= j < |run| && inv(run[i])
    ensures inv(run[j])
    decreases j - i
  {
    if i == j {
    } else {
      InvariantAlongRun(run, inv, next, i, j - 1);
    }
  }

  lemma {:induction false} PreorderAlongRun<S(!new)>(
    run: seq<S>, inv: S -> bool, next: (S, S) -> bool, rel: (S, S) -> bool, i: nat, j: nat)
    requires IsRun(run, next) && Preserves(inv, next) && Tracks(inv, next, rel)
    requires i <= j < |run| && inv(run[i])
    ensures inv(run[j]) && rel(run[i], run[j])
    decreases j - i
  {
    if i == j {
    } else {
      PreorderAlongRun(run, inv, next, rel, i, j - 1);
      assert next(run[j - 1], run[j - 1 + 1]);
    }
  }

  /** What holds at m and no longer at n was lost in some step between. */
  lemma {:induction false} TurningPoint<S(!new)>(run: seq<S>, p: S -> bool, m: nat, n: nat) returns (k: nat)
    requires m <= n < |run| && p(run[m]) && !p(run[n])
    ensures m <= k < n && p(run[k]) && !p(run[k + 1])
    decreases n
  {
    if p(run[n - 1]) {
      k := n - 1;
    } else {
      k := TurningPoint(run, p, m, n - 1);
    }
  }

  /** After as many steps as the first rank, the run stands still. */
  lemma {:induction false} RankAlongRun<S(!new)>(
    run: seq<S>, inv: S -> bool, next: (S, S) -> bool, rank: S -> nat, n: nat)
    requires IsRun(run, next) && Preserves(inv, next) && Descends(inv, next, rank)
    requires n < |run| && inv(run[0])
    ensures inv(run[n]) && (rank(run[n]) == 0 || rank(run[n]) + n <= rank(run[0]))
    ensures rank(run[n]) == 0 ==> forall k :: n <= k < |run| ==> run[k] == run[n]
  {
    if n == 0 {
    } else {
      RankAlongRun(run, inv, next, rank, n - 1);
      assert next(run[n - 1], run[n - 1 + 1]);
    }
    if rank(run[n]) == 0 {
      StandsStill(run, inv, next, rank, n);
    }
  }

  lemma {:induction false} StandsStill<S(!new)>(
    run: seq<S>, inv: S -> bool, next: (S, S) -> bool, rank: S -> nat, n: nat)
    requires IsRun(run, next) && Descends(inv, next, rank)
    requires n < |run| && inv(run[n]) && rank(run[n]) == 0
    ensures forall k :: n <= k < |run| ==> run[k] == run[n]
    decreases |run| - n
  {
    if n + 1 == |run| {
    } else {
      StandsStill(run, inv, next, rank, n + 1);
    }
  }
}
