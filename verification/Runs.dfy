/** Runs of a program: sequences of states in which each state follows from the one before. */
module Runs {

  /** The `k`-th move of `r` is one that `next` allows. */
  ghost predicate Moves<S>(next: (S, S) -> bool, r: seq<S>, k: nat) {
    k + 1 < |r| && next(r[k], r[k + 1])
  }

  ghost predicate Linked<S>(next: (S, S) -> bool, r: seq<S>) {
    |r| > 0 && forall k: nat :: k + 1 < |r| ==> Moves(next, r, k)
  }

  /** One more move extends a run. */
  lemma Extend<S>(next: (S, S) -> bool, r: seq<S>, s: S)
    requires Linked(next, r) && next(r[|r| - 1], s)
    ensures Linked(next, r + [s])
  {
    var r' := r + [s];
    forall k: nat | k + 1 < |r'|
      ensures Moves(next, r', k)
    {
      assert k + 1 < |r| ==> Moves(next, r, k);
    }
  }
}
