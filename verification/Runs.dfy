/** Runs of any transition system, and what its steps keep. */
module Runs {
  /** run[k + 1] is reached from run[k] by moves[k]. */
  ghost predicate IsRunOf<X, M>(step: (X, M, X) -> bool, run: seq<X>, moves: seq<M>) {
    && |run| == |moves| + 1
    && forall k :: 0 <= k < |moves| ==> step(run[k], moves[k], run[k + 1])
  }

  /** Every step from a state where `given` holds keeps `inv`. */
  ghost predicate Keeps<X(!new), M(!new)>(step: (X, M, X) -> bool, given: X -> bool, inv: X -> bool) {
    forall x, move, x' :: step(x, move, x') && given(x) && inv(x) ==> inv(x')
  }

  ghost predicate Always<X>(x: X) { true }

  lemma {:induction false} KeptFrom<X(!new), M(!new)>(step: (X, M, X) -> bool, given: X -> bool, inv: X -> bool,
                                                      run: seq<X>, moves: seq<M>, i: nat, k: nat)
    requires IsRunOf(step, run, moves) && i <= k < |run| && Keeps(step, given, inv) && inv(run[i])
    requires forall j :: i <= j < k ==> given(run[j])
    ensures inv(run[k])
    decreases k
  {
    if k > i {
      KeptFrom(step, given, inv, run, moves, i, k - 1);
      assert step(run[k - 1], moves[k - 1], run[k]);
    }
  }

  lemma KeptByRun<X(!new), M(!new)>(step: (X, M, X) -> bool, given: X -> bool, inv: X -> bool,
                                    run: seq<X>, moves: seq<M>, k: nat)
    requires IsRunOf(step, run, moves) && k < |run| && Keeps(step, given, inv) && inv(run[0])
    requires forall j :: 0 <= j < k ==> given(run[j])
    ensures inv(run[k])
  {
    KeptFrom(step, given, inv, run, moves, 0, k);
  }

  lemma LongerRunOf<X, M>(step: (X, M, X) -> bool, run: seq<X>, moves: seq<M>, move: M, x: X)
    requires IsRunOf(step, run, moves) && step(run[|moves|], move, x)
    ensures IsRunOf(step, run + [x], moves + [move])
  {
    var run', moves' := run + [x], moves + [move];
    forall k | 0 <= k < |moves'| ensures step(run'[k], moves'[k], run'[k + 1]) {
      if k < |moves| { assert step(run[k], moves[k], run[k + 1]); }
    }
  }
}
