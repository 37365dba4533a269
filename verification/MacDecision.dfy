/**
 How the answers of several policies become one error: mac_error_select folded over the
 policies by MAC_CHECK, and the "any of them" rule of MAC_GRANT.
 */
module MacDecision {
  import opened MacErrno

  /** mac_error_select. */
  function ErrorSelect(e1: int, e2: int): int {
    if e1 == EDEADLK || e2 == EDEADLK then EDEADLK
    else if e1 == EINVAL || e2 == EINVAL then EINVAL
    else if e1 == ESRCH || e2 == ESRCH then ESRCH
    else if e1 == ENOENT || e2 == ENOENT then ENOENT
    else if e1 == EACCES || e2 == EACCES then EACCES
    else if e1 == EPERM || e2 == EPERM then EPERM
    else if e1 != 0 then e1
    else e2
  }

  /** Precedence of the errors that have one. */
  function Rank(e: int): (r: nat)
    ensures r <= 6
  {
    if e == EDEADLK then 6 else if e == EINVAL then 5 else if e == ESRCH then 4
    else if e == ENOENT then 3 else if e == EACCES then 2 else if e == EPERM then 1 else 0
  }

  /** The error after consulting policies that answered `errs` in this order. */
  function Check(errs: seq<int>): int {
    if errs == [] then 0 else ErrorSelect(errs[|errs| - 1], Check(errs[..|errs| - 1]))
  }

  /** The last answer that is not 0, or 0. */
  function LastNonzero(errs: seq<int>): int {
    if errs == [] then 0
    else if errs[|errs| - 1] != 0 then errs[|errs| - 1]
    else LastNonzero(errs[..|errs| - 1])
  }

  ghost predicate HasRanked(errs: seq<int>) { exists i :: 0 <= i < |errs| && Rank(errs[i]) > 0 }

  /**
   The check passes exactly when every policy passes it.  Otherwise it reports the answer of
   highest precedence, or the last answer that is not 0 when none has a precedence.
   */
  lemma {:induction false} CheckResult(errs: seq<int>)
    ensures Check(errs) == 0 <==> forall i :: 0 <= i < |errs| ==> errs[i] == 0
    ensures forall i :: 0 <= i < |errs| ==> Rank(errs[i]) <= Rank(Check(errs))
    ensures Check(errs) != 0 ==> Check(errs) in errs
    ensures HasRanked(errs) <==> Rank(Check(errs)) > 0
    ensures !HasRanked(errs) ==> Check(errs) == LastNonzero(errs)
    decreases |errs|
  {
    if errs != [] {
      var n := |errs| - 1;
      var init := errs[..n];
      CheckResult(init);
      assert forall i :: 0 <= i < n ==> errs[i] == init[i];
      assert HasRanked(errs) <==> HasRanked(init) || Rank(errs[n]) > 0;
    }
  }

  lemma SameRank(a: int, b: int)
    requires Rank(a) == Rank(b) > 0
    ensures a == b
  {
  }

  ghost predicate Permuted(p: seq<int>, q: seq<int>) { multiset(p) == multiset(q) }

  lemma PermutedMember(p: seq<int>, q: seq<int>, x: int)
    requires Permuted(p, q)
    ensures x in p <==> x in q
  {
    assert x in p <==> x in multiset(p);
    assert x in q <==> x in multiset(q);
  }

  ghost predicate OneNonzero(errs: seq<int>) {
    forall i, j :: 0 <= i < |errs| && 0 <= j < |errs| && errs[i] != 0 && errs[j] != 0 ==> errs[i] == errs[j]
  }

  lemma {:induction false} LastNonzeroMember(errs: seq<int>)
    ensures LastNonzero(errs) != 0 ==> LastNonzero(errs) in errs
    ensures LastNonzero(errs) == 0 ==> forall i :: 0 <= i < |errs| ==> errs[i] == 0
    decreases |errs|
  {
    if errs != [] {
      LastNonzeroMember(errs[..|errs| - 1]);
    }
  }

  /** Moving x to the end makes it the last answer. */
  lemma MoveToEnd(errs: seq<int>, i: nat) returns (p: seq<int>)
    requires i < |errs| && errs[i] != 0
    ensures Permuted(p, errs) && LastNonzero(p) == errs[i]
  {
    p := errs[..i] + errs[i + 1..] + [errs[i]];
    assert errs == errs[..i] + [errs[i]] + errs[i + 1..];
  }

  lemma PermutedRanked(p: seq<int>, errs: seq<int>)
    requires Permuted(p, errs)
    ensures HasRanked(p) <==> HasRanked(errs)
  {
    if HasRanked(errs) {
      var i :| 0 <= i < |errs| && Rank(errs[i]) > 0;
      PermutedMember(p, errs, errs[i]);
    }
    if HasRanked(p) {
      var i :| 0 <= i < |p| && Rank(p[i]) > 0;
      PermutedMember(p, errs, p[i]);
    }
  }

  lemma SameDecision(p: seq<int>, errs: seq<int>)
    requires Permuted(p, errs) && (HasRanked(errs) || OneNonzero(errs))
    ensures Check(p) == Check(errs)
  {
    CheckResult(p);
    CheckResult(errs);
    PermutedRanked(p, errs);
    PermutedMember(p, errs, Check(errs));
    PermutedMember(p, errs, Check(p));
    if HasRanked(errs) {
      SameRank(Check(p), Check(errs));
    } else {
      LastNonzeroMember(p);
      LastNonzeroMember(errs);
      PermutedMember(p, errs, LastNonzero(p));
      PermutedMember(p, errs, LastNonzero(errs));
    }
  }

  /** The order of the policies matters exactly when no answer has a precedence and two that are not 0 differ. */
  lemma OrderMatters(errs: seq<int>)
    ensures (forall p :: Permuted(p, errs) ==> Check(p) == Check(errs)) <==> HasRanked(errs) || OneNonzero(errs)
  {
    if HasRanked(errs) || OneNonzero(errs) {
      forall p | Permuted(p, errs) ensures Check(p) == Check(errs) {
        SameDecision(p, errs);
      }
    } else {
      var i, j :| 0 <= i < |errs| && 0 <= j < |errs| && errs[i] != 0 && errs[j] != 0 && errs[i] != errs[j];
      var p := MoveToEnd(errs, i);
      var q := MoveToEnd(errs, j);
      PermutedRanked(p, errs);
      PermutedRanked(q, errs);
      CheckResult(p);
      CheckResult(q);
      assert Check(p) != Check(q);
    }
  }

  /** MAC_GRANT: the error starts as EPERM and any answer of 0 clears it. */
  function Grant(errs: seq<int>): int {
    if errs == [] then EPERM else if errs[|errs| - 1] == 0 then 0 else Grant(errs[..|errs| - 1])
  }

  lemma {:induction false} GrantResult(errs: seq<int>)
    ensures Grant(errs) == 0 <==> 0 in errs
    ensures Grant(errs) == 0 || Grant(errs) == EPERM
    decreases |errs|
  {
    if errs != [] {
      GrantResult(errs[..|errs| - 1]);
      assert errs == errs[..|errs| - 1] + [errs[|errs| - 1]];
    }
  }
}
