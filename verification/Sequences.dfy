/** Facts about sequences and indices that the proofs use in several places. */
module Sequences {

  lemma Regroup<T>(a: seq<T>, b: seq<T>, c: seq<T>)
    ensures a + (b + c) == a + b + c
  {
  }

  lemma Surround<T>(a: seq<T>, b: seq<T>, m: seq<T>, c: seq<T>, d: seq<T>)
    ensures a + (b + m + c) + d == (a + b) + m + (c + d)
    ensures a + (b + c) + d == (a + b) + (c + d)
  {
  }

  lemma HeadTail<T>(a: seq<T>, x: seq<T>)
    requires a != []
    ensures [a[0]] + (a[1..] + x) == a + x
  {
  }

  /** The least number with a property, at most n. */
  lemma {:induction false} Least(p: nat -> bool, n: nat) returns (k: nat)
    requires p(n)
    ensures k <= n && p(k) && forall j: nat :: j < k ==> !p(j)
  {
    if i: nat :| i < n && p(i) {
      k := Least(p, i);
    } else {
      k := n;
    }
  }
}
