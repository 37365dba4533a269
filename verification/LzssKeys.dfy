/**
 The keys of the LZSS encoder's search trees.  A node is a position `p < N` of the
 text buffer and its key is the F bytes that start there.  Keys are compared byte by
 byte; `Match` is the length of the common prefix, which is both what orders two keys
 and what the encoder reports as a match.
 */
module LzssKeys {
  import opened Bytes

  const N := 4096
  const F := 18
  const THRESHOLD := 2
  const NIL := N

  /** The ring buffer with F - 1 extra bytes, so that every position below N has a full key. */
  type Text = t: seq<Byte> | |t| == N + F - 1 witness seq(N + F - 1, _ => 0)

  type Key = k: seq<Byte> | |k| == F witness seq(F, _ => 0)

  predicate IsPos(p: int) { 0 <= p < N }

  function KeyAt(text: Text, p: int): (k: Key)
    requires IsPos(p)
  {
    text[p..p + F]
  }

  function MatchFrom(a: Key, b: Key, i: nat): (m: nat)
    requires i <= F
    ensures i <= m <= F
    ensures forall j :: i <= j < m ==> a[j] == b[j]
    ensures m < F ==> a[m] != b[m]
    decreases F - i
  {
    if i == F || a[i] != b[i] then i else MatchFrom(a, b, i + 1)
  }

  /** Length of the common prefix of two keys, at most F. */
  function Match(a: Key, b: Key): (m: nat)
    ensures m <= F
    ensures forall j :: 0 <= j < m ==> a[j] == b[j]
    ensures m < F ==> a[m] != b[m]
  {
    MatchFrom(a, b, 0)
  }

  /** Lexicographic order of keys. */
  predicate Less(a: Key, b: Key) {
    var m := Match(a, b);
    m < F && a[m] < b[m]
  }

  /** The two clauses of Match's contract determine it. */
  lemma MatchUnique(a: Key, b: Key, k: nat)
    requires k <= F
    requires forall j :: 0 <= j < k ==> a[j] == b[j]
    requires k < F ==> a[k] != b[k]
    ensures Match(a, b) == k
  {
  }

  lemma MatchSymmetric(a: Key, b: Key)
    ensures Match(a, b) == Match(b, a)
  {
  }

  /** Keys are totally ordered, and only a full match makes two keys equal. */
  lemma Trichotomy(a: Key, b: Key)
    ensures a == b <==> Match(a, b) == F
    ensures a == b <==> !Less(a, b) && !Less(b, a)
    ensures !(Less(a, b) && Less(b, a))
  {
  }

  /** The match of the outer two of three ascending keys is the shorter of the inner ones. */
  lemma LessTransitive(a: Key, b: Key, c: Key)
    requires Less(a, b) && Less(b, c)
    ensures Less(a, c)
    ensures Match(a, c) <= Match(a, b)
    ensures Match(a, c) <= Match(b, c)
  {
  }

  /** A key between `a` and `c` matches `c` at least as far as `a` does. */
  lemma CloserMatchesLonger(a: Key, b: Key, c: Key)
    requires (Less(a, b) && Less(b, c)) || (Less(c, b) && Less(b, a))
    ensures Match(a, c) <= Match(b, c)
  {
    if Less(a, b) && Less(b, c) {
      LessTransitive(a, b, c);
    } else {
      LessTransitive(c, b, a);
      MatchSymmetric(a, c);
      MatchSymmetric(b, c);
    }
  }

  predicate AllPos(s: seq<int>) { forall i :: 0 <= i < |s| ==> IsPos(s[i]) }

  /** Positions in strictly ascending order of their keys. */
  predicate Ascending(text: Text, s: seq<int>)
    requires AllPos(s)
  {
    forall i, j :: 0 <= i < j < |s| ==> Less(KeyAt(text, s[i]), KeyAt(text, s[j]))
  }

  predicate NoDup(s: seq<int>) { forall i, j :: 0 <= i < j < |s| ==> s[i] != s[j] }

  /** Strictly ascending keys are different positions with different keys. */
  lemma AscendingDistinct(text: Text, s: seq<int>)
    requires AllPos(s) && Ascending(text, s)
    ensures NoDup(s)
    ensures forall i, j :: 0 <= i < j < |s| ==> KeyAt(text, s[i]) != KeyAt(text, s[j])
  {
  }
}
