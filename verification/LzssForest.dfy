/**
 The encoder state of the LZSS compressor: 256 search trees, one for each first byte,
 held in three index arrays.  The in-order sequence of a tree is its abstract value.
 */
module LzssForest {
  import opened Bytes
  import opened LzssKeys
  import opened Sequences
  import opened LzssTrees
  import opened LzssSurgery

  function RootOf(c: Byte): int { N + 1 + c }

  /** t is the tree of the keys that begin with c. */
  ghost predicate TreeOk(text: Text, k: Links, t: Tree, c: Byte)
    requires Sized(k)
  {
    && Rep(t, k.rc[RootOf(c)], RootOf(c), k)
    && AllPos(InOrder(t))
    && Ascending(text, InOrder(t))
    && forall v :: v in InOrder(t) ==> text[v] == c
  }

  ghost predicate Forest(text: Text, k: Links, trees: seq<Tree>)
  {
    && Sized(k)
    && |trees| == 256
    && (forall c :: 0 <= c < 256 ==> TreeOk(text, k, trees[c], c))
    && (forall p :: IsPos(p) && k.pa[p] != NIL ==> p in InOrder(trees[text[p]]))
  }

  lemma {:induction false} RepParent(t: Tree, x: int, par: int, k: Links, v: int)
    requires Sized(k) && Rep(t, x, par, k) && par != NIL && v in InOrder(t)
    ensures IsPos(v) && k.pa[v] != NIL
  {
    if v in InOrder(t.left) {
      RepParent(t.left, k.lc[t.pos], t.pos, k, v);
    } else if v in InOrder(t.right) {
      RepParent(t.right, k.rc[t.pos], t.pos, k, v);
    }
  }

  /** parent[p] is NIL exactly when p is in no tree, and a node is in one tree only. */
  lemma ParentMarksNodes(text: Text, k: Links, trees: seq<Tree>, p: int)
    requires Forest(text, k, trees) && IsPos(p)
    ensures k.pa[p] != NIL <==> exists c :: 0 <= c < 256 && p in InOrder(trees[c])
    ensures forall c :: 0 <= c < 256 && p in InOrder(trees[c]) ==> c == text[p]
  {
    forall c | 0 <= c < 256 && p in InOrder(trees[c])
      ensures c == text[p] && k.pa[p] != NIL
    {
      assert TreeOk(text, k, trees[c], c);
      RepParent(trees[c], k.rc[RootOf(c)], RootOf(c), k, p);
    }
    if k.pa[p] != NIL {
      assert p in InOrder(trees[text[p]]);
    }
  }

  /** The links changed at the nodes of s only, and tree t of character c took the place of `was`. */
  ghost predicate Replaces(text: Text, k: Links, k': Links, was: Tree, t: Tree, c: Byte, s: seq<int>)
    requires Sized(k)
  {
    && Sized(k') && TreeOk(text, k', t, c)
    && OnlyAt(k, k', s) && RootsExcept(k, k', RootOf(c))
    && (forall v :: v in s && IsPos(v) ==> text[v] == c && (k'.pa[v] != NIL ==> v in InOrder(t)))
    && (forall v :: v in InOrder(was) ==> v in s)
  }

  /** Changing one tree leaves the other 255 alone. */
  lemma ForestUpdate(text: Text, k: Links, k': Links, trees: seq<Tree>, c: Byte, t: Tree, s: seq<int>)
    requires Forest(text, k, trees) && Replaces(text, k, k', trees[c], t, c, s)
    ensures Forest(text, k', trees[c := t])
  {
    var trees' := trees[c := t];
    forall d | 0 <= d < 256 ensures TreeOk(text, k', trees'[d], d) {
      if d != c {
        assert TreeOk(text, k, trees[d], d);
        forall v | v in InOrder(trees[d]) ensures AgreeAt(k, k', v) {
          assert text[v] == d;
        }
        RepFrame(trees[d], k.rc[RootOf(d)], RootOf(d), k, k');
      }
    }
    forall p | IsPos(p) && k'.pa[p] != NIL ensures p in InOrder(trees'[text[p]]) {
      if p !in s {
        assert AgreeAt(k, k', p);
        assert p in InOrder(trees[text[p]]);
      }
    }
  }

  // ---- The in-order sequence as a sorted list ---------------------------------------

  /** The sorted list with r added; a position with an equal key makes room for r. */
  function InsertSorted(text: Text, s: seq<int>, r: int): seq<int>
    requires AllPos(s) && IsPos(r)
  {
    if s == [] then [r]
    else if KeyAt(text, s[0]) == KeyAt(text, r) then [r] + s[1..]
    else if Less(KeyAt(text, r), KeyAt(text, s[0])) then [r] + s
    else [s[0]] + InsertSorted(text, s[1..], r)
  }

  function Without(s: seq<int>, p: int): seq<int> {
    if s == [] then []
    else if s[0] == p then Without(s[1..], p)
    else [s[0]] + Without(s[1..], p)
  }

  ghost predicate AllLess(text: Text, s: seq<int>, r: int)
    requires IsPos(r)
  {
    forall v :: v in s ==> IsPos(v) && Less(KeyAt(text, v), KeyAt(text, r))
  }

  ghost predicate AllGreater(text: Text, s: seq<int>, r: int)
    requires IsPos(r)
  {
    forall v :: v in s ==> IsPos(v) && Less(KeyAt(text, r), KeyAt(text, v))
  }

  lemma InsertSortedStep(text: Text, s: seq<int>, r: int)
    requires AllPos(s) && IsPos(r) && s != []
    ensures Less(KeyAt(text, s[0]), KeyAt(text, r)) ==>
              InsertSorted(text, s, r) == [s[0]] + InsertSorted(text, s[1..], r)
    ensures Less(KeyAt(text, r), KeyAt(text, s[0])) ==> InsertSorted(text, s, r) == [r] + s
  {
    Trichotomy(KeyAt(text, s[0]), KeyAt(text, r));
  }

  lemma {:induction false} InsertSortedPast(text: Text, a: seq<int>, b: seq<int>, r: int)
    requires IsPos(r) && AllLess(text, a, r) && AllPos(a + b) && AllPos(b)
    ensures InsertSorted(text, a + b, r) == a + InsertSorted(text, b, r)
  {
    if a == [] {
      assert a + b == b;
    } else {
      var s := a + b;
      assert s[0] == a[0] && a[0] in a && s[1..] == a[1..] + b;
      InsertSortedStep(text, s, r);
      InsertSortedPast(text, a[1..], b, r);
      HeadTail(a, InsertSorted(text, b, r));
    }
  }

  lemma InsertSortedNew(text: Text, a: seq<int>, b: seq<int>, r: int)
    requires IsPos(r) && AllLess(text, a, r) && AllGreater(text, b, r) && AllPos(a + b) && AllPos(b)
    ensures InsertSorted(text, a + b, r) == a + [r] + b
  {
    InsertSortedPast(text, a, b, r);
    if b != [] {
      assert b[0] in b;
      InsertSortedStep(text, b, r);
    }
    assert a + ([r] + b) == a + [r] + b;
  }

  lemma InsertSortedEqual(text: Text, a: seq<int>, p: int, b: seq<int>, r: int)
    requires IsPos(r) && IsPos(p) && AllPos(a + [p] + b)
    requires AllLess(text, a, r) && KeyAt(text, p) == KeyAt(text, r)
    ensures InsertSorted(text, a + [p] + b, r) == a + [r] + b
  {
    var pb := [p] + b;
    assert a + [p] + b == a + pb;
    assert forall i :: 0 <= i < |pb| ==> pb[i] == (a + pb)[|a| + i];
    InsertSortedPast(text, a, pb, r);
    assert pb[1..] == b;
    assert a + ([r] + b) == a + [r] + b;
  }

  lemma {:induction false} WithoutAbsent(s: seq<int>, p: int)
    requires p !in s
    ensures Without(s, p) == s
  {
    if s != [] {
      WithoutAbsent(s[1..], p);
    }
  }

  lemma {:induction false} WithoutMiddle(a: seq<int>, p: int, b: seq<int>)
    requires p !in a && p !in b
    ensures Without(a + [p] + b, p) == a + b
  {
    var s := a + [p] + b;
    if a == [] {
      assert s[1..] == b && a + b == b;
      WithoutAbsent(b, p);
    } else {
      assert s[0] == a[0] && s[1..] == a[1..] + [p] + b;
      WithoutMiddle(a[1..], p, b);
      HeadTail(a, b);
    }
  }

  lemma {:induction false} WithoutMembers(s: seq<int>, p: int)
    ensures forall v :: v in Without(s, p) <==> v in s && v != p
  {
    if s != [] {
      WithoutMembers(s[1..], p);
    }
  }

  lemma {:induction false} InsertSortedMembers(text: Text, s: seq<int>, r: int)
    requires AllPos(s) && IsPos(r) && Ascending(text, s)
    ensures forall v :: v in InsertSorted(text, s, r) <==>
              v == r || (v in s && IsPos(v) && KeyAt(text, v) != KeyAt(text, r))
  {
    if s != [] {
      AscendingDistinct(text, s);
      assert forall v :: v in s <==> v == s[0] || v in s[1..];
      if KeyAt(text, s[0]) == KeyAt(text, r) {
        forall v | v in s[1..] ensures KeyAt(text, v) != KeyAt(text, r) {
        }
      } else if Less(KeyAt(text, r), KeyAt(text, s[0])) {
        forall v | v in s ensures KeyAt(text, v) != KeyAt(text, r) {
          if v != s[0] {
            LessTransitive(KeyAt(text, r), KeyAt(text, s[0]), KeyAt(text, v));
            Trichotomy(KeyAt(text, r), KeyAt(text, v));
          }
        }
      } else {
        InsertSortedMembers(text, s[1..], r);
      }
    }
  }

  lemma IndexInsert(a: seq<int>, r: int, b: seq<int>)
    ensures forall i :: 0 <= i < |a| ==> (a + [r] + b)[i] == a[i] && a[i] in a
    ensures (a + [r] + b)[|a|] == r
    ensures forall i :: |a| < i <= |a| + |b| ==> (a + [r] + b)[i] == b[i - |a| - 1] && (a + [r] + b)[i] in b
  {
  }

  lemma AscendingInsert(text: Text, a: seq<int>, b: seq<int>, r: int)
    requires IsPos(r) && AllPos(a) && AllPos(b) && Ascending(text, a) && Ascending(text, b)
    requires AllLess(text, a, r) && AllGreater(text, b, r)
    ensures AllPos(a + [r] + b) && Ascending(text, a + [r] + b)
  {
    IndexInsert(a, r, b);
    var s := a + [r] + b;
    assert AllPos(s);
    forall i, j | 0 <= i < j < |s| ensures Less(KeyAt(text, s[i]), KeyAt(text, s[j])) {
      if i < |a| < j {
        LessTransitive(KeyAt(text, s[i]), KeyAt(text, r), KeyAt(text, s[j]));
      } else if i > |a| {
        assert Less(KeyAt(text, b[i - |a| - 1]), KeyAt(text, b[j - |a| - 1]));
      } else if j < |a| {
        assert Less(KeyAt(text, a[i]), KeyAt(text, a[j]));
      }
    }
  }

  lemma AscendingParts(text: Text, a: seq<int>, b: seq<int>)
    requires AllPos(a + b) && Ascending(text, a + b)
    ensures AllPos(a) && AllPos(b) && Ascending(text, a) && Ascending(text, b)
    ensures forall u, v :: u in a && v in b ==> Less(KeyAt(text, u), KeyAt(text, v))
  {
    var s := a + b;
    assert forall i :: 0 <= i < |a| ==> s[i] == a[i];
    assert forall i :: 0 <= i < |b| ==> s[|a| + i] == b[i];
  }

  /** In an ascending list a + [p] + b, everything in a is below p and everything in b above it. */
  lemma AscendingAround(text: Text, a: seq<int>, p: int, b: seq<int>)
    requires AllPos(a + [p] + b) && Ascending(text, a + [p] + b)
    ensures IsPos(p) && AllLess(text, a, p) && AllGreater(text, b, p)
    ensures AllPos(a) && AllPos(b) && Ascending(text, a) && Ascending(text, b)
    ensures p !in a && p !in b
  {
    var s := a + [p] + b;
    assert s[|a|] == p;
    assert forall i :: 0 <= i < |a| ==> s[i] == a[i];
    assert forall i :: 0 <= i < |b| ==> s[|a| + 1 + i] == b[i];
    forall v | v in a ensures Less(KeyAt(text, v), KeyAt(text, p)) {
      var i :| 0 <= i < |a| && a[i] == v;
      assert s[i] == v;
    }
    forall v | v in b ensures Less(KeyAt(text, p), KeyAt(text, v)) {
      var i :| 0 <= i < |b| && b[i] == v;
      assert s[|a| + 1 + i] == v;
    }
    Trichotomy(KeyAt(text, p), KeyAt(text, p));
  }

  lemma AscendingRemove(text: Text, a: seq<int>, p: int, b: seq<int>)
    requires AllPos(a + [p] + b) && Ascending(text, a + [p] + b)
    ensures AllPos(a + b) && Ascending(text, a + b)
  {
    var s, ab := a + [p] + b, a + b;
    assert forall i :: 0 <= i < |ab| ==> ab[i] == s[if i < |a| then i else i + 1];
    forall i, j | 0 <= i < j < |ab| ensures Less(KeyAt(text, ab[i]), KeyAt(text, ab[j])) {
      var i', j' := if i < |a| then i else i + 1, if j < |a| then j else j + 1;
      assert s[i'] == ab[i] && s[j'] == ab[j];
    }
  }
}
