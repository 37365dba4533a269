/**
 What insert_node and delete_node do to the forest of search trees: the invariant of the search, and
 what each change of the links makes of the tree and of its order.
 */
module LzssEncoder {
  import opened Bytes
  import opened LzssKeys
  import opened Sequences
  import opened LzssTrees
  import opened LzssSurgery
  import opened LzssForest

  // ---- The search of insert_node ----------------------------------------------------

  ghost predicate NoneLonger(text: Text, s: seq<int>, r: int, len: int)
    requires IsPos(r)
  {
    forall v :: v in s ==> IsPos(v) && Match(KeyAt(text, v), KeyAt(text, r)) <= len
  }

  /**
   The search for r in t has come to the hole of c, where `sub` is.  All nodes outside
   `sub` are on the correct side of r, and none of them matches longer than `len`, the
   match of `pos`.
   */
  ghost predicate Searching(text: Text, t: Tree, c: Context, sub: Tree, r: int, len: int, pos: int)
    requires IsPos(r)
  {
    && Plug(c, sub) == t
    && AllLess(text, Before(c), r) && AllGreater(text, After(c), r)
    && NoneLonger(text, Before(c), r, len) && NoneLonger(text, After(c), r, len)
    && 0 <= len < F
    && (c == Top <==> len == 0)
    && (c != Top ==> IsPos(pos) && (pos in Before(c) || pos in After(c))
                     && Match(KeyAt(text, pos), KeyAt(text, r)) == len)
  }

  /** All nodes of t outside the subtree of `pos` match shorter than `len`: it is the topmost longest match. */
  ghost predicate Topmost(text: Text, t: Tree, r: int, len: int, pos: int)
    requires IsPos(r)
  {
    exists c, l, rt {:trigger Plug(c, Node(l, pos, rt))} ::
      && Plug(c, Node(l, pos, rt)) == t
      && NoneLonger(text, Before(c), r, len - 1) && NoneLonger(text, After(c), r, len - 1)
  }

  /** A node that matches longer than any before it is the topmost one so far. */
  lemma NewTopmost(text: Text, t: Tree, c: Context, sub: Tree, r: int, len: int, pos: int, m: int)
    requires IsPos(r) && Searching(text, t, c, sub, r, len, pos) && sub.Node? && m > len
    ensures Topmost(text, t, r, m, sub.pos)
  {
    assert Plug(c, Node(sub.left, sub.pos, sub.right)) == t;
  }

  /** Everything in s is no closer to r than p is. */
  lemma FartherNotLonger(text: Text, s: seq<int>, p: int, r: int)
    requires IsPos(r) && IsPos(p)
    requires (AllLess(text, s, p) && Less(KeyAt(text, p), KeyAt(text, r)))
          || (AllGreater(text, s, p) && Less(KeyAt(text, r), KeyAt(text, p)))
    ensures NoneLonger(text, s, r, Match(KeyAt(text, p), KeyAt(text, r)))
    ensures Less(KeyAt(text, p), KeyAt(text, r)) ==> AllLess(text, s, r)
    ensures Less(KeyAt(text, r), KeyAt(text, p)) ==> AllGreater(text, s, r)
  {
    Trichotomy(KeyAt(text, p), KeyAt(text, r));
    forall v | v in s
      ensures Match(KeyAt(text, v), KeyAt(text, r)) <= Match(KeyAt(text, p), KeyAt(text, r))
      ensures Less(KeyAt(text, p), KeyAt(text, r)) ==> Less(KeyAt(text, v), KeyAt(text, r))
      ensures Less(KeyAt(text, r), KeyAt(text, p)) ==> Less(KeyAt(text, r), KeyAt(text, v))
    {
      CloserMatchesLonger(KeyAt(text, v), KeyAt(text, p), KeyAt(text, r));
      if Less(KeyAt(text, p), KeyAt(text, r)) {
        LessTransitive(KeyAt(text, v), KeyAt(text, p), KeyAt(text, r));
      } else {
        LessTransitive(KeyAt(text, r), KeyAt(text, p), KeyAt(text, v));
      }
    }
  }

  lemma SplitAround(text: Text, c: Context, l: Tree, p: int, rt: Tree)
    requires AllPos(InOrder(Plug(c, Node(l, p, rt)))) && Ascending(text, InOrder(Plug(c, Node(l, p, rt))))
    ensures IsPos(p) && AllLess(text, Before(c) + InOrder(l), p) && AllGreater(text, InOrder(rt) + After(c), p)
    ensures AllLess(text, Before(c), p) && AllLess(text, InOrder(l), p)
    ensures AllGreater(text, InOrder(rt), p) && AllGreater(text, After(c), p)
    ensures InOrder(Plug(c, Node(l, p, rt))) == (Before(c) + InOrder(l)) + [p] + (InOrder(rt) + After(c))
  {
    InOrderPlug(c, Node(l, p, rt));
    var a, b := Before(c) + InOrder(l), InOrder(rt) + After(c);
    Surround(Before(c), InOrder(l), [p], InOrder(rt), After(c));
    AscendingAround(text, a, p, b);
    assert forall v :: v in Before(c) ==> v in a;
    assert forall v :: v in InOrder(l) ==> v in a;
    assert forall v :: v in InOrder(rt) ==> v in b;
    assert forall v :: v in After(c) ==> v in b;
  }

  lemma GoRight(text: Text, t: Tree, c: Context, l: Tree, p: int, rt: Tree, r: int, len: int, pos: int)
    requires IsPos(r) && IsPos(p) && Searching(text, t, c, Node(l, p, rt), r, len, pos)
    requires AllPos(InOrder(t)) && Ascending(text, InOrder(t))
    requires Less(KeyAt(text, p), KeyAt(text, r)) && text[p] == text[r]
    ensures var m := Match(KeyAt(text, p), KeyAt(text, r));
            Searching(text, t, InRight(l, p, c), rt, r, if m > len then m else len, if m > len then p else pos)
  {
    SplitAround(text, c, l, p, rt);
    FartherNotLonger(text, InOrder(l), p, r);
    assert KeyAt(text, p)[0] == KeyAt(text, r)[0];
    var c' := InRight(l, p, c);
    assert forall v :: v in Before(c') <==> v in Before(c) || v in InOrder(l) || v == p;
  }

  lemma GoLeft(text: Text, t: Tree, c: Context, l: Tree, p: int, rt: Tree, r: int, len: int, pos: int)
    requires IsPos(r) && IsPos(p) && Searching(text, t, c, Node(l, p, rt), r, len, pos)
    requires AllPos(InOrder(t)) && Ascending(text, InOrder(t))
    requires Less(KeyAt(text, r), KeyAt(text, p)) && text[p] == text[r]
    ensures var m := Match(KeyAt(text, p), KeyAt(text, r));
            Searching(text, t, InLeft(c, p, rt), l, r, if m > len then m else len, if m > len then p else pos)
  {
    SplitAround(text, c, l, p, rt);
    FartherNotLonger(text, InOrder(rt), p, r);
    assert KeyAt(text, p)[0] == KeyAt(text, r)[0];
    var c' := InLeft(c, p, rt);
    assert forall v :: v in After(c') <==> v in After(c) || v in InOrder(rt) || v == p;
  }

  // ---- What each operation does to the forest -----------------------------------------

  /** The order side of a new leaf. */
  lemma LeafOrder(text: Text, t: Tree, c: Context, r: int, len: int, pos: int)
    requires IsPos(r) && Searching(text, t, c, Leaf, r, len, pos)
    requires AllPos(InOrder(t)) && Ascending(text, InOrder(t)) && r !in InOrder(t)
    ensures NoDup(Before(c) + After(c)) && r !in Before(c) && r !in After(c)
    ensures InOrder(t) == Before(c) + After(c)
    ensures InOrder(Plug(c, Node(Leaf, r, Leaf))) == Before(c) + [r] + After(c)
    ensures AllPos(Before(c) + [r] + After(c)) && Ascending(text, Before(c) + [r] + After(c))
    ensures InsertSorted(text, InOrder(t), r) == Before(c) + [r] + After(c)
  {
    LeafInOrder(c, r);
    InsertOrder(text, Before(c), After(c), r);
  }

  lemma LeafInOrder(c: Context, r: int)
    ensures InOrder(Plug(c, Leaf)) == Before(c) + After(c)
    ensures InOrder(Plug(c, Node(Leaf, r, Leaf))) == Before(c) + [r] + After(c)
  {
    InOrderPlug(c, Leaf);
    InOrderPlug(c, Node(Leaf, r, Leaf));
    assert InOrder(Node(Leaf, r, Leaf)) == [r];
  }

  lemma InsertOrder(text: Text, a: seq<int>, b: seq<int>, r: int)
    requires IsPos(r) && AllPos(a + b) && Ascending(text, a + b)
    requires AllLess(text, a, r) && AllGreater(text, b, r)
    ensures NoDup(a + b)
    ensures AllPos(a + [r] + b) && Ascending(text, a + [r] + b)
    ensures InsertSorted(text, a + b, r) == a + [r] + b
  {
    AscendingParts(text, a, b);
    AscendingDistinct(text, a + b);
    AscendingInsert(text, a, b, r);
    InsertSortedNew(text, a, b, r);
  }

  /** r goes into an empty hole at the end of the search. */
  lemma LeafForest(text: Text, k: Links, trees: seq<Tree>, c: Context, p: int, r: int, len: int, pos: int)
    requires Forest(text, k, trees) && IsPos(r) && k.pa[r] == NIL && k.lc[r] == NIL && k.rc[r] == NIL
    requires Searching(text, trees[text[r]], c, Leaf, r, len, pos)
    requires Seg(c, NIL, p, k.rc[RootOf(text[r])], RootOf(text[r]), k)
    ensures if c.InLeft? then IsPos(p) else 0 <= p < N + 257
    ensures Forest(text, LinkLeaf(k, c, p, r), trees[text[r] := Plug(c, Node(Leaf, r, Leaf))])
    ensures InOrder(Plug(c, Node(Leaf, r, Leaf))) == InsertSorted(text, InOrder(trees[text[r]]), r)
  {
    var b := text[r];
    var t, s := trees[b], InOrder(trees[b]);
    assert TreeOk(text, k, t, b);
    ParentMarksNodes(text, k, trees, r);
    LeafOrder(text, t, c, r, len, pos);
    LinkLeafRep(k, c, p, r, RootOf(b));
    var t', k' := Plug(c, Node(Leaf, r, Leaf)), LinkLeaf(k, c, p, r);
    var s' := InOrder(t');
    assert forall v :: v in s' <==> v in s || v == r;
    ForestUpdate(text, k, k', trees, b, t', s');
  }

  /** The links side of replacing p by r. */
  lemma EqualRep(text: Text, k: Links, c: Context, l: Tree, p: int, rt: Tree, r: int, root: int)
    requires Sized(k) && IsRoot(root) && IsPos(p) && IsPos(r)
    requires AllPos(InOrder(Plug(c, Node(l, p, rt)))) && Ascending(text, InOrder(Plug(c, Node(l, p, rt))))
    requires AllPos(InOrder(Plug(c, Node(l, r, rt)))) && Ascending(text, InOrder(Plug(c, Node(l, r, rt))))
    requires r !in InOrder(Plug(c, Node(l, p, rt)))
    requires Seg(c, p, k.pa[p], k.rc[root], root, k) && Rep(Node(l, p, rt), p, k.pa[p], k)
    ensures 0 <= k.lc[p] <= NIL && 0 <= k.rc[p] <= NIL
    ensures var m := TakeOver(k, p, r); 0 <= m.pa[p] < N + 257 && (m.rc[m.pa[p]] != p ==> m.pa[p] <= N)
    ensures var k' := Hoist(TakeOver(k, p, r), p, r);
            && Rep(Plug(c, Node(l, r, rt)), k'.rc[root], root, k')
            && OnlyAt(k, k', InOrder(Plug(c, Node(l, p, rt))) + [r])
            && RootsExcept(k, k', root)
            && k'.pa[p] == NIL
  {
    EqualParts(text, c, l, p, rt, r);
    TakeOverRep(k, l, p, rt, r, k.pa[p]);
    var m := TakeOver(k, p, r);
    SegPositions(c, p, k.pa[p], k.rc[root], root, k);
    assert Agree(k, m, Before(c)) && Agree(k, m, After(c));
    SegFrame(c, p, k.pa[p], k.rc[root], root, k, m);
    HoistRep(m, c, Node(l, r, rt), p, r, k.pa[p], root);
    var k' := Hoist(m, p, r);
    InOrderPlug(c, Node(l, p, rt));
    OnlyAtTrans(k, m, k', InOrder(l) + InOrder(rt) + [r], Before(c) + InOrder(Node(l, r, rt)) + [p] + After(c),
                InOrder(Plug(c, Node(l, p, rt))) + [r]);
  }

  lemma OnlyAtTrans(k: Links, m: Links, k': Links, s: seq<int>, s': seq<int>, all: seq<int>)
    requires Sized(k) && Sized(m) && Sized(k') && OnlyAt(k, m, s) && OnlyAt(m, k', s')
    requires forall v :: v in s || v in s' ==> v in all
    ensures OnlyAt(k, k', all)
  {
  }

  /** r takes the place of a node p with the same key. */
  lemma EqualForest(text: Text, k: Links, trees: seq<Tree>, c: Context, l: Tree, p: int, rt: Tree, r: int)
    requires Forest(text, k, trees) && IsPos(r) && IsPos(p) && k.pa[r] == NIL && p != r
    requires Plug(c, Node(l, p, rt)) == trees[text[r]] && KeyAt(text, p) == KeyAt(text, r)
    requires Seg(c, p, k.pa[p], k.rc[RootOf(text[r])], RootOf(text[r]), k) && Rep(Node(l, p, rt), p, k.pa[p], k)
    ensures 0 <= k.lc[p] <= NIL && 0 <= k.rc[p] <= NIL
    ensures var m := TakeOver(k, p, r); 0 <= m.pa[p] < N + 257 && (m.rc[m.pa[p]] != p ==> m.pa[p] <= N)
    ensures Forest(text, Hoist(TakeOver(k, p, r), p, r), trees[text[r] := Plug(c, Node(l, r, rt))])
    ensures InOrder(Plug(c, Node(l, r, rt))) == InsertSorted(text, InOrder(trees[text[r]]), r)
  {
    var b := text[r];
    var t, s := trees[b], InOrder(trees[b]);
    assert TreeOk(text, k, t, b);
    ParentMarksNodes(text, k, trees, r);
    SplitAround(text, c, l, p, rt);
    EqualOrder(text, Before(c) + InOrder(l), p, InOrder(rt) + After(c), r);
    EqualInOrder(c, l, r, rt);
    EqualRep(text, k, c, l, p, rt, r, RootOf(b));
    var t', k' := Plug(c, Node(l, r, rt)), Hoist(TakeOver(k, p, r), p, r);
    assert forall v :: v in s && v != p ==> v in InOrder(t');
    ForestUpdate(text, k, k', trees, b, t', s + [r]);
  }

  lemma EqualInOrder(c: Context, l: Tree, r: int, rt: Tree)
    ensures InOrder(Plug(c, Node(l, r, rt))) == (Before(c) + InOrder(l)) + [r] + (InOrder(rt) + After(c))
  {
    InOrderPlug(c, Node(l, r, rt));
    Surround(Before(c), InOrder(l), [r], InOrder(rt), After(c));
  }

  /** Replacing a node of an ascending list by one with the same key. */
  lemma EqualOrder(text: Text, a: seq<int>, p: int, b: seq<int>, r: int)
    requires IsPos(p) && IsPos(r) && KeyAt(text, p) == KeyAt(text, r)
    requires AllPos(a + [p] + b) && Ascending(text, a + [p] + b)
    ensures AllPos(a + [r] + b) && Ascending(text, a + [r] + b)
    ensures InsertSorted(text, a + [p] + b, r) == a + [r] + b
  {
    AscendingAround(text, a, p, b);
    AscendingInsert(text, a, b, r);
    InsertSortedEqual(text, a, p, b, r);
  }

  lemma EqualParts(text: Text, c: Context, l: Tree, p: int, rt: Tree, r: int)
    requires AllPos(InOrder(Plug(c, Node(l, p, rt)))) && Ascending(text, InOrder(Plug(c, Node(l, p, rt))))
    requires AllPos(InOrder(Plug(c, Node(l, r, rt)))) && Ascending(text, InOrder(Plug(c, Node(l, r, rt))))
    requires r !in InOrder(Plug(c, Node(l, p, rt)))
    ensures NoDup(InOrder(l) + [p] + InOrder(rt)) && NoDup(Before(c) + InOrder(Node(l, r, rt)) + After(c))
    ensures forall v :: v in Before(c) || v in After(c) ==> v !in InOrder(l) && v !in InOrder(rt) && v != p && v != r
    ensures r !in InOrder(l) && r !in InOrder(rt) && p !in InOrder(l) && p !in InOrder(rt) && p != r
    ensures p !in InOrder(Node(l, r, rt))
  {
    InOrderPlug(c, Node(l, p, rt));
    InOrderPlug(c, Node(l, r, rt));
    AscendingDistinct(text, InOrder(Plug(c, Node(l, p, rt))));
    AscendingDistinct(text, InOrder(Plug(c, Node(l, r, rt))));
    NoDupParts(Before(c), InOrder(Node(l, p, rt)), After(c));
    NoDupParts(InOrder(l), [p], InOrder(rt));
    assert p in [p];
    assert forall v :: v in InOrder(Node(l, p, rt)) <==> v in InOrder(l) || v == p || v in InOrder(rt);
    assert forall v :: v in InOrder(Node(l, r, rt)) <==> v in InOrder(l) || v == r || v in InOrder(rt);
  }

  // ---- delete_node -------------------------------------------------------------------

  lemma DeleteOrder(text: Text, c: Context, l: Tree, p: int, rt: Tree, t: Tree)
    requires AllPos(InOrder(Plug(c, Node(l, p, rt)))) && Ascending(text, InOrder(Plug(c, Node(l, p, rt))))
    requires InOrder(t) == InOrder(l) + InOrder(rt)
    ensures InOrder(Plug(c, t)) == Without(InOrder(Plug(c, Node(l, p, rt))), p)
    ensures AllPos(InOrder(Plug(c, t))) && Ascending(text, InOrder(Plug(c, t)))
    ensures forall v :: v in InOrder(Plug(c, t)) <==> v in InOrder(Plug(c, Node(l, p, rt))) && v != p
    ensures NoDup(Before(c) + InOrder(t) + After(c))
  {
    SplitAround(text, c, l, p, rt);
    RemoveOrder(text, Before(c) + InOrder(l), p, InOrder(rt) + After(c));
    InOrderPlug(c, t);
    Surround(Before(c), InOrder(l), [], InOrder(rt), After(c));
  }

  lemma RemoveOrder(text: Text, a: seq<int>, p: int, b: seq<int>)
    requires AllPos(a + [p] + b) && Ascending(text, a + [p] + b)
    ensures a + b == Without(a + [p] + b, p)
    ensures AllPos(a + b) && Ascending(text, a + b) && NoDup(a + b)
    ensures forall v :: v in a + b <==> v in a + [p] + b && v != p
  {
    AscendingAround(text, a, p, b);
    AscendingRemove(text, a, p, b);
    WithoutMiddle(a, p, b);
    WithoutMembers(a + [p] + b, p);
    AscendingDistinct(text, a + b);
  }

  lemma DeleteDisjoint(text: Text, c: Context, l: Tree, p: int, rt: Tree)
    requires AllPos(InOrder(Plug(c, Node(l, p, rt)))) && Ascending(text, InOrder(Plug(c, Node(l, p, rt))))
    ensures NoDup(InOrder(l) + [p] + InOrder(rt))
    ensures forall v :: v in Before(c) || v in After(c) ==> v !in InOrder(l) && v !in InOrder(rt) && v != p
    ensures p !in InOrder(l) && p !in InOrder(rt)
    ensures forall v :: v in InOrder(l) ==> v !in InOrder(rt)
  {
    InOrderPlug(c, Node(l, p, rt));
    AscendingDistinct(text, InOrder(Plug(c, Node(l, p, rt))));
    NoDupParts(Before(c), InOrder(Node(l, p, rt)), After(c));
    NoDupParts(InOrder(l), [p], InOrder(rt));
    assert p in [p];
    assert forall v :: v in InOrder(Node(l, p, rt)) <==> v in InOrder(l) || v == p || v in InOrder(rt);
  }

  /** Lines 294-300, once index q holds the other nodes of the subtree of p. */
  lemma DeleteRep(k: Links, m: Links, c: Context, p: int, t: Tree, q: int, par: int, root: int)
    requires Sized(k) && Sized(m) && IsRoot(root) && IsPos(p) && 0 <= q <= NIL
    requires NoDup(Before(c) + InOrder(t) + After(c))
    requires p !in Before(c) && p !in After(c) && p !in InOrder(t)
    requires Seg(c, p, k.pa[p], k.rc[root], root, k) && Rep(t, q, par, m)
    requires OnlyAt(k, m, InOrder(t)) && m.pa[p] == k.pa[p]
    requires forall i :: IsRoot(i) ==> k.rc[i] == m.rc[i]
    ensures 0 <= m.pa[p] < N + 257 && (m.rc[m.pa[p]] != p ==> m.pa[p] <= N)
    ensures var k' := Hoist(m, p, q);
            && Rep(Plug(c, t), k'.rc[root], root, k')
            && OnlyAt(k, k', Before(c) + InOrder(t) + [p] + After(c))
            && RootsExcept(k, k', root)
            && k'.pa[p] == NIL
  {
    SegPositions(c, p, k.pa[p], k.rc[root], root, k);
    assert q != p by {
      RepPositions(t, q, par, m);
      assert q != NIL ==> t.pos == q && q in InOrder(t);
    }
    assert Agree(k, m, Before(c)) && Agree(k, m, After(c)) by {
      NoDupParts(Before(c), InOrder(t), After(c));
    }
    SegFrame(c, p, k.pa[p], k.rc[root], root, k, m);
    HoistRep(m, c, t, p, q, par, root);
    MoreMembers(Before(c), InOrder(t), p, After(c));
    OnlyAtTrans(k, m, Hoist(m, p, q), InOrder(t), Before(c) + InOrder(t) + [p] + After(c),
                Before(c) + InOrder(t) + [p] + After(c));
  }

  lemma MoreMembers(a: seq<int>, b: seq<int>, p: int, c: seq<int>)
    ensures forall v :: v in a + b + [p] + c <==> v in a || v in b || v == p || v in c
  {
  }

  lemma PlugMembers(c: Context, l: Tree, p: int, rt: Tree)
    ensures forall v :: v in InOrder(Plug(c, Node(l, p, rt))) <==>
              v in Before(c) || v in InOrder(l) || v == p || v in InOrder(rt) || v in After(c)
  {
    InOrderPlug(c, Node(l, p, rt));
    assert forall v :: v in InOrder(Node(l, p, rt)) <==> v in InOrder(l) || v == p || v in InOrder(rt);
  }

  /** From links k to links m, only the subtrees l and rt of p changed, and q now holds them as t. */
  ghost predicate Gathered(k: Links, m: Links, l: Tree, p: int, rt: Tree, t: Tree, q: int, par: int)
    requires Sized(k) && Sized(m) && IsPos(p)
  {
    && 0 <= q <= NIL && q != p
    && Rep(t, q, par, m) && InOrder(t) == InOrder(l) + InOrder(rt)
    && OnlyAt(k, m, InOrder(l) + InOrder(rt)) && m.pa[p] == k.pa[p]
    && forall i :: IsRoot(i) ==> k.rc[i] == m.rc[i]
  }

  lemma DeleteTree(text: Text, k: Links, m: Links, c: Context, l: Tree, p: int, rt: Tree, t: Tree, q: int,
                   par: int, b: Byte)
    requires Sized(k) && Sized(m) && IsPos(p) && TreeOk(text, k, Plug(c, Node(l, p, rt)), b)
    requires Seg(c, p, k.pa[p], k.rc[RootOf(b)], RootOf(b), k)
    requires Gathered(k, m, l, p, rt, t, q, par)
    ensures 0 <= m.pa[p] < N + 257 && (m.rc[m.pa[p]] != p ==> m.pa[p] <= N)
    ensures InOrder(Plug(c, t)) == Without(InOrder(Plug(c, Node(l, p, rt))), p)
    ensures Replaces(text, k, Hoist(m, p, q), Plug(c, Node(l, p, rt)), Plug(c, t), b,
                     Before(c) + InOrder(t) + [p] + After(c))
  {
    DeleteOrder(text, c, l, p, rt, t);
    DeleteCover(text, c, l, p, rt, t, b);
    DeleteRep(k, m, c, p, t, q, par, RootOf(b));
  }

  lemma DeleteForest(text: Text, k: Links, m: Links, trees: seq<Tree>, c: Context, l: Tree, p: int, rt: Tree,
                     t: Tree, q: int, par: int)
    requires Forest(text, k, trees) && Sized(m) && IsPos(p)
    requires Plug(c, Node(l, p, rt)) == trees[text[p]]
    requires Seg(c, p, k.pa[p], k.rc[RootOf(text[p])], RootOf(text[p]), k)
    requires Gathered(k, m, l, p, rt, t, q, par)
    ensures 0 <= m.pa[p] < N + 257 && (m.rc[m.pa[p]] != p ==> m.pa[p] <= N)
    ensures Forest(text, Hoist(m, p, q), trees[text[p] := Plug(c, t)])
    ensures InOrder(Plug(c, t)) == Without(InOrder(trees[text[p]]), p)
  {
    var b := text[p];
    assert TreeOk(text, k, trees[b], b);
    DeleteTree(text, k, m, c, l, p, rt, t, q, par, b);
    ForestUpdate(text, k, Hoist(m, p, q), trees, b, Plug(c, t), Before(c) + InOrder(t) + [p] + After(c));
  }

  /** The nodes that a deletion touches are those of the tree, and only p leaves it. */
  lemma DeleteCover(text: Text, c: Context, l: Tree, p: int, rt: Tree, t: Tree, b: Byte)
    requires AllPos(InOrder(Plug(c, Node(l, p, rt)))) && Ascending(text, InOrder(Plug(c, Node(l, p, rt))))
    requires forall v :: v in InOrder(Plug(c, Node(l, p, rt))) ==> text[v] == b
    requires InOrder(t) == InOrder(l) + InOrder(rt)
    ensures p !in Before(c) && p !in After(c) && p !in InOrder(t)
    ensures forall v :: v in Before(c) + InOrder(t) + [p] + After(c) ==>
              IsPos(v) && text[v] == b && (v != p ==> v in InOrder(Plug(c, t)))
    ensures forall v :: v in InOrder(Plug(c, Node(l, p, rt))) ==> v in Before(c) + InOrder(t) + [p] + After(c)
  {
    DeleteDisjoint(text, c, l, p, rt);
    MoreMembers(Before(c), InOrder(t), p, After(c));
    PlugMembers(c, l, p, rt);
    InOrderPlug(c, t);
  }

  /** Lines 286-289, which are skipped when the predecessor is p's left child itself. */
  function Detached(k: Links, s: Context, p: int, q: int): (k': Links)
    requires Sized(k) && IsPos(p) && IsPos(q) && IsPos(k.pa[q]) && 0 <= k.lc[q] <= NIL && 0 <= k.lc[p] <= NIL
    ensures Sized(k')
  {
    if s.Top? then k else DetachMax(k, p, q)
  }

  lemma PairNoDup(a: seq<int>, q: int, p: int, b: seq<int>)
    requires NoDup(a + [q] + [p] + b)
    ensures NoDup(a + [q] + [p])
    ensures p != q && q !in a && p !in a && q !in b && p !in b
    ensures forall v :: v in a ==> v !in b
  {
    var s := a + [q] + [p] + b;
    assert forall i :: 0 <= i < |a| + 2 ==> (a + [q] + [p])[i] == s[i];
    assert forall i :: 0 <= i < |a| ==> s[i] == a[i];
    assert forall i :: 0 <= i < |b| ==> s[|a| + 2 + i] == b[i];
    assert s[|a|] == q && s[|a| + 1] == p;
  }

  /** The predecessor q of p, at the end of right spine s, becomes the root of the subtree of p. */
  lemma PredecessorRep(k: Links, s: Context, ql: Tree, p: int, q: int, rt: Tree, par: int)
    requires Sized(k) && IsPos(p) && IsPos(q) && RightSpine(s)
    requires Seg(s, q, par, k.lc[p], p, k) && Rep(Node(ql, q, Leaf), q, par, k) && Rep(rt, k.rc[p], p, k)
    requires NoDup(Before(s) + InOrder(ql) + [q] + [p] + InOrder(rt))
    ensures IsPos(k.pa[q]) && 0 <= k.lc[q] <= NIL && 0 <= k.lc[p] <= NIL && 0 <= k.rc[p] <= NIL
    ensures Detached(k, s, p, q).rc[p] == k.rc[p]
    ensures var m := AdoptRight(Detached(k, s, p, q), p, q);
            && Rep(Node(Plug(s, ql), q, rt), q, m.pa[q], m)
            && OnlyAt(k, m, Before(s) + InOrder(ql) + [q] + InOrder(rt))
            && m.pa[p] == k.pa[p]
            && forall i :: IsRoot(i) ==> k.rc[i] == m.rc[i]
  {
    RepPositions(ql, k.lc[q], q, k);
    var front := Before(s) + InOrder(ql);
    PairNoDup(front, q, p, InOrder(rt));
    RightSpineAfter(s);
    InOrderPlug(s, ql);
    assert InOrder(Plug(s, ql)) == front;
    if s != Top {
      DetachMaxRep(k, s, ql, p, q, par);
    }
    var d := Detached(k, s, p, q);
    RepPositions(rt, k.rc[p], p, k);
    assert Agree(k, d, InOrder(rt));
    RepFrame(rt, k.rc[p], p, k, d);
    AdoptRightRep(d, Plug(s, ql), rt, p, q, d.pa[q]);
    var m := AdoptRight(d, p, q);
    OnlyAtTrans(k, d, m, front + [q], [q] + InOrder(rt), front + [q] + InOrder(rt));
  }
}
