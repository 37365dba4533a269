/**
 The updates of the link arrays that insert_node and delete_node are made of, as
 functions on the links, and what each does to the represented tree.
 */
module LzssSurgery {
  import opened LzssKeys
  import opened LzssTrees
  import opened Sequences

  /** Nothing changes except at the listed nodes (and the links of NIL, which nothing reads). */
  ghost predicate OnlyAt(k: Links, k': Links, s: seq<int>)
    requires Sized(k) && Sized(k')
  {
    forall v :: IsPos(v) && v !in s ==> AgreeAt(k, k', v)
  }

  predicate IsRoot(i: int) { N < i < N + 257 }

  /** Root slots other than `root` keep their tree. */
  ghost predicate RootsExcept(k: Links, k': Links, root: int)
    requires Sized(k) && Sized(k')
  {
    forall i :: IsRoot(i) && i != root ==> k.rc[i] == k'.rc[i]
  }

  /** A tree whose root gets a new parent link. */
  lemma RepReparent(t: Tree, x: int, par: int, par': int, k: Links, k': Links)
    requires Sized(k) && Sized(k') && Rep(t, x, par, k) && NoDup(InOrder(t))
    requires 0 <= x <= NIL
    requires Agree(k.(pa := k.pa[x := par']), k', InOrder(t))
    ensures Rep(t, x, par', k')
  {
    var m := k.(pa := k.pa[x := par']);
    match t
    case Leaf =>
    case Node(l, v, r) =>
      assert v in InOrder(t) && AgreeAt(m, k', v);
      NoDupMiddle(InOrder(l), v, InOrder(r));
      forall u | u in InOrder(l) || u in InOrder(r) ensures AgreeAt(k, k', u) {
        assert AgreeAt(m, k', u);
      }
      RepFrame(l, k.lc[v], v, k, k');
      RepFrame(r, k.rc[v], v, k, k');
  }

  // ---- A new leaf -----------------------------------------------------------------

  /** insert_node, lines 229-230 and 237-238. */
  function LinkLeaf(k: Links, c: Context, p: int, r: int): (k': Links)
    requires Sized(k) && IsPos(r)
    requires if c.InLeft? then IsPos(p) else 0 <= p < N + 257
    ensures Sized(k')
  {
    var m := SetHole(k, c, p, r);
    m.(pa := m.pa[r := p])
  }

  lemma LinkLeafRep(k: Links, c: Context, p: int, r: int, root: int)
    requires Sized(k) && IsPos(r) && IsRoot(root)
    requires k.lc[r] == NIL && k.rc[r] == NIL
    requires Seg(c, NIL, p, k.rc[root], root, k)
    requires NoDup(Before(c) + After(c)) && r !in Before(c) && r !in After(c)
    ensures if c.InLeft? then IsPos(p) else 0 <= p < N + 257
    ensures Rep(Plug(c, Node(Leaf, r, Leaf)), LinkLeaf(k, c, p, r).rc[root], root, LinkLeaf(k, c, p, r))
    ensures OnlyAt(k, LinkLeaf(k, c, p, r), Before(c) + [r] + After(c))
    ensures RootsExcept(k, LinkLeaf(k, c, p, r), root)
  {
    SegPositions(c, NIL, p, k.rc[root], root, k);
    var k' := LinkLeaf(k, c, p, r);
    SegSetHole(c, NIL, p, k.rc[root], root, k, k', r);
    RepPlug(c, Node(Leaf, r, Leaf), r, p, Outer(c, k.rc[root], r), root, k');
  }

  // ---- Putting another node in the place of p --------------------------------------

  /** The end of insert_node (lines 254, 259-264) and of delete_node (lines 294-300). */
  function Hoist(k: Links, p: int, q: int): (k': Links)
    requires Sized(k) && IsPos(p) && 0 <= q <= NIL && 0 <= k.pa[p] < N + 257
    requires k.rc[k.pa[p]] != p ==> k.pa[p] <= N
    ensures Sized(k')
  {
    var par := k.pa[p];
    var m := k.(pa := k.pa[q := par]);
    var n := if m.rc[par] == p then m.(rc := m.rc[par := q]) else m.(lc := m.lc[par := q]);
    n.(pa := n.pa[p := NIL])
  }

  /** The test of lines 259 and 295 finds the side on which p hangs. */
  lemma SideOf(k: Links, c: Context, p: int, root: int)
    requires Sized(k) && IsPos(p) && IsRoot(root)
    requires Seg(c, p, k.pa[p], k.rc[root], root, k)
    requires p !in Before(c) && p !in After(c)
    ensures 0 <= k.pa[p] < N + 257 && k.pa[p] != NIL
    ensures c.InLeft? <==> k.rc[k.pa[p]] != p
    ensures c.InLeft? ==> IsPos(k.pa[p])
    ensures c.Top? <==> k.pa[p] == root
  {
  }

  /** Redirecting the hole and clearing p leaves the context of p as it was, around q. */
  lemma HoistContext(k: Links, c: Context, p: int, q: int, root: int)
    requires Sized(k) && IsPos(p) && IsRoot(root) && 0 <= q <= NIL
    requires Seg(c, p, k.pa[p], k.rc[root], root, k)
    requires NoDup(Before(c) + After(c))
    requires p !in Before(c) && p !in After(c) && q !in Before(c) && q !in After(c)
    ensures 0 <= k.pa[p] < N + 257 && (k.rc[k.pa[p]] != p ==> k.pa[p] <= N)
    ensures Seg(c, q, k.pa[p], Hoist(k, p, q).rc[root], root, Hoist(k, p, q))
  {
    SideOf(k, c, p, root);
    SegPositions(c, p, k.pa[p], k.rc[root], root, k);
    var up := k.pa[p];
    var k' := Hoist(k, p, q);
    forall u | u in Before(c) || u in After(c) ensures AgreeAt(SetHole(k, c, up, q), k', u) {
    }
    SegSetHole(c, p, up, k.rc[root], root, k, k', q);
  }

  lemma HoistSubtree(k: Links, t: Tree, p: int, q: int, par: int)
    requires Sized(k) && IsPos(p) && 0 <= q <= NIL && p != q
    requires 0 <= k.pa[p] < N + 257 && (k.rc[k.pa[p]] != p ==> k.pa[p] <= N)
    requires Rep(t, q, par, k) && NoDup(InOrder(t)) && p !in InOrder(t) && k.pa[p] !in InOrder(t)
    ensures Rep(t, q, k.pa[p], Hoist(k, p, q))
  {
    RepPositions(t, q, par, k);
    RepReparent(t, q, par, k.pa[p], k, Hoist(k, p, q));
  }

  lemma HoistFrame(k: Links, p: int, q: int, root: int, s: seq<int>)
    requires Sized(k) && IsPos(p) && IsRoot(root) && 0 <= q <= NIL
    requires 0 <= k.pa[p] < N + 257 && (k.rc[k.pa[p]] != p ==> k.pa[p] <= N)
    requires k.pa[p] == root || (IsPos(k.pa[p]) && k.pa[p] in s)
    requires p in s && (q != NIL ==> q in s)
    ensures OnlyAt(k, Hoist(k, p, q), s)
    ensures RootsExcept(k, Hoist(k, p, q), root)
    ensures Hoist(k, p, q).pa[p] == NIL
  {
  }

  /** The node above p, or the root slot, is not in what takes the place of p. */
  lemma HoistParts(k: Links, c: Context, t: Tree, p: int, q: int, par: int, root: int)
    requires Sized(k) && IsPos(p) && IsRoot(root)
    requires Seg(c, p, k.pa[p], k.rc[root], root, k) && Rep(t, q, par, k)
    requires NoDup(Before(c) + InOrder(t) + After(c)) && p !in Before(c) && p !in After(c)
    ensures 0 <= k.pa[p] < N + 257 && (k.rc[k.pa[p]] != p ==> k.pa[p] <= N)
    ensures var s := Before(c) + InOrder(t) + [p] + After(c);
            p in s && (q != NIL ==> q in s) && (k.pa[p] == root || (IsPos(k.pa[p]) && k.pa[p] in s))
    ensures NoDup(InOrder(t)) && NoDup(Before(c) + After(c)) && k.pa[p] !in InOrder(t)
    ensures q !in Before(c) && q !in After(c)
  {
    SideOf(k, c, p, root);
    SegPositions(c, p, k.pa[p], k.rc[root], root, k);
    RepPositions(t, q, par, k);
    NoDupParts(Before(c), InOrder(t), After(c));
    assert q != NIL ==> t.pos == q && q in InOrder(t);
  }

  lemma HoistRep(k: Links, c: Context, t: Tree, p: int, q: int, par: int, root: int)
    requires Sized(k) && IsPos(p) && IsRoot(root) && 0 <= q <= NIL && p != q
    requires Seg(c, p, k.pa[p], k.rc[root], root, k) && Rep(t, q, par, k)
    requires NoDup(Before(c) + InOrder(t) + After(c))
    requires p !in Before(c) && p !in After(c) && p !in InOrder(t)
    ensures 0 <= k.pa[p] < N + 257 && (k.rc[k.pa[p]] != p ==> k.pa[p] <= N)
    ensures Rep(Plug(c, t), Hoist(k, p, q).rc[root], root, Hoist(k, p, q))
    ensures OnlyAt(k, Hoist(k, p, q), Before(c) + InOrder(t) + [p] + After(c))
    ensures RootsExcept(k, Hoist(k, p, q), root)
    ensures Hoist(k, p, q).pa[p] == NIL
  {
    HoistParts(k, c, t, p, q, par, root);
    HoistFrame(k, p, q, root, Before(c) + InOrder(t) + [p] + After(c));
    HoistContext(k, c, p, q, root);
    HoistSubtree(k, t, p, q, par);
    var k' := Hoist(k, p, q);
    RepPlug(c, t, q, k.pa[p], k'.rc[root], root, k');
  }

  lemma NoDupParts(a: seq<int>, b: seq<int>, c: seq<int>)
    requires NoDup(a + b + c)
    ensures NoDup(a) && NoDup(b) && NoDup(c) && NoDup(a + c) && NoDup(a + b) && NoDup(b + c)
    ensures forall u :: u in a ==> u !in b && u !in c
    ensures forall u :: u in b ==> u !in c
  {
    var s := a + b + c;
    assert forall i :: 0 <= i < |a| ==> s[i] == a[i];
    assert forall i :: 0 <= i < |b| ==> s[|a| + i] == b[i];
    assert forall i :: 0 <= i < |c| ==> s[|a| + |b| + i] == c[i];
    forall i, j | 0 <= i < j < |a + c| ensures (a + c)[i] != (a + c)[j] {
      var i', j' := if i < |a| then i else i + |b|, if j < |a| then j else j + |b|;
      assert s[i'] == (a + c)[i] && s[j'] == (a + c)[j];
    }
    assert forall i :: 0 <= i < |a + b| ==> s[i] == (a + b)[i];
    assert forall i :: 0 <= i < |b + c| ==> s[|a| + i] == (b + c)[i];
  }

  // ---- insert_node: r takes over the links of an equal key p ------------------------

  /** Lines 254-258. */
  function TakeOver(k: Links, p: int, r: int): (k': Links)
    requires Sized(k) && IsPos(p) && IsPos(r) && 0 <= k.lc[p] <= NIL && 0 <= k.rc[p] <= NIL
    ensures Sized(k')
  {
    Links(k.lc[r := k.lc[p]], k.rc[r := k.rc[p]], k.pa[r := k.pa[p]][k.lc[p] := r][k.rc[p] := r])
  }

  lemma TakeOverParts(k: Links, l: Tree, p: int, rt: Tree, par: int)
    requires Sized(k) && IsPos(p) && Rep(Node(l, p, rt), p, par, k) && NoDup(InOrder(l) + [p] + InOrder(rt))
    ensures 0 <= k.lc[p] <= NIL && (k.lc[p] != NIL ==> k.lc[p] in InOrder(l))
    ensures 0 <= k.rc[p] <= NIL && (k.rc[p] != NIL ==> k.rc[p] in InOrder(rt))
    ensures AllPos(InOrder(l)) && AllPos(InOrder(rt)) && NoDup(InOrder(l)) && NoDup(InOrder(rt))
    ensures p !in InOrder(l) && p !in InOrder(rt) && forall u :: u in InOrder(l) ==> u !in InOrder(rt)
  {
    NoDupParts(InOrder(l), [p], InOrder(rt));
    RepPositions(l, k.lc[p], p, k);
    RepPositions(rt, k.rc[p], p, k);
    assert l.Node? ==> l.pos == k.lc[p] && k.lc[p] in InOrder(l);
    assert rt.Node? ==> rt.pos == k.rc[p] && k.rc[p] in InOrder(rt);
    assert p in [p];
  }

  lemma TakeOverFrame(k: Links, p: int, r: int, s: seq<int>)
    requires Sized(k) && IsPos(p) && IsPos(r) && 0 <= k.lc[p] <= NIL && 0 <= k.rc[p] <= NIL && p !in s
    requires r in s && (k.lc[p] != NIL ==> k.lc[p] in s) && (k.rc[p] != NIL ==> k.rc[p] in s)
    ensures OnlyAt(k, TakeOver(k, p, r), s)
    ensures TakeOver(k, p, r).pa[p] == k.pa[p]
    ensures forall i :: IsRoot(i) ==> k.rc[i] == TakeOver(k, p, r).rc[i]
  {
  }

  /** In one subtree of p only the parent link of its root changes. */
  lemma TakeOverAgree(k: Links, p: int, r: int, s: seq<int>, x: int, y: int)
    requires Sized(k) && IsPos(p) && IsPos(r) && 0 <= x <= NIL && 0 <= y <= NIL && AllPos(s) && r !in s && y !in s
    requires (k.lc[p] == x && k.rc[p] == y) || (k.lc[p] == y && k.rc[p] == x)
    ensures Agree(k.(pa := k.pa[x := r]), TakeOver(k, p, r), s)
  {
  }

  lemma TakeOverRep(k: Links, l: Tree, p: int, rt: Tree, r: int, par: int)
    requires Sized(k) && IsPos(p) && IsPos(r) && p != r
    requires Rep(Node(l, p, rt), p, par, k)
    requires NoDup(InOrder(l) + [p] + InOrder(rt)) && r !in InOrder(l) && r !in InOrder(rt)
    ensures 0 <= k.lc[p] <= NIL && 0 <= k.rc[p] <= NIL
    ensures Rep(Node(l, r, rt), r, par, TakeOver(k, p, r))
    ensures OnlyAt(k, TakeOver(k, p, r), InOrder(l) + InOrder(rt) + [r])
    ensures TakeOver(k, p, r).pa[p] == par
    ensures forall i :: IsRoot(i) ==> k.rc[i] == TakeOver(k, p, r).rc[i]
  {
    TakeOverParts(k, l, p, rt, par);
    TakeOverFrame(k, p, r, InOrder(l) + InOrder(rt) + [r]);
    var k', x, y := TakeOver(k, p, r), k.lc[p], k.rc[p];
    TakeOverAgree(k, p, r, InOrder(l), x, y);
    TakeOverAgree(k, p, r, InOrder(rt), y, x);
    RepReparent(l, x, p, r, k, k');
    RepReparent(rt, y, p, r, k, k');
  }

  // ---- delete_node: the predecessor q takes the place of p ---------------------------

  /** Lines 286-289: take q out of the right spine of p's left child and give it p's left child. */
  function DetachMax(k: Links, p: int, q: int): (k': Links)
    requires Sized(k) && IsPos(p) && IsPos(q) && IsPos(k.pa[q]) && 0 <= k.lc[q] <= NIL && 0 <= k.lc[p] <= NIL
    ensures Sized(k')
  {
    Links(k.lc[q := k.lc[p]],
          k.rc[k.pa[q] := k.lc[q]],
          k.pa[k.lc[q] := k.pa[q]][k.lc[p] := q])
  }

  /** Lines 291-292. */
  function AdoptRight(k: Links, p: int, q: int): (k': Links)
    requires Sized(k) && IsPos(p) && IsPos(q) && 0 <= k.rc[p] <= NIL
    ensures Sized(k')
  {
    k.(rc := k.rc[q := k.rc[p]], pa := k.pa[k.rc[p] := q])
  }

  /** c goes to the right at every node: the hole is the right end of what it is part of. */
  predicate RightSpine(c: Context) {
    match c
    case Top => true
    case InLeft(_, _, _) => false
    case InRight(_, _, up) => RightSpine(up)
  }

  lemma {:induction false} RightSpineAfter(c: Context)
    requires RightSpine(c)
    ensures After(c) == []
  {
    if c.InRight? { RightSpineAfter(c.up); }
  }

  lemma {:induction false} SegOuterNode(c: Context, x: int, par: int, x0: int, par0: int, k: Links)
    requires Sized(k) && Seg(c, x, par, x0, par0, k) && c != Top
    ensures x0 in Before(c) || x0 in After(c)
    ensures IsPos(x0) && k.pa[x0] == par0
  {
    if c.up != Top {
      SegOuterNode(c.up, c.pos, k.pa[c.pos], x0, par0, k);
    }
  }

  /**
   q ends the right spine s of the left subtree of p.  Afterwards q holds the rest of
   that subtree as its own left subtree.
   */
  lemma DetachMaxRep(k: Links, s: Context, ql: Tree, p: int, q: int, par: int)
    requires Sized(k) && IsPos(p) && IsPos(q) && s.InRight? && RightSpine(s)
    requires Seg(s, q, par, k.lc[p], p, k) && Rep(Node(ql, q, Leaf), q, par, k)
    requires NoDup(Before(s) + InOrder(ql) + [q] + [p])
    ensures IsPos(k.pa[q]) && 0 <= k.lc[q] <= NIL && 0 <= k.lc[p] <= NIL
    ensures Rep(Plug(s, ql), DetachMax(k, p, q).lc[q], q, DetachMax(k, p, q))
    ensures OnlyAt(k, DetachMax(k, p, q), Before(s) + InOrder(ql) + [q])
    ensures DetachMax(k, p, q).pa[p] == k.pa[p] && DetachMax(k, p, q).rc[p] == k.rc[p]
    ensures forall i :: IsRoot(i) ==> k.rc[i] == DetachMax(k, p, q).rc[i]
  {
    DetachMaxParts(k, s, ql, p, q, par);
    DetachMaxDistinct(Before(s), InOrder(ql), q, p);
    FillHole(k, s, ql, p, q, par);
    InOrderPlug(s, ql);
    assert Before(s) + InOrder(ql) + [] == Before(s) + InOrder(ql);
    var m := Links(k.lc, k.rc[par := k.lc[q]], k.pa[k.lc[q] := par]);
    var k' := DetachMax(k, p, q);
    var t := Plug(s, ql);
    forall u | u in InOrder(t) ensures AgreeAt(m.(pa := m.pa[k.lc[p] := q]), k', u) {
      assert u != q;
    }
    RepReparent(t, k.lc[p], p, q, m, k');
    DetachMaxFrame(k, Before(s) + InOrder(ql) + [q], p, q);
  }

  lemma DetachMaxFrame(k: Links, s: seq<int>, p: int, q: int)
    requires Sized(k) && IsPos(p) && IsPos(q) && IsPos(k.pa[q]) && 0 <= k.lc[q] <= NIL && IsPos(k.lc[p])
    requires q in s && k.pa[q] in s && k.lc[p] in s && (k.lc[q] != NIL ==> k.lc[q] in s) && p !in s
    ensures OnlyAt(k, DetachMax(k, p, q), s)
    ensures DetachMax(k, p, q).pa[p] == k.pa[p] && DetachMax(k, p, q).rc[p] == k.rc[p]
    ensures forall i :: IsRoot(i) ==> k.rc[i] == DetachMax(k, p, q).rc[i]
  {
  }

  /** Before(s), the subtree of q, q and p have no node in common. */
  lemma DetachMaxDistinct(a: seq<int>, b: seq<int>, q: int, p: int)
    requires NoDup(a + b + [q] + [p])
    ensures NoDup(a) && NoDup(b) && NoDup(a + b) && forall u :: u in a ==> u !in b
    ensures q !in a && q !in b && p !in a && p !in b && p != q
  {
    var qp := [q] + [p];
    Regroup(a + b, [q], [p]);
    NoDupParts(a, b, qp);
    assert qp[0] == q && qp[1] == p && q in qp && p in qp;
  }

  lemma DetachMaxParts(k: Links, s: Context, ql: Tree, p: int, q: int, par: int)
    requires Sized(k) && IsPos(p) && IsPos(q) && s.InRight? && RightSpine(s)
    requires Seg(s, q, par, k.lc[p], p, k) && Rep(Node(ql, q, Leaf), q, par, k)
    ensures After(s) == []
    ensures k.pa[q] == par && IsPos(par) && par in Before(s)
    ensures IsPos(k.lc[p]) && k.lc[p] in Before(s)
    ensures 0 <= k.lc[q] <= NIL && (k.lc[q] != NIL ==> k.lc[q] in InOrder(ql))
    ensures AllPos(Before(s)) && AllPos(InOrder(ql))
  {
    RightSpineAfter(s);
    SegPositions(s, q, par, k.lc[p], p, k);
    RepPositions(ql, k.lc[q], q, k);
    SegOuterNode(s, q, par, k.lc[p], p, k);
    assert ql.Node? ==> ql.pos == k.lc[q] && k.lc[q] in InOrder(ql);
  }

  /** Lines 286-287: the hole at q is filled with q's left subtree. */
  lemma FillHole(k: Links, s: Context, ql: Tree, p: int, q: int, par: int)
    requires Sized(k) && IsPos(p) && IsPos(q) && IsPos(par) && s.InRight? && After(s) == []
    requires Seg(s, q, par, k.lc[p], p, k) && Rep(ql, k.lc[q], q, k)
    requires 0 <= k.lc[q] <= NIL
    requires NoDup(Before(s)) && NoDup(InOrder(ql))
    requires forall u :: u in Before(s) ==> u !in InOrder(ql)
    ensures Rep(Plug(s, ql), k.lc[p], p, Links(k.lc, k.rc[par := k.lc[q]], k.pa[k.lc[q] := par]))
  {
    var m := Links(k.lc, k.rc[par := k.lc[q]], k.pa[k.lc[q] := par]);
    SegPositions(s, q, par, k.lc[p], p, k);
    RepPositions(ql, k.lc[q], q, k);
    assert Before(s) + After(s) == Before(s);
    assert ql.Node? ==> ql.pos == k.lc[q] && k.lc[q] in InOrder(ql);
    SegSetHole(s, q, par, k.lc[p], p, k, m, k.lc[q]);
    RepReparent(ql, k.lc[q], q, par, k, m);
    RepPlug(s, ql, k.lc[q], par, k.lc[p], p, m);
  }

  lemma AdoptRightFrame(k: Links, p: int, q: int, s: seq<int>)
    requires Sized(k) && IsPos(p) && IsPos(q) && 0 <= k.rc[p] <= NIL
    requires q in s && p !in s && (k.rc[p] != NIL ==> k.rc[p] in s)
    ensures OnlyAt(k, AdoptRight(k, p, q), s)
    ensures AdoptRight(k, p, q).pa[p] == k.pa[p]
    ensures forall i :: IsRoot(i) ==> k.rc[i] == AdoptRight(k, p, q).rc[i]
  {
  }

  /** The subtrees of q and p, and both nodes, have no node in common. */
  lemma AdoptRightDistinct(l: seq<int>, q: int, p: int, rt: seq<int>)
    requires NoDup(l + [q] + [p] + rt)
    ensures NoDup(rt) && forall u :: u in l ==> u !in rt
    ensures q !in l && q !in rt && p !in rt && p != q
  {
    var qp := [q] + [p];
    Regroup(l, [q], [p]);
    NoDupParts(l, qp, rt);
    assert qp[0] == q && qp[1] == p && q in qp && p in qp;
  }

  lemma AdoptRightRep(k: Links, l: Tree, rt: Tree, p: int, q: int, par: int)
    requires Sized(k) && IsPos(p) && IsPos(q)
    requires Rep(l, k.lc[q], q, k) && Rep(rt, k.rc[p], p, k) && k.pa[q] == par
    requires NoDup(InOrder(l) + [q] + [p] + InOrder(rt))
    ensures 0 <= k.rc[p] <= NIL
    ensures Rep(Node(l, q, rt), q, par, AdoptRight(k, p, q))
    ensures OnlyAt(k, AdoptRight(k, p, q), [q] + InOrder(rt))
    ensures AdoptRight(k, p, q).pa[p] == k.pa[p]
    ensures forall i :: IsRoot(i) ==> k.rc[i] == AdoptRight(k, p, q).rc[i]
  {
    AdoptRightDistinct(InOrder(l), q, p, InOrder(rt));
    RepPositions(rt, k.rc[p], p, k);
    assert rt.Node? ==> rt.pos == k.rc[p] && k.rc[p] in InOrder(rt);
    AdoptRightFrame(k, p, q, [q] + InOrder(rt));
    var k' := AdoptRight(k, p, q);
    RepFrame(l, k.lc[q], q, k, k');
    RepReparent(rt, k.rc[p], p, q, k, k');
  }
}
