/**
 What the three index arrays of the encoder represent.  A `Tree` is the shape of one
 search tree, a `Context` is a tree with a hole in it, seen from the hole.  `Rep` and
 `Seg` say that the child and parent links of the arrays agree with a tree and with a
 context.  Everything the encoder does to the arrays is a change at one hole.
 */
module LzssTrees {
  import opened LzssKeys
  import opened Sequences

  datatype Tree = Leaf | Node(left: Tree, pos: int, right: Tree)

  /** `InLeft(up, v, r)`: the hole is the left child of v.  `InRight(l, v, up)`: the right child. */
  datatype Context =
    | Top
    | InLeft(up: Context, pos: int, right: Tree)
    | InRight(left: Tree, pos: int, up: Context)

  function InOrder(t: Tree): seq<int> {
    match t
    case Leaf => []
    case Node(l, v, r) => InOrder(l) + [v] + InOrder(r)
  }

  /** The nodes before the hole, in order. */
  function Before(c: Context): seq<int> {
    match c
    case Top => []
    case InLeft(up, v, r) => Before(up)
    case InRight(l, v, up) => Before(up) + InOrder(l) + [v]
  }

  /** The nodes after the hole, in order. */
  function After(c: Context): seq<int> {
    match c
    case Top => []
    case InLeft(up, v, r) => [v] + InOrder(r) + After(up)
    case InRight(l, v, up) => After(up)
  }

  function Plug(c: Context, t: Tree): Tree {
    match c
    case Top => t
    case InLeft(up, v, r) => Plug(up, Node(t, v, r))
    case InRight(l, v, up) => Plug(up, Node(l, v, t))
  }

  lemma {:induction false} InOrderPlug(c: Context, t: Tree)
    ensures InOrder(Plug(c, t)) == Before(c) + InOrder(t) + After(c)
  {
    match c
    case Top =>
    case InLeft(up, v, r) =>
      InOrderPlug(up, Node(t, v, r));
      LeftHole(Before(up), InOrder(t), v, InOrder(r), After(up));
    case InRight(l, v, up) =>
      InOrderPlug(up, Node(l, v, t));
      RightHole(Before(up), InOrder(l), v, InOrder(t), After(up));
  }

  lemma LeftHole(a: seq<int>, t: seq<int>, v: int, r: seq<int>, d: seq<int>)
    ensures a + (t + [v] + r) + d == a + t + ([v] + r + d)
  {
  }

  lemma RightHole(a: seq<int>, l: seq<int>, v: int, t: seq<int>, d: seq<int>)
    ensures a + (l + [v] + t) + d == (a + l + [v]) + t + d
  {
  }

  /** The contents of lchild, rchild and parent. */
  datatype Links = Links(lc: seq<int>, rc: seq<int>, pa: seq<int>)

  predicate Sized(k: Links) {
    |k.lc| == N + 1 && |k.rc| == N + 257 && |k.pa| == N + 1
  }

  /** Index x holds tree t, whose root has parent link par. */
  predicate Rep(t: Tree, x: int, par: int, k: Links)
    requires Sized(k)
  {
    match t
    case Leaf => x == NIL
    case Node(l, v, r) =>
      IsPos(v) && x == v && k.pa[v] == par && Rep(l, k.lc[v], v, k) && Rep(r, k.rc[v], v, k)
  }

  /**
   The hole of c is at index x with parent par, and what c is part of is held at
   index x0 with parent par0.
   */
  predicate Seg(c: Context, x: int, par: int, x0: int, par0: int, k: Links)
    requires Sized(k)
  {
    match c
    case Top => x == x0 && par == par0
    case InLeft(up, v, r) =>
      IsPos(v) && par == v && k.lc[v] == x && Rep(r, k.rc[v], v, k) && Seg(up, v, k.pa[v], x0, par0, k)
    case InRight(l, v, up) =>
      IsPos(v) && par == v && k.rc[v] == x && Rep(l, k.lc[v], v, k) && Seg(up, v, k.pa[v], x0, par0, k)
  }

  predicate AgreeAt(k: Links, k': Links, v: int)
    requires Sized(k) && Sized(k')
  {
    IsPos(v) ==> k.lc[v] == k'.lc[v] && k.rc[v] == k'.rc[v] && k.pa[v] == k'.pa[v]
  }

  predicate Agree(k: Links, k': Links, s: seq<int>)
    requires Sized(k) && Sized(k')
  {
    forall v :: v in s ==> AgreeAt(k, k', v)
  }

  lemma {:induction false} RepPositions(t: Tree, x: int, par: int, k: Links)
    requires Sized(k) && Rep(t, x, par, k)
    ensures AllPos(InOrder(t))
    ensures x != NIL <==> t.Node?
  {
    match t
    case Leaf =>
    case Node(l, v, r) =>
      RepPositions(l, k.lc[v], v, k);
      RepPositions(r, k.rc[v], v, k);
  }

  lemma {:induction false} SegPositions(c: Context, x: int, par: int, x0: int, par0: int, k: Links)
    requires Sized(k) && Seg(c, x, par, x0, par0, k)
    ensures AllPos(Before(c)) && AllPos(After(c))
    ensures c != Top ==> par in Before(c) + After(c)
  {
    match c
    case Top =>
    case InLeft(up, v, r) =>
      RepPositions(r, k.rc[v], v, k);
      SegPositions(up, v, k.pa[v], x0, par0, k);
    case InRight(l, v, up) =>
      RepPositions(l, k.lc[v], v, k);
      SegPositions(up, v, k.pa[v], x0, par0, k);
  }

  /** A tree depends on the links of its own nodes only. */
  lemma {:induction false} RepFrame(t: Tree, x: int, par: int, k: Links, k': Links)
    requires Sized(k) && Sized(k') && Rep(t, x, par, k)
    requires Agree(k, k', InOrder(t))
    ensures Rep(t, x, par, k')
  {
    match t
    case Leaf =>
    case Node(l, v, r) =>
      assert v in InOrder(t) && AgreeAt(k, k', v);
      RepFrame(l, k.lc[v], v, k, k');
      RepFrame(r, k.rc[v], v, k, k');
  }

  lemma {:induction false} SegFrame(c: Context, x: int, par: int, x0: int, par0: int, k: Links, k': Links)
    requires Sized(k) && Sized(k') && Seg(c, x, par, x0, par0, k)
    requires Agree(k, k', Before(c)) && Agree(k, k', After(c))
    ensures Seg(c, x, par, x0, par0, k')
  {
    match c
    case Top =>
    case InLeft(up, v, r) =>
      assert v in After(c) && AgreeAt(k, k', v);
      RepFrame(r, k.rc[v], v, k, k');
      SegFrame(up, v, k.pa[v], x0, par0, k, k');
    case InRight(l, v, up) =>
      assert v in Before(c) && AgreeAt(k, k', v);
      RepFrame(l, k.lc[v], v, k, k');
      SegFrame(up, v, k.pa[v], x0, par0, k, k');
  }

  /** A tree in the hole of a context is one tree. */
  lemma {:induction false} RepPlug(c: Context, t: Tree, x: int, par: int, x0: int, par0: int, k: Links)
    requires Sized(k) && Seg(c, x, par, x0, par0, k) && Rep(t, x, par, k)
    ensures Rep(Plug(c, t), x0, par0, k)
  {
    match c
    case Top =>
    case InLeft(up, v, r) => RepPlug(up, Node(t, v, r), v, k.pa[v], x0, par0, k);
    case InRight(l, v, up) => RepPlug(up, Node(l, v, t), v, k.pa[v], x0, par0, k);
  }

  /** The arrays determine the tree. */
  lemma {:induction false} RepUnique(t: Tree, u: Tree, x: int, par: int, par': int, k: Links)
    requires Sized(k) && Rep(t, x, par, k) && Rep(u, x, par', k)
    ensures t == u
  {
    match t
    case Leaf =>
    case Node(l, v, r) =>
      RepUnique(l, u.left, k.lc[v], v, v, k);
      RepUnique(r, u.right, k.rc[v], v, v, k);
  }

  /** Every node of a represented tree can be put at the hole of a context. */
  lemma {:induction false} Locate(t: Tree, c: Context, x: int, par: int, x0: int, par0: int, k: Links, p: int)
    returns (c': Context, t': Tree)
    requires Sized(k) && Seg(c, x, par, x0, par0, k) && Rep(t, x, par, k)
    requires p in InOrder(t)
    ensures Plug(c', t') == Plug(c, t)
    ensures t'.Node? && t'.pos == p
    ensures IsPos(p) && Seg(c', p, k.pa[p], x0, par0, k) && Rep(t', p, k.pa[p], k)
    decreases t
  {
    if t.pos == p {
      c', t' := c, t;
    } else if p in InOrder(t.left) {
      c', t' := Locate(t.left, InLeft(c, t.pos, t.right), k.lc[t.pos], t.pos, x0, par0, k, p);
    } else {
      c', t' := Locate(t.right, InRight(t.left, t.pos, c), k.rc[t.pos], t.pos, x0, par0, k, p);
    }
  }

  // ---- Changing what is in a hole -------------------------------------------------

  /** The links with the hole of c, below par, pointing to y.  A root slot is a right child. */
  function SetHole(k: Links, c: Context, par: int, y: int): (k': Links)
    requires Sized(k)
    requires if c.InLeft? then IsPos(par) else 0 <= par < N + 257
    ensures Sized(k')
  {
    if c.InLeft? then k.(lc := k.lc[par := y]) else k.(rc := k.rc[par := y])
  }

  /** Where the whole is held once the hole holds y. */
  function Outer(c: Context, x0: int, y: int): int {
    if c.Top? then y else x0
  }

  /** Redirecting a left hole: only the node above it has changed. */
  lemma SetLeftHole(up: Context, r: Tree, v: int, k: Links, k': Links, y: int)
    requires Sized(k) && Sized(k') && IsPos(v)
    requires NoDup(Before(up) + [v] + (InOrder(r) + After(up)))
    requires Agree(k.(lc := k.lc[v := y]), k', Before(up))
    requires Agree(k.(lc := k.lc[v := y]), k', [v] + InOrder(r) + After(up))
    ensures Agree(k, k', InOrder(r)) && Agree(k, k', Before(up)) && Agree(k, k', After(up))
    ensures AgreeAt(k.(lc := k.lc[v := y]), k', v)
  {
    NoDupMiddle(Before(up), v, InOrder(r) + After(up));
    var m := k.(lc := k.lc[v := y]);
    var after := [v] + InOrder(r) + After(up);
    assert v in after;
    forall u | u in InOrder(r) || u in Before(up) || u in After(up) ensures AgreeAt(k, k', u) {
      assert u in Before(up) || u in after;
      assert AgreeAt(m, k', u);
    }
  }

  /** Redirecting a right hole. */
  lemma SetRightHole(up: Context, l: Tree, v: int, k: Links, k': Links, y: int)
    requires Sized(k) && Sized(k') && IsPos(v)
    requires NoDup(Before(up) + InOrder(l) + [v] + After(up))
    requires Agree(k.(rc := k.rc[v := y]), k', Before(up) + InOrder(l) + [v])
    requires Agree(k.(rc := k.rc[v := y]), k', After(up))
    ensures Agree(k, k', InOrder(l)) && Agree(k, k', Before(up)) && Agree(k, k', After(up))
    ensures AgreeAt(k.(rc := k.rc[v := y]), k', v)
  {
    NoDupMiddle(Before(up) + InOrder(l), v, After(up));
    var m := k.(rc := k.rc[v := y]);
    var before := Before(up) + InOrder(l) + [v];
    assert v in before;
    forall u | u in InOrder(l) || u in Before(up) || u in After(up) ensures AgreeAt(k, k', u) {
      assert u in before || u in After(up);
      assert AgreeAt(m, k', u);
    }
  }

  /**
   If k' is k with the hole redirected, up to links of nodes that c does not have,
   then c is still there, around y.
   */
  lemma SegSetHole(c: Context, x: int, par: int, x0: int, par0: int, k: Links, k': Links, y: int)
    requires Sized(k) && Sized(k') && Seg(c, x, par, x0, par0, k)
    requires NoDup(Before(c) + After(c))
    requires c != Top ==> IsPos(par)
    requires 0 <= par < N + 257
    requires Agree(SetHole(k, c, par, y), k', Before(c)) && Agree(SetHole(k, c, par, y), k', After(c))
    ensures Seg(c, y, par, Outer(c, x0, y), par0, k')
  {
    match c
    case Top =>
    case InLeft(up, v, r) =>
      Surround([], Before(up), [v], InOrder(r), After(up));
      assert Before(c) + After(c) == Before(up) + [v] + (InOrder(r) + After(up));
      SetLeftHole(up, r, v, k, k', y);
      RepFrame(r, k.rc[v], v, k, k');
      SegFrame(up, v, k.pa[v], x0, par0, k, k');
    case InRight(l, v, up) =>
      SetRightHole(up, l, v, k, k', y);
      RepFrame(l, k.lc[v], v, k, k');
      SegFrame(up, v, k.pa[v], x0, par0, k, k');
  }

  lemma NoDupMiddle(a: seq<int>, v: int, b: seq<int>)
    requires NoDup(a + [v] + b)
    ensures v !in a && v !in b && NoDup(a + b)
    ensures forall u :: u in a ==> u !in b
  {
    var s := a + [v] + b;
    assert s[|a|] == v;
    assert forall i :: 0 <= i < |a| ==> s[i] == a[i];
    assert forall i :: 0 <= i < |b| ==> s[|a| + 1 + i] == b[i];
    forall i, j | 0 <= i < j < |a + b| ensures (a + b)[i] != (a + b)[j] {
      var i', j' := if i < |a| then i else i + 1, if j < |a| then j else j + 1;
      assert s[i'] == (a + b)[i] && s[j'] == (a + b)[j];
    }
  }
}
