/**
 struct encode_state and the three procedures that work on it, and what any run of them
 keeps and computes.
 */
module LzssState {
  import opened Bytes
  import opened LzssKeys
  import opened Sequences
  import opened LzssTrees
  import opened LzssSurgery
  import opened LzssForest
  import opened LzssEncoder

  /** `len` is the longest match of r with a node of s (0 for no node) and `pos` attains it. */
  ghost predicate Longest(text: Text, s: seq<int>, r: int, len: int, pos: int)
    requires IsPos(r)
  {
    && NoneLonger(text, s, r, len)
    && 0 <= len <= F
    && (s == [] <==> len == 0)
    && (s != [] ==> IsPos(pos) && pos in s && Match(KeyAt(text, pos), KeyAt(text, r)) == len)
  }

  /** The search for r in t has come to index x, below par. */
  ghost predicate AtHole(text: Text, k: Links, t: Tree, c: Context, sub: Tree, x: int, par: int, r: int,
                         len: int, pos: int)
    requires Sized(k) && IsPos(r)
  {
    && Searching(text, t, c, sub, r, len, pos)
    && Seg(c, x, par, k.rc[RootOf(text[r])], RootOf(text[r]), k)
    && Rep(sub, x, par, k)
  }

  /** The search for r in t has come to a node p with the same key. */
  ghost predicate Found(text: Text, k: Links, t: Tree, c: Context, sub: Tree, p: int, r: int)
    requires Sized(k) && IsPos(r)
  {
    && IsPos(p) && sub.Node? && sub.pos == p && Plug(c, sub) == t
    && KeyAt(text, p) == KeyAt(text, r)
    && Seg(c, p, k.pa[p], k.rc[RootOf(text[r])], RootOf(text[r]), k)
    && Rep(sub, p, k.pa[p], k)
  }

  lemma HoleEmpty(text: Text, k: Links, t: Tree, c: Context, sub: Tree, par: int, r: int, len: int, pos: int)
    requires Sized(k) && IsPos(r) && AtHole(text, k, t, c, sub, NIL, par, r, len, pos)
    ensures sub == Leaf && Longest(text, InOrder(t), r, len, pos)
  {
    RepPositions(sub, NIL, par, k);
    LeafInOrder(c, r);
  }

  lemma HoleFull(text: Text, k: Links, t: Tree, c: Context, sub: Tree, x: int, par: int, r: int,
                 len: int, pos: int, b: Byte)
    requires Sized(k) && IsPos(r) && AtHole(text, k, t, c, sub, x, par, r, len, pos) && x != NIL
    requires TreeOk(text, k, t, b)
    ensures sub.Node? && sub.pos == x && IsPos(x) && k.pa[x] == par
    ensures x in InOrder(t) && text[x] == b
  {
    PlugMembers(c, sub.left, sub.pos, sub.right);
  }

  /** One comparison: found, or one level further down with the longest match so far. */
  lemma Step(text: Text, k: Links, t: Tree, c: Context, sub: Tree, p: int, r: int, len: int, pos: int)
    requires Sized(k) && IsPos(r) && IsPos(p) && AtHole(text, k, t, c, sub, p, k.pa[p], r, len, pos)
    requires sub.Node? && sub.pos == p && TreeOk(text, k, t, text[r]) && text[p] == text[r]
    ensures var a, b := KeyAt(text, p), KeyAt(text, r);
            var m := Match(a, b);
            var len', pos' := if m > len then m else len, if m > len then p else pos;
            && (Less(a, b) ==>
                  m < F && AtHole(text, k, t, InRight(sub.left, p, c), sub.right, k.rc[p], p, r, len', pos'))
            && (Less(b, a) ==>
                  m < F && AtHole(text, k, t, InLeft(c, p, sub.right), sub.left, k.lc[p], p, r, len', pos'))
            && (m < F ==> Less(a, b) || Less(b, a))
            && (m == F ==> Found(text, k, t, c, sub, p, r) && Longest(text, InOrder(t), r, F, p))
    ensures t != Leaf
  {
    var a, b := KeyAt(text, p), KeyAt(text, r);
    Trichotomy(a, b);
    PlugMembers(c, sub.left, p, sub.right);
    MatchSymmetric(a, b);
    if Less(a, b) {
      GoRight(text, t, c, sub.left, p, sub.right, r, len, pos);
    } else if Less(b, a) {
      GoLeft(text, t, c, sub.left, p, sub.right, r, len, pos);
    }
  }

  function NoTrees(): seq<Tree> { seq(256, _ => Leaf) }

  lemma EmptyForest(text: Text, k: Links)
    requires Sized(k)
    requires forall i :: IsRoot(i) ==> k.rc[i] == NIL
    requires forall p :: IsPos(p) ==> k.pa[p] == NIL
    ensures Forest(text, k, NoTrees())
  {
  }

  class EncodeState {
    const lchild: array<int>
    const rchild: array<int>
    const parent: array<int>
    const textBuf: array<Byte>
    var matchPosition: int
    var matchLength: int

    /** The tree of each first byte. */
    ghost var trees: seq<Tree>

    ghost predicate Shaped() {
      && lchild.Length == N + 1 && rchild.Length == N + 257 && parent.Length == N + 1
      && textBuf.Length == N + F - 1
      && lchild != rchild && lchild != parent && rchild != parent
      && textBuf as object != lchild && textBuf as object != rchild && textBuf as object != parent
    }

    ghost function View(): (k: Links)
      requires Shaped()
      reads lchild, rchild, parent
      ensures Sized(k)
    {
      Links(lchild[..], rchild[..], parent[..])
    }

    ghost function TextOf(): Text
      requires Shaped()
      reads textBuf
    {
      textBuf[..]
    }

    ghost predicate Valid()
      reads this, lchild, rchild, parent, textBuf
    {
      Shaped() && Forest(TextOf(), View(), trees)
    }

    /** init_state on a new struct. */
    constructor ()
      ensures Valid()
      ensures fresh(lchild) && fresh(rchild) && fresh(parent) && fresh(textBuf)
      ensures trees == NoTrees()
      ensures forall i :: 0 <= i < N + F - 1 ==> textBuf[i] == if i < N - F then ' ' as int else 0
      ensures matchLength == 0 && matchPosition == 0
    {
      lchild := new int[N + 1](_ => 0);
      rchild := new int[N + 257](_ => 0);
      parent := new int[N + 1](_ => 0);
      textBuf := new Byte[N + F - 1](_ => 0);
      matchPosition, matchLength := 0, 0;
      trees := NoTrees();
      new;
      FillText();
      ClearLinks();
      EmptyForest(TextOf(), View());
    }

    /** Lines 194-196. */
    method FillText()
      requires Shaped() && forall j :: 0 <= j < N + F - 1 ==> textBuf[j] == 0
      modifies textBuf
      ensures forall j :: 0 <= j < N + F - 1 ==> textBuf[j] == if j < N - F then ' ' as int else 0
    {
      for i := 0 to N - F
        invariant forall j :: 0 <= j < N + F - 1 ==> textBuf[j] == if j < i then ' ' as int else 0
      {
        textBuf[i] := ' ' as int;
      }
    }

    /** Lines 197-202. */
    method ClearLinks()
      requires Shaped()
      modifies rchild, parent
      ensures forall i :: IsRoot(i) ==> rchild[i] == NIL
      ensures forall p :: IsPos(p) ==> parent[p] == NIL
    {
      for i := N + 1 to N + 257
        invariant forall j :: N < j < i ==> rchild[j] == NIL
      {
        rchild[i] := NIL;
      }
      for i := 0 to N
        invariant forall j :: N < j < N + 257 ==> rchild[j] == NIL
        invariant forall j :: 0 <= j < i ==> parent[j] == NIL
      {
        parent[i] := NIL;
      }
    }

    /** Lines 242-246: where the keys of r and p first differ, knowing that they start alike. */
    method Compare(r: int, p: int) returns (i: int, cmp: int)
      requires Shaped() && IsPos(r) && IsPos(p) && textBuf[r] == textBuf[p]
      ensures i == Match(KeyAt(TextOf(), p), KeyAt(TextOf(), r)) && 1 <= i
      ensures cmp > 0 <==> Less(KeyAt(TextOf(), p), KeyAt(TextOf(), r))
      ensures cmp < 0 <==> Less(KeyAt(TextOf(), r), KeyAt(TextOf(), p))
    {
      ghost var a, b := KeyAt(TextOf(), p), KeyAt(TextOf(), r);
      i, cmp := 1, 0;
      while i < F
        invariant 1 <= i <= F && cmp == 0
        invariant forall j :: 0 <= j < i ==> a[j] == b[j]
      {
        cmp := textBuf[r + i] as int - textBuf[p + i] as int;
        assert a[i] == textBuf[p + i] && b[i] == textBuf[r + i];
        if cmp != 0 {
          break;
        }
        i := i + 1;
      }
      MatchUnique(a, b, i);
      MatchSymmetric(a, b);
    }

    /**
     Lines 224-253: go down from the root of r's tree until a node with an equal key is
     found, or the child that r would have to be is missing.  `len` and `pos` are the
     values of match_length and match_position on the way.
     */
    method Search(r: int, pos0: int)
      returns (p: int, cmp: int, found: bool, len: int, pos: int, ghost c: Context, ghost sub: Tree)
      requires Valid() && IsPos(r)
      ensures 0 <= p < N + 257
      ensures found ==> Found(TextOf(), View(), trees[textBuf[r]], c, sub, p, r) && pos == p && len == F
      ensures !found ==> sub == Leaf && (cmp < 0 <==> c.InLeft?)
      ensures !found ==> AtHole(TextOf(), View(), trees[textBuf[r]], c, Leaf, NIL, p, r, len, pos)
      ensures Longest(TextOf(), InOrder(trees[textBuf[r]]), r, len, pos)
      ensures len > 0 ==> Topmost(TextOf(), trees[textBuf[r]], r, len, pos)
      ensures trees[textBuf[r]] == Leaf ==> pos == pos0
    {
      ghost var text, b, k, t := TextOf(), textBuf[r], View(), trees[textBuf[r]];
      assert TreeOk(text, k, t, b);
      cmp, len, pos := 1, 0, pos0;
      p := N + 1 + textBuf[r];
      c, sub := Top, t;
      while true
        invariant cmp != 0 && (cmp < 0 <==> c.InLeft?)
        invariant 0 <= p < N + 257 && (cmp < 0 ==> IsPos(p))
        invariant AtHole(text, k, t, c, sub, if cmp >= 0 then rchild[p] else lchild[p], p, r, len, pos)
        invariant t == Leaf ==> pos == pos0
        invariant len > 0 ==> Topmost(text, t, r, len, pos)
        decreases sub
      {
        var x := if cmp >= 0 then rchild[p] else lchild[p];
        if x == NIL {
          HoleEmpty(text, k, t, c, sub, p, r, len, pos);
          found := false;
          return;
        }
        HoleFull(text, k, t, c, sub, x, p, r, len, pos, b);
        p := x;
        var i;
        i, cmp := Compare(r, p);
        Step(text, k, t, c, sub, p, r, len, pos);
        if i > len {
          NewTopmost(text, t, c, sub, r, len, pos, i);
          len, pos := i, p;
          if len >= F {
            found := true;
            return;
          }
        }
        c, sub := if cmp > 0 then InRight(sub.left, p, c) else InLeft(c, p, sub.right),
                  if cmp > 0 then sub.right else sub.left;
      }
    }

    /** Lines 254-264: r takes the place of p. */
    method Replace(p: int, r: int)
      requires Shaped() && IsPos(p) && IsPos(r) && p != r
      requires 0 <= lchild[p] <= NIL && lchild[p] != p && lchild[p] != r
      requires 0 <= rchild[p] <= NIL && rchild[p] != p && rchild[p] != r
      requires var m := TakeOver(View(), p, r); 0 <= m.pa[p] < N + 257 && (m.rc[m.pa[p]] != p ==> m.pa[p] <= N)
      modifies lchild, rchild, parent
      ensures View() == Hoist(TakeOver(old(View()), p, r), p, r)
    {
      ghost var k := View();
      parent[r] := parent[p];
      lchild[r] := lchild[p];
      rchild[r] := rchild[p];
      parent[lchild[p]] := r;
      parent[rchild[p]] := r;
      assert View() == TakeOver(k, p, r);
      if rchild[parent[p]] == p {
        rchild[parent[p]] := r;
      } else {
        lchild[parent[p]] := r;
      }
      parent[p] := NIL;
    }

    /** Lines 229-230 and 237-238: r becomes a child of p. */
    method Attach(p: int, cmp: int, r: int, ghost c: Context)
      requires Shaped() && IsPos(r) && (if c.InLeft? then IsPos(p) else 0 <= p < N + 257)
      requires cmp < 0 <==> c.InLeft?
      modifies lchild, rchild, parent
      ensures View() == LinkLeaf(old(View()), c, p, r)
    {
      if cmp >= 0 {
        rchild[p] := r;
      } else {
        lchild[p] := r;
      }
      parent[r] := p;
    }

    /** Lines 254-264, for the trees. */
    method TakePlace(r: int, p: int, ghost c: Context, ghost sub: Tree)
      requires Valid() && IsPos(r) && parent[r] == NIL
      requires Found(TextOf(), View(), trees[textBuf[r]], c, sub, p, r)
      modifies this`trees, lchild, rchild, parent
      ensures Valid() && trees == old(trees)[textBuf[r] := trees[textBuf[r]]]
      ensures InOrder(trees[textBuf[r]]) == InsertSorted(TextOf(), InOrder(old(trees)[textBuf[r]]), r)
    {
      ghost var text, b, k := TextOf(), textBuf[r], View();
      ReplaceReady(text, k, trees, c, sub, p, r);
      EqualForest(text, k, trees, c, sub.left, p, sub.right, r);
      ghost var grown := trees[b := Plug(c, Node(sub.left, r, sub.right))];
      Replace(p, r);
      assert TextOf() == text && View() == Hoist(TakeOver(k, p, r), p, r);
      trees := grown;
    }

    /** Lines 229-230 and 237-238, for the trees. */
    method AddLeaf(r: int, p: int, cmp: int, ghost c: Context, ghost len: int, ghost pos: int)
      requires Valid() && IsPos(r) && parent[r] == NIL && lchild[r] == NIL && rchild[r] == NIL
      requires AtHole(TextOf(), View(), trees[textBuf[r]], c, Leaf, NIL, p, r, len, pos)
      requires cmp < 0 <==> c.InLeft?
      modifies this`trees, lchild, rchild, parent
      ensures Valid() && trees == old(trees)[textBuf[r] := trees[textBuf[r]]]
      ensures InOrder(trees[textBuf[r]]) == InsertSorted(TextOf(), InOrder(old(trees)[textBuf[r]]), r)
    {
      ghost var text, b, k := TextOf(), textBuf[r], View();
      LeafForest(text, k, trees, c, p, r, len, pos);
      Attach(p, cmp, r, c);
      trees := trees[b := Plug(c, Node(Leaf, r, Leaf))];
    }

    /** insert_node. */
    method InsertNode(r: int)
      requires Valid() && IsPos(r) && parent[r] == NIL
      modifies this, lchild, rchild, parent
      ensures Valid() && textBuf[..] == old(textBuf[..])
      ensures trees == old(trees)[textBuf[r] := trees[textBuf[r]]]
      ensures InOrder(trees[textBuf[r]]) == InsertSorted(TextOf(), InOrder(old(trees)[textBuf[r]]), r)
      ensures Longest(TextOf(), InOrder(old(trees)[textBuf[r]]), r, matchLength, matchPosition)
      ensures matchLength > 0 ==> Topmost(TextOf(), old(trees)[textBuf[r]], r, matchLength, matchPosition)
      ensures old(trees)[textBuf[r]] == Leaf ==> matchPosition == old(matchPosition)
    {
      ghost var k := View();
      lchild[r] := NIL;
      rchild[r] := NIL;
      ClearUnused(TextOf(), k, View(), trees, r);
      var p, cmp, found, len, pos;
      ghost var c, sub;
      p, cmp, found, len, pos, c, sub := Search(r, matchPosition);
      if found {
        TakePlace(r, p, c, sub);
      } else {
        AddLeaf(r, p, cmp, c, len, pos);
      }
      matchLength, matchPosition := len, pos;
    }

    /** Lines 281-285: the end q of the right spine of p's left subtree, which is p's predecessor. */
    method Predecessor(p: int, ghost l: Tree) returns (q: int, deep: bool, ghost s: Context, ghost ql: Tree)
      requires Shaped() && IsPos(p) && lchild[p] != NIL && Rep(l, lchild[p], p, View())
      ensures IsPos(q) && RightSpine(s) && Plug(s, Node(ql, q, Leaf)) == l
      ensures Seg(s, q, View().pa[q], lchild[p], p, View()) && Rep(Node(ql, q, Leaf), q, View().pa[q], View())
      ensures if deep then s != Top else s == Top && q == lchild[p]
    {
      ghost var k := View();
      q := lchild[p];
      deep := rchild[q] != NIL;
      s := Top;
      ghost var sub := l;
      while rchild[q] != NIL
        invariant IsPos(q) && sub.Node? && sub.pos == q && RightSpine(s) && Plug(s, sub) == l
        invariant Seg(s, q, k.pa[q], lchild[p], p, k) && Rep(sub, q, k.pa[q], k)
        invariant s == Top ==> q == lchild[p] && sub == l
        invariant s != Top ==> deep
        decreases sub
      {
        s, sub := InRight(sub.left, q, s), sub.right;
        q := rchild[q];
      }
      ql := sub.left;
    }

    /** Lines 286-292: q gets the subtrees of p. */
    method Promote(p: int, q: int, deep: bool, ghost s: Context)
      requires Shaped() && IsPos(p) && IsPos(q) && p != q
      requires IsPos(parent[q]) && 0 <= lchild[q] <= NIL && 0 <= lchild[p] <= NIL && 0 <= rchild[p] <= NIL
      requires lchild[q] != q && lchild[q] != p && rchild[p] != p && rchild[p] != q
      requires deep <==> s != Top
      requires s != Top ==> parent[q] != p && parent[q] != q
      modifies lchild, rchild, parent
      ensures View() == AdoptRight(Detached(old(View()), s, p, q), p, q)
    {
      ghost var k := View();
      if deep {
        rchild[parent[q]] := lchild[q];
        parent[lchild[q]] := parent[q];
        lchild[q] := lchild[p];
        parent[lchild[p]] := q;
        assert View() == DetachMax(k, p, q);
      }
      rchild[q] := rchild[p];
      parent[rchild[p]] := q;
    }

    /** Lines 294-300: q takes the place of p. */
    method Unlink(p: int, q: int)
      requires Shaped() && IsPos(p) && 0 <= q <= NIL && p != q
      requires 0 <= parent[p] < N + 257 && (rchild[parent[p]] != p ==> parent[p] <= N)
      modifies lchild, rchild, parent
      ensures View() == Hoist(old(View()), p, q)
    {
      parent[q] := parent[p];
      if rchild[parent[p]] == p {
        rchild[parent[p]] := q;
      } else {
        lchild[parent[p]] := q;
      }
      parent[p] := NIL;
    }

    /** Lines 276-293: index q comes to hold the subtree of p without p. */
    method Gather(p: int, ghost l: Tree, ghost rt: Tree) returns (q: int, ghost t: Tree, ghost par: int)
      requires Shaped() && IsPos(p) && Rep(Node(l, p, rt), p, View().pa[p], View())
      requires NoDup(InOrder(l) + [p] + InOrder(rt))
      requires 0 <= lchild[p] <= NIL && 0 <= rchild[p] <= NIL && lchild[p] != p && rchild[p] != p
      requires (lchild[p] == NIL <==> l == Leaf) && (rchild[p] == NIL <==> rt == Leaf)
      modifies lchild, rchild, parent
      ensures 0 <= q <= NIL && q != p
      ensures Gathered(old(View()), View(), l, p, rt, t, q, par)
    {
      ghost var k := View();
      par := p;
      if rchild[p] == NIL {
        q := lchild[p];
        t := l;
      } else if lchild[p] == NIL {
        q := rchild[p];
        t := rt;
      } else {
        var deep;
        ghost var s, ql;
        q, deep, s, ql := Predecessor(p, l);
        PromoteReady(k, s, ql, p, q, l, rt);
        Promote(p, q, deep, s);
        t := Node(Plug(s, ql), q, rt);
        par := View().pa[q];
      }
    }

    /** Lines 294-300, for the trees: k are the links before q came to hold the subtree of p. */
    method TakeOut(p: int, q: int, ghost k: Links, ghost c: Context, ghost l: Tree, ghost rt: Tree,
                   ghost t: Tree, ghost par: int)
      requires Shaped() && IsPos(p) && Forest(TextOf(), k, trees)
      requires Plug(c, Node(l, p, rt)) == trees[textBuf[p]]
      requires Seg(c, p, k.pa[p], k.rc[RootOf(textBuf[p])], RootOf(textBuf[p]), k)
      requires 0 <= q <= NIL && q != p && Gathered(k, View(), l, p, rt, t, q, par)
      modifies this`trees, lchild, rchild, parent
      ensures Valid() && trees == old(trees)[textBuf[p] := trees[textBuf[p]]]
      ensures InOrder(trees[textBuf[p]]) == Without(InOrder(old(trees)[textBuf[p]]), p)
    {
      DeleteForest(TextOf(), k, View(), trees, c, l, p, rt, t, q, par);
      Unlink(p, q);
      trees := trees[textBuf[p] := Plug(c, t)];
    }

    /** Lines 276-300, for a node p that is in a tree. */
    method RemoveNode(p: int)
      requires Valid() && IsPos(p) && p in InOrder(trees[textBuf[p]])
      modifies this`trees, lchild, rchild, parent
      ensures Valid() && trees == old(trees)[textBuf[p] := trees[textBuf[p]]]
      ensures InOrder(trees[textBuf[p]]) == Without(InOrder(old(trees)[textBuf[p]]), p)
    {
      ghost var k := View();
      ghost var c, l, rt := LocateNode(TextOf(), k, trees, p);
      var q;
      ghost var t, par;
      q, t, par := Gather(p, l, rt);
      TakeOut(p, q, k, c, l, rt, t, par);
    }

    /** delete_node. */
    method DeleteNode(p: int)
      requires Valid() && IsPos(p)
      modifies this`trees, lchild, rchild, parent
      ensures Valid() && textBuf[..] == old(textBuf[..])
      ensures old(parent[p]) == NIL ==> trees == old(trees) && View() == old(View())
      ensures forall c :: 0 <= c < 256 ==> InOrder(trees[c]) == Without(InOrder(old(trees)[c]), p)
      ensures trees == old(trees)[textBuf[p] := trees[textBuf[p]]]
    {
      ElsewhereAbsent(TextOf(), View(), trees, p);
      if parent[p] == NIL {
        return;
      }
      RemoveNode(p);
    }

    /** The compressor's own step between calls: a new byte where no key in the trees has one. */
    method WriteText(i: int, b: Byte)
      requires Valid() && 0 <= i < N + F - 1
      requires forall p :: IsPos(p) && p <= i < p + F ==> parent[p] == NIL
      modifies textBuf
      ensures Valid() && textBuf[..] == old(textBuf[..])[i := b]
    {
      ghost var text := TextOf();
      textBuf[i] := b;
      TextFrame(text, TextOf(), View(), trees, i, b);
    }
  }

  lemma TextFrame(text: Text, text': Text, k: Links, trees: seq<Tree>, i: int, b: Byte)
    requires Forest(text, k, trees) && 0 <= i < N + F - 1 && text' == text[i := b]
    requires forall p :: IsPos(p) && p <= i < p + F ==> k.pa[p] == NIL
    ensures Forest(text', k, trees)
  {
    forall c, v | 0 <= c < 256 && v in InOrder(trees[c])
      ensures IsPos(v) && k.pa[v] != NIL && text'[v] == text[v] && KeyAt(text', v) == KeyAt(text, v)
    {
      assert TreeOk(text, k, trees[c], c);
      RepParent(trees[c], k.rc[RootOf(c)], RootOf(c), k, v);
      assert !(v <= i < v + F);
    }
    forall c | 0 <= c < 256 ensures TreeOk(text', k, trees[c], c) {
      assert TreeOk(text, k, trees[c], c);
    }
    forall p | IsPos(p) && k.pa[p] != NIL ensures p in InOrder(trees[text'[p]]) {
      assert p in InOrder(trees[text[p]]);
    }
  }

  lemma ElsewhereAbsent(text: Text, k: Links, trees: seq<Tree>, p: int)
    requires Forest(text, k, trees) && IsPos(p)
    ensures forall c :: 0 <= c < 256 && c != text[p] ==> Without(InOrder(trees[c]), p) == InOrder(trees[c])
    ensures k.pa[p] == NIL ==> Without(InOrder(trees[text[p]]), p) == InOrder(trees[text[p]])
    ensures k.pa[p] != NIL ==> p in InOrder(trees[text[p]])
  {
    ParentMarksNodes(text, k, trees, p);
    forall c | 0 <= c < 256 && (c != text[p] || k.pa[p] == NIL)
      ensures Without(InOrder(trees[c]), p) == InOrder(trees[c])
    {
      WithoutAbsent(InOrder(trees[c]), p);
    }
  }

  lemma LocateNode(text: Text, k: Links, trees: seq<Tree>, p: int) returns (c: Context, l: Tree, rt: Tree)
    requires Forest(text, k, trees) && IsPos(p) && p in InOrder(trees[text[p]])
    ensures Plug(c, Node(l, p, rt)) == trees[text[p]]
    ensures Seg(c, p, k.pa[p], k.rc[RootOf(text[p])], RootOf(text[p]), k) && Rep(Node(l, p, rt), p, k.pa[p], k)
    ensures 0 <= k.lc[p] <= NIL && 0 <= k.rc[p] <= NIL && k.lc[p] != p && k.rc[p] != p
    ensures k.lc[p] == NIL <==> l == Leaf
    ensures k.rc[p] == NIL <==> rt == Leaf
    ensures NoDup(InOrder(l) + [p] + InOrder(rt))
  {
    var root := RootOf(text[p]);
    assert TreeOk(text, k, trees[text[p]], text[p]);
    var sub;
    c, sub := Locate(trees[text[p]], Top, k.rc[root], root, k.rc[root], root, k, p);
    l, rt := sub.left, sub.right;
    DeleteDisjoint(text, c, l, p, rt);
    RepPositions(l, k.lc[p], p, k);
    RepPositions(rt, k.rc[p], p, k);
    assert l.Node? ==> l.pos == k.lc[p] && k.lc[p] in InOrder(l);
    assert rt.Node? ==> rt.pos == k.rc[p] && k.rc[p] in InOrder(rt);
  }

  lemma PromoteReady(k: Links, s: Context, ql: Tree, p: int, q: int, l: Tree, rt: Tree)
    requires Sized(k) && IsPos(p) && IsPos(q) && RightSpine(s) && Plug(s, Node(ql, q, Leaf)) == l
    requires Seg(s, q, k.pa[q], k.lc[p], p, k) && Rep(Node(ql, q, Leaf), q, k.pa[q], k)
    requires Rep(rt, k.rc[p], p, k) && NoDup(InOrder(l) + [p] + InOrder(rt))
    ensures p != q && IsPos(k.pa[q]) && 0 <= k.lc[q] <= NIL && 0 <= k.lc[p] <= NIL && 0 <= k.rc[p] <= NIL
    ensures k.lc[q] != q && k.lc[q] != p && k.rc[p] != p && k.rc[p] != q
    ensures s != Top ==> k.pa[q] != p && k.pa[q] != q
    ensures var m := AdoptRight(Detached(k, s, p, q), p, q);
            && Rep(Node(Plug(s, ql), q, rt), q, m.pa[q], m)
            && OnlyAt(k, m, InOrder(l) + InOrder(rt))
            && m.pa[p] == k.pa[p]
            && forall i :: IsRoot(i) ==> k.rc[i] == m.rc[i]
    ensures InOrder(Node(Plug(s, ql), q, rt)) == InOrder(l) + InOrder(rt)
  {
    SpineInOrder(s, ql, q);
    PairNoDup(Before(s) + InOrder(ql), q, p, InOrder(rt));
    PredecessorRep(k, s, ql, p, q, rt, k.pa[q]);
    RepPositions(ql, k.lc[q], q, k);
    RepPositions(rt, k.rc[p], p, k);
    SegPositions(s, q, k.pa[q], k.lc[p], p, k);
    RightSpineAfter(s);
    assert ql.Node? ==> ql.pos == k.lc[q] && k.lc[q] in InOrder(ql);
    assert rt.Node? ==> rt.pos == k.rc[p] && k.rc[p] in InOrder(rt);
    assert Before(s) + InOrder(ql) + [q] + InOrder(rt) == InOrder(l) + InOrder(rt);
  }

  lemma SpineInOrder(s: Context, ql: Tree, q: int)
    requires RightSpine(s)
    ensures InOrder(Plug(s, Node(ql, q, Leaf))) == Before(s) + InOrder(ql) + [q]
    ensures InOrder(Plug(s, ql)) == Before(s) + InOrder(ql)
  {
    RightSpineAfter(s);
    InOrderPlug(s, Node(ql, q, Leaf));
    InOrderPlug(s, ql);
    assert InOrder(Node(ql, q, Leaf)) == InOrder(ql) + [q];
    Surround(Before(s), InOrder(ql), [], [q], []);
  }

  lemma ReplaceReady(text: Text, k: Links, trees: seq<Tree>, c: Context, sub: Tree, p: int, r: int)
    requires Forest(text, k, trees) && IsPos(r) && k.pa[r] == NIL
    requires Found(text, k, trees[text[r]], c, sub, p, r)
    ensures p != r && k.lc[p] != p && k.rc[p] != p && k.lc[p] != r && k.rc[p] != r
  {
    PlugMembers(c, sub.left, p, sub.right);
    var t := trees[text[r]];
    assert TreeOk(text, k, t, text[r]);
    ParentMarksNodes(text, k, trees, r);
    DeleteDisjoint(text, c, sub.left, p, sub.right);
    RepPositions(sub.left, k.lc[p], p, k);
    RepPositions(sub.right, k.rc[p], p, k);
    assert sub.left.Node? ==> sub.left.pos == k.lc[p] && k.lc[p] in InOrder(sub.left);
    assert sub.right.Node? ==> sub.right.pos == k.rc[p] && k.rc[p] in InOrder(sub.right);
  }

  /** Clearing the child links of a position that is in no tree. */
  lemma ClearUnused(text: Text, k: Links, k': Links, trees: seq<Tree>, r: int)
    requires Forest(text, k, trees) && IsPos(r) && k.pa[r] == NIL
    requires k' == k.(lc := k.lc[r := NIL], rc := k.rc[r := NIL])
    ensures Forest(text, k', trees)
  {
    ParentMarksNodes(text, k, trees, r);
    forall c | 0 <= c < 256 ensures TreeOk(text, k', trees[c], c) {
      assert TreeOk(text, k, trees[c], c);
      RepFrame(trees[c], k.rc[RootOf(c)], RootOf(c), k, k');
    }
  }
}
