/**
 Runs of the encoder's procedures.  The 256 trees in the arrays are a `Dictionary`: a set
 of text positions with different keys.  Any run of insertions, deletions and text writes
 does to the arrays what it does to that set.
 */
module LzssRun {
  import opened Bytes
  import opened LzssKeys
  import opened LzssTrees
  import opened LzssForest
  import opened LzssState

  datatype Dictionary = Dictionary(text: Text, nodes: set<int>)

  datatype Op = Insert(r: int) | Delete(p: int) | Write(i: int, b: Byte)

  /** A write may not touch a key that is in the dictionary; a node is not inserted twice. */
  ghost predicate Legal(d: Dictionary, op: Op) {
    match op
    case Insert(r) => IsPos(r) && r !in d.nodes
    case Delete(p) => IsPos(p)
    case Write(i, _) => 0 <= i < N + F - 1 && forall v :: v in d.nodes ==> !(v <= i < v + F)
  }

  ghost predicate Positions(d: Dictionary) { forall v :: v in d.nodes ==> IsPos(v) }

  ghost function Apply(d: Dictionary, op: Op): Dictionary
    requires Positions(d) && Legal(d, op)
  {
    match op
    case Insert(r) =>
      d.(nodes := (set v | v in d.nodes && KeyAt(d.text, v) != KeyAt(d.text, r)) + {r})
    case Delete(p) => d.(nodes := d.nodes - {p})
    case Write(i, b) => d.(text := d.text[i := b])
  }

  ghost predicate LegalRun(d: Dictionary, ops: seq<Op>)
    decreases |ops|
  {
    Positions(d) && (ops != [] ==> Legal(d, ops[0]) && LegalRun(Apply(d, ops[0]), ops[1..]))
  }

  ghost function ApplyAll(d: Dictionary, ops: seq<Op>): Dictionary
    requires LegalRun(d, ops)
    decreases |ops|
  {
    if ops == [] then d else ApplyAll(Apply(d, ops[0]), ops[1..])
  }

  /** `len` is the longest match of position r with any node, and `pos` attains it. */
  ghost predicate LongestOf(d: Dictionary, r: int, len: int, pos: int)
    requires Positions(d) && IsPos(r)
  {
    && (forall v :: v in d.nodes ==> Match(KeyAt(d.text, v), KeyAt(d.text, r)) <= len)
    && (len == 0 || (pos in d.nodes && Match(KeyAt(d.text, pos), KeyAt(d.text, r)) == len))
    && 0 <= len
  }

  ghost function NodeSet(k: Links): set<int>
    requires Sized(k)
  {
    set p | 0 <= p < N && k.pa[p] != NIL
  }

  ghost function Abstract(e: EncodeState): (d: Dictionary)
    requires e.Shaped()
    reads e, e.parent, e.lchild, e.rchild, e.textBuf
    ensures Positions(d)
  {
    Dictionary(e.TextOf(), NodeSet(e.View()))
  }

  lemma InNodeSet(text: Text, k: Links, trees: seq<Tree>, p: int)
    requires Forest(text, k, trees)
    ensures p in NodeSet(k) <==> IsPos(p) && p in InOrder(trees[text[p]])
  {
    if IsPos(p) {
      ParentMarksNodes(text, k, trees, p);
    }
  }

  /** Inserting r: what becomes of v, whose tree before and after is t and t'. */
  lemma InsertOne(text: Text, s: seq<int>, t: seq<int>, t': seq<int>, r: int, v: int)
    requires IsPos(r) && IsPos(v) && AllPos(s) && Ascending(text, s)
    requires if text[v] == text[r] then t == s && t' == InsertSorted(text, s, r) else t == t'
    ensures v in t' <==> v == r || (v in t && KeyAt(text, v) != KeyAt(text, r))
  {
    if text[v] == text[r] {
      InsertSortedMembers(text, s, r);
    } else {
      assert KeyAt(text, v)[0] != KeyAt(text, r)[0];
    }
  }

  lemma InsertNodes(text: Text, k: Links, trees: seq<Tree>, k': Links, trees': seq<Tree>, r: int)
    requires Forest(text, k, trees) && Forest(text, k', trees') && IsPos(r)
    requires trees' == trees[text[r] := trees'[text[r]]]
    requires InOrder(trees'[text[r]]) == InsertSorted(text, InOrder(trees[text[r]]), r)
    ensures NodeSet(k') == (set v | v in NodeSet(k) && KeyAt(text, v) != KeyAt(text, r)) + {r}
  {
    assert TreeOk(text, k, trees[text[r]], text[r]);
    forall v ensures v in NodeSet(k') <==> v == r || (v in NodeSet(k) && KeyAt(text, v) != KeyAt(text, r)) {
      InNodeSet(text, k, trees, v);
      InNodeSet(text, k', trees', v);
      if IsPos(v) {
        InsertOne(text, InOrder(trees[text[r]]), InOrder(trees[text[v]]), InOrder(trees'[text[v]]), r, v);
      }
    }
  }

  lemma DeleteNodes(text: Text, k: Links, trees: seq<Tree>, k': Links, trees': seq<Tree>, p: int)
    requires Forest(text, k, trees) && Forest(text, k', trees')
    requires forall c :: 0 <= c < 256 ==> InOrder(trees'[c]) == Without(InOrder(trees[c]), p)
    ensures NodeSet(k') == NodeSet(k) - {p}
  {
    forall v ensures v in NodeSet(k') <==> v in NodeSet(k) && v != p {
      InNodeSet(text, k, trees, v);
      InNodeSet(text, k', trees', v);
      if IsPos(v) {
        WithoutMembers(InOrder(trees[text[v]]), p);
      }
    }
  }

  /** The longest match within r's own tree is the longest of all: other trees start differently. */
  lemma LongestOverall(text: Text, k: Links, trees: seq<Tree>, r: int, len: int, pos: int)
    requires Forest(text, k, trees) && IsPos(r)
    requires Longest(text, InOrder(trees[text[r]]), r, len, pos)
    ensures LongestOf(Dictionary(text, NodeSet(k)), r, len, pos)
  {
    assert TreeOk(text, k, trees[text[r]], text[r]);
    forall v | v in NodeSet(k) ensures Match(KeyAt(text, v), KeyAt(text, r)) <= len {
      InNodeSet(text, k, trees, v);
      if text[v] != text[r] {
        assert KeyAt(text, v)[0] != KeyAt(text, r)[0];
      }
    }
    InNodeSet(text, k, trees, pos);
  }

  /** One step of the encoder is one step of the dictionary. */
  method Perform(e: EncodeState, op: Op)
    requires e.Valid() && Legal(Abstract(e), op)
    modifies e, e.lchild, e.rchild, e.parent, e.textBuf
    ensures e.Valid() && Abstract(e) == Apply(old(Abstract(e)), op)
    ensures op.Insert? ==> LongestOf(old(Abstract(e)), op.r, e.matchLength, e.matchPosition)
  {
    ghost var text, k, trees := e.TextOf(), e.View(), e.trees;
    match op
    case Insert(r) =>
      e.InsertNode(r);
      InsertNodes(text, k, trees, e.View(), e.trees, r);
      LongestOverall(text, k, trees, r, e.matchLength, e.matchPosition);
    case Delete(p) =>
      e.DeleteNode(p);
      DeleteNodes(text, k, trees, e.View(), e.trees, p);
    case Write(i, b) =>
      assert forall p :: IsPos(p) && p !in NodeSet(k) ==> e.parent[p] == NIL;
      e.WriteText(i, b);
  }

  /** Any legal run keeps the arrays well formed and computes the run of the dictionary. */
  method Run(e: EncodeState, ops: seq<Op>)
    requires e.Valid() && LegalRun(Abstract(e), ops)
    modifies e, e.lchild, e.rchild, e.parent, e.textBuf
    ensures e.Valid() && Abstract(e) == ApplyAll(old(Abstract(e)), ops)
  {
    var i := 0;
    while i < |ops|
      invariant 0 <= i <= |ops| && e.Valid()
      invariant LegalRun(Abstract(e), ops[i..])
      invariant ApplyAll(Abstract(e), ops[i..]) == ApplyAll(old(Abstract(e)), ops)
    {
      assert ops[i..][0] == ops[i] && ops[i..][1..] == ops[i + 1..];
      Perform(e, ops[i]);
      i := i + 1;
    }
  }

  ghost predicate DistinctKeys(d: Dictionary)
    requires Positions(d)
  {
    forall u, v :: u in d.nodes && v in d.nodes && u != v ==> KeyAt(d.text, u) != KeyAt(d.text, v)
  }

  /** No run from distinct keys ever puts two nodes with equal keys into the dictionary. */
  lemma {:induction false} RunKeepsKeysDistinct(d: Dictionary, ops: seq<Op>)
    requires LegalRun(d, ops) && DistinctKeys(d)
    ensures Positions(ApplyAll(d, ops)) && DistinctKeys(ApplyAll(d, ops))
    decreases |ops|
  {
    if ops != [] {
      var d' := Apply(d, ops[0]);
      assert DistinctKeys(d') by {
        if ops[0].Write? {
          assert forall v :: v in d.nodes ==> KeyAt(d'.text, v) == KeyAt(d.text, v);
        }
      }
      RunKeepsKeysDistinct(d', ops[1..]);
    }
  }
}
