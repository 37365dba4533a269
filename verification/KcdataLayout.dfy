/**
 The layout of a kcdata buffer as a sequence of records, and what a walk reads from it.
 */
module KcdataLayout {
  import opened Bytes
  import opened Kcdata

  /** One item as it was put in: its type, its flags, and its data without padding. */
  datatype Record = Record(itype: nat, flags: nat, data: seq<Byte>)

  function Padded(r: Record): nat { |r.data| + CalcPadding(|r.data|) }

  function HeaderOf(r: Record): Item { Item(r.itype, Padded(r), r.flags) }

  /** The end marker. */
  const END_ITEM := Item(BUFFER_END, 0, 0)

  /** The memory from `p` on begins with `bytes`. */
  ghost predicate At(mem: seq<Byte>, p: nat, bytes: seq<Byte>) {
    p + |bytes| <= |mem| && mem[p..p + |bytes|] == bytes
  }

  /** The item at `p` has the record's type, padded size and flags, and its data and zeros behind. */
  ghost predicate RecordAt(mem: seq<Byte>, p: nat, r: Record) {
    && p + HEADER + Padded(r) <= |mem|
    && HeaderAt(mem, p) == HeaderOf(r)
    && At(mem, p + HEADER, r.data)
    && At(mem, p + HEADER + |r.data|, Repeat(0, CalcPadding(|r.data|)))
  }

  /** Where record `k` begins: behind the records before it. */
  function Place(begin: nat, rs: seq<Record>, k: nat): nat
    requires k <= |rs|
    decreases k
  {
    if k == 0 then begin else Place(begin, rs, k - 1) + HEADER + Padded(rs[k - 1])
  }

  lemma {:induction false} PlaceOrder(begin: nat, rs: seq<Record>, j: nat, k: nat)
    requires j < k <= |rs|
    ensures Place(begin, rs, j) + HEADER + Padded(rs[j]) <= Place(begin, rs, k)
    decreases k
  {
    if j < k - 1 { PlaceOrder(begin, rs, j, k - 1); }
  }

  lemma {:induction false} SamePlace(begin: nat, xs: seq<Record>, ys: seq<Record>, k: nat)
    requires xs <= ys && k <= |xs|
    ensures Place(begin, xs, k) == Place(begin, ys, k)
    decreases k
  {
    if k > 0 { SamePlace(begin, xs, ys, k - 1); }
  }

  /** The memory from `begin` on holds the records, one behind the other. */
  ghost predicate InPlace(mem: seq<Byte>, begin: nat, rs: seq<Record>) {
    forall k {:trigger RecordAt(mem, Place(begin, rs, k), rs[k])} ::
      0 <= k < |rs| ==> RecordAt(mem, Place(begin, rs, k), rs[k])
  }

  /** An end marker is at `p`. */
  ghost predicate EndAt(mem: seq<Byte>, p: nat) {
    p + HEADER <= |mem| && HeaderAt(mem, p) == END_ITEM
  }

  /** The memory from `begin` on holds the records and then the end marker, all before `end`. */
  ghost predicate Holds(mem: seq<Byte>, begin: nat, end: nat, rs: seq<Record>) {
    && Place(begin, rs, |rs|) + HEADER <= end <= |mem|
    && InPlace(mem, begin, rs)
    && EndAt(mem, Place(begin, rs, |rs|))
  }

  /** How many records, from `k` on, precede the first that has the type of the end marker. */
  function BeforeEnd(rs: seq<Record>, k: nat): (n: nat)
    requires k <= |rs|
    ensures k <= n <= |rs|
    ensures forall j :: k <= j < n ==> rs[j].itype != BUFFER_END
    ensures n < |rs| ==> rs[n].itype == BUFFER_END
    decreases |rs| - k
  {
    if k < |rs| && rs[k].itype != BUFFER_END then BeforeEnd(rs, k + 1) else k
  }

  /** What a walk finds on arriving at record `k`, or at the end marker. */
  lemma Arrive(mem: seq<Byte>, begin: nat, end: nat, rs: seq<Record>, k: nat)
    requires Holds(mem, begin, end, rs) && k <= |rs|
    ensures var it := Iter(Place(begin, rs, k), end);
            && Valid(mem, it)
            && HeaderAt(mem, it.item) == (if k < |rs| then HeaderOf(rs[k]) else END_ITEM)
            && (k < |rs| ==> Next(mem, it) == Iter(Place(begin, rs, k + 1), end))
  {
    if k < |rs| {
      assert RecordAt(mem, Place(begin, rs, k), rs[k]);
      PlaceOrder(begin, rs, k, |rs|);
    }
  }

  /** The places of the records from `k` up to `n`. */
  function Places(begin: nat, rs: seq<Record>, k: nat, n: nat): (ps: seq<nat>)
    requires k <= n <= |rs|
    ensures |ps| == n - k
    decreases n - k
  {
    if k == n then [] else [Place(begin, rs, k)] + Places(begin, rs, k + 1, n)
  }

  lemma {:induction false} PlacesAt(begin: nat, rs: seq<Record>, k: nat, n: nat, j: nat)
    requires k <= n <= |rs| && j < n - k
    ensures Places(begin, rs, k, n)[j] == Place(begin, rs, k + j)
    decreases n - k
  {
    if j > 0 { PlacesAt(begin, rs, k + 1, n, j - 1); }
  }

  /** A walk from record `k` on. */
  lemma {:induction false} WalkFrom(mem: seq<Byte>, begin: nat, end: nat, rs: seq<Record>, k: nat)
    requires Holds(mem, begin, end, rs) && k <= |rs|
    ensures var it, n := Iter(Place(begin, rs, k), end), BeforeEnd(rs, k);
            Visited(mem, it) == Places(begin, rs, k, n) && Final(mem, it) == Iter(Place(begin, rs, n), end)
    decreases |rs| - k
  {
    Arrive(mem, begin, end, rs, k);
    if k < |rs| && rs[k].itype != BUFFER_END { WalkFrom(mem, begin, end, rs, k + 1); }
  }

  lemma VisitedRecord(mem: seq<Byte>, begin: nat, end: nat, rs: seq<Record>, j: nat)
    requires Holds(mem, begin, end, rs) && j < BeforeEnd(rs, 0)
    ensures var ps := Visited(mem, Iter(begin, end));
            j < |ps| && RecordAt(mem, ps[j], rs[j])
  {
    WalkFrom(mem, begin, end, rs, 0);
    PlacesAt(begin, rs, 0, BeforeEnd(rs, 0), j);
    assert RecordAt(mem, Place(begin, rs, j), rs[j]);
  }

  /**
   A walk from `begin` does not fail and reads the records in order up to the first that carries the
   end marker's type, and so reads all of them exactly when none does.
   */
  ghost predicate ReadsBack(mem: seq<Byte>, begin: nat, end: nat, rs: seq<Record>)
    requires end <= |mem|
  {
    var ps := Visited(mem, Iter(begin, end));
    && !Failed(mem, Final(mem, Iter(begin, end)))
    && |ps| == BeforeEnd(rs, 0)
    && (|ps| == |rs| <==> forall j :: 0 <= j < |rs| ==> rs[j].itype != BUFFER_END)
    && forall j :: 0 <= j < |ps| ==> RecordAt(mem, ps[j], rs[j])
  }

  /** A walk over a laid-out buffer reads its records back. */
  lemma WalkReadsRecords(mem: seq<Byte>, begin: nat, end: nat, rs: seq<Record>)
    requires Holds(mem, begin, end, rs)
    ensures ReadsBack(mem, begin, end, rs)
  {
    WalkFrom(mem, begin, end, rs, 0);
    Arrive(mem, begin, end, rs, BeforeEnd(rs, 0));
    var ps := Visited(mem, Iter(begin, end));
    forall j | 0 <= j < |ps| ensures RecordAt(mem, ps[j], rs[j]) {
      VisitedRecord(mem, begin, end, rs, j);
    }
  }

  /** Record `k` is the first that an iterator takes for type `t`. */
  ghost predicate FirstRecord(rs: seq<Record>, t: nat, k: nat) {
    && k < |rs| && TypeOf(HeaderOf(rs[k])) == t
    && forall j :: 0 <= j < k ==> TypeOf(HeaderOf(rs[j])) != t
  }

  ghost predicate NoRecord(rs: seq<Record>, t: nat) {
    forall j :: 0 <= j < |rs| ==> TypeOf(HeaderOf(rs[j])) != t
  }

  lemma SameFirst(mem: seq<Byte>, ps: seq<nat>, rs: seq<Record>, t: nat, k: nat)
    requires |ps| == |rs|
    requires forall j :: 0 <= j < |rs| ==> ps[j] + HEADER <= |mem| && HeaderAt(mem, ps[j]) == HeaderOf(rs[j])
    ensures FirstOfType(mem, ps, t, k) <==> FirstRecord(rs, t, k)
    ensures NoneOfType(mem, ps, t) <==> NoRecord(rs, t)
  {
  }

  /** The records that a walk reaches. */
  ghost function Reached(rs: seq<Record>): seq<Record> { rs[..BeforeEnd(rs, 0)] }

  lemma VisitedAt(mem: seq<Byte>, begin: nat, end: nat, rs: seq<Record>, k: nat)
    requires Holds(mem, begin, end, rs) && k < |Reached(rs)|
    ensures var ps := Visited(mem, Iter(begin, end));
            && |ps| == |Reached(rs)| && ps[k] == Place(begin, rs, k)
            && ps[k] + HEADER <= |mem| && HeaderAt(mem, ps[k]) == HeaderOf(rs[k])
  {
    WalkFrom(mem, begin, end, rs, 0);
    PlacesAt(begin, rs, 0, BeforeEnd(rs, 0), k);
    Arrive(mem, begin, end, rs, k);
  }

  lemma VisitedRecords(mem: seq<Byte>, begin: nat, end: nat, rs: seq<Record>, t: nat)
    requires Holds(mem, begin, end, rs)
    ensures var ps := Visited(mem, Iter(begin, end));
            && |ps| == |Reached(rs)|
            && (NoneOfType(mem, ps, t) <==> NoRecord(Reached(rs), t))
            && (forall k :: 0 <= k < |ps| ==> ps[k] == Place(begin, rs, k))
            && (forall k: nat :: FirstOfType(mem, ps, t, k) <==> FirstRecord(Reached(rs), t, k))
  {
    WalkFrom(mem, begin, end, rs, 0);
    var ps, front := Visited(mem, Iter(begin, end)), Reached(rs);
    forall k | 0 <= k < |front|
      ensures ps[k] == Place(begin, rs, k) && ps[k] + HEADER <= |mem| && HeaderAt(mem, ps[k]) == HeaderOf(front[k])
    {
      VisitedAt(mem, begin, end, rs, k);
    }
    forall k: nat ensures FirstOfType(mem, ps, t, k) <==> FirstRecord(front, t, k) {
      SameFirst(mem, ps, front, t, k);
    }
  }

  /**
   kcdata_iter_find_type over a laid-out buffer: the iterator at the first record of the type that a
   walk reaches, and the invalid one exactly when there is no such record.
   */
  method FindRecord(mem: seq<Byte>, begin: nat, end: nat, ghost rs: seq<Record>, t: nat) returns (r: Iter)
    requires Holds(mem, begin, end, rs)
    ensures r == INVALID <==> NoRecord(Reached(rs), t)
    ensures forall k: nat :: FirstRecord(Reached(rs), t, k) ==> r == Iter(Place(begin, rs, k), end)
  {
    r := FindType(mem, Iter(begin, end), t);
    VisitedRecords(mem, begin, end, rs, t);
  }

  /** The bytes of a 32-bit word, lowest first. */
  function WordBytes(w: nat): (bytes: seq<Byte>)
    requires w < WORD
    ensures |bytes| == 4
  {
    [w % 0x100, w / 0x100 % 0x100, w / 0x1_0000 % 0x100, w / 0x100_0000]
  }

  /** The fields fit their places in a struct kcdata_item. */
  predicate Fits(h: Item) { h.itype < WORD && h.size < WORD && h.flags < WORD * WORD }

  /** The bytes of a struct kcdata_item. */
  function HeaderBytes(h: Item): (bytes: seq<Byte>)
    requires Fits(h)
    ensures |bytes| == HEADER
  {
    WordBytes(h.itype) + WordBytes(h.size) + WordBytes(h.flags % WORD) + WordBytes(h.flags / WORD)
  }

  lemma AtConcat(mem: seq<Byte>, p: nat, xs: seq<Byte>, ys: seq<Byte>)
    requires At(mem, p, xs + ys)
    ensures At(mem, p, xs) && At(mem, p + |xs|, ys)
  {
    var both := mem[p..p + |xs + ys|];
    assert mem[p..p + |xs|] == both[..|xs|] == xs;
    assert mem[p + |xs|..p + |xs| + |ys|] == both[|xs|..] == ys;
  }

  /** A stored word reads back. */
  lemma WordReadBack(mem: seq<Byte>, p: nat, w: nat)
    requires w < WORD && At(mem, p, WordBytes(w))
    ensures Word(mem, p) == w
  {
    var bytes := mem[p..p + 4];
    assert mem[p] == bytes[0] && mem[p + 1] == bytes[1] && mem[p + 2] == bytes[2] && mem[p + 3] == bytes[3];
    var w1, w2, w3 := w / 0x100, w / 0x1_0000, w / 0x100_0000;
    assert w2 == w1 / 0x100 && w3 == w2 / 0x100;
  }

  /** A stored header reads back. */
  lemma HeaderReadBack(mem: seq<Byte>, p: nat, h: Item)
    requires Fits(h) && At(mem, p, HeaderBytes(h))
    ensures HeaderAt(mem, p) == h
  {
    var t, s, lo, hi := WordBytes(h.itype), WordBytes(h.size), WordBytes(h.flags % WORD), WordBytes(h.flags / WORD);
    AtConcat(mem, p, t + s + lo, hi);
    AtConcat(mem, p, t + s, lo);
    AtConcat(mem, p, t, s);
    WordReadBack(mem, p, h.itype);
    WordReadBack(mem, p + 4, h.size);
    WordReadBack(mem, p + 8, h.flags % WORD);
    WordReadBack(mem, p + 12, h.flags / WORD);
  }
}
