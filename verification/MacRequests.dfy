/**
 When mac_externalize succeeds and how it fails: for every request, buffer size and set of replies, the
 error and what the buffer holds.
 */
module MacRequests {
  import opened MacErrno
  import opened Sequences
  import opened MacNamespaces
  import opened MacLabelText
  import opened MacExternalize

  // ---- Who is asked -----------------------------------------------------------------------------------

  predicate IsOptional(element: string) { element == "*" || (element != "" && element[0] == '?') }

  /** The namespace is asked for: by its name, or by "*" unless its own name begins with a question mark. */
  predicate AskedFor(name: string, element: string) {
    if element == "*" then name == "" || name[0] != '?' else Strip(name) == Strip(element)
  }

  lemma {:induction false} VisitsIff(list: seq<Element>, element: string, all: bool, v: Visit)
    ensures v in Visits(list, element, all)
            <==> exists e :: e in list && Matches(e, element, all) && v.stored == e.name && v.handle in e.listeners
    decreases |list|
  {
    if list != [] {
      var n := |list| - 1;
      VisitsIff(list[..n], element, all, v);
      assert list == list[..n] + [list[n]];
      assert v in VisitsOf(list[n]) <==> v.stored == list[n].name && v.handle in list[n].listeners by {
        ListenersVisited(list[n], v);
      }
    }
  }

  lemma ListenersVisited(e: Element, v: Visit)
    ensures v in VisitsOf(e) <==> v.stored == e.name && v.handle in e.listeners
  {
    if v.stored == e.name && v.handle in e.listeners {
      var i :| 0 <= i < |e.listeners| && e.listeners[i] == v.handle;
      assert VisitsOf(e)[i] == v;
    }
  }

  /** Exactly the listeners of the namespaces asked for are asked; dynamic ones only if there are dynamic policies. */
  lemma AskedIff(ls: Lists, hasDynamic: bool, element: string, v: Visit)
    ensures v in ElementVisits(ls, hasDynamic, element)
            <==> exists e :: (e in ls.statics || (hasDynamic && e in ls.dynamics)) && AskedFor(e.name, element)
                          && v.stored == e.name && v.handle in e.listeners
  {
    var ignore := element != "" && element[0] == '?';
    var all := !ignore && element == "*";
    var key := if ignore then element[1..] else element;
    VisitsIff(ls.statics, key, all, v);
    VisitsIff(ls.dynamics, key, all, v);
    assert forall e: Element :: Matches(e, key, all) <==> AskedFor(e.name, element);
  }

  // ---- One listener -------------------------------------------------------------------------------------

  /** The reply of a listener fits behind n characters, with its comma if it stays. */
  predicate Fits(n: nat, v: Visit, op: Operation, size: int) {
    var r := op(v.handle, v.stored);
    r.Reply? ==> n + |Strip(v.stored)| + 1 + |r.text| + (if r.err == 0 then 1 else 0) <= size - 1
  }

  /** It is neither an error nor too long. */
  predicate Fine(n: nat, v: Visit, op: Operation, size: int) {
    var r := op(v.handle, v.stored);
    r.Reply? ==> r.err in {0, ENOENT} && Fits(n, v, op, size)
  }

  /** The error that it is otherwise. */
  function Problem(n: nat, v: Visit, op: Operation, size: int): int
    requires !Fine(n, v, op, size)
  {
    if Fits(n, v, op, size) then op(v.handle, v.stored).err else OVERFLOW
  }

  /** The buffer after a listener has failed: the error, and what was there with a part of its entry behind. */
  ghost predicate FailedAt(r: Buffer, ps: seq<Pair>, v: Visit, op: Operation, size: int) {
    var n := |Text(ps)|;
    && !Fine(n, v, op, size) && r.error == Problem(n, v, op, size) != 0 && r.pairs == ps
    && (r.full <==> !Fits(n, v, op, size))
    && var entry := EntryText(Pair(Strip(v.stored), op(v.handle, v.stored).text));
       Text(ps) <= r.text <= Text(ps) + entry && (!r.full ==> r.text == Text(ps) + entry)
  }

  lemma WriteOneOutcome(b: Buffer, v: Visit, op: Operation, size: int)
    requires b.error == 0 && Consistent(b)
    ensures if Fine(|b.text|, v, op, size) then WriteOne(b, v, op, size).error == 0
            else FailedAt(WriteOne(b, v, op, size), b.pairs, v, op, size)
  {
    var r := op(v.handle, v.stored);
    if r.Reply? {
      var name := Strip(v.stored);
      assert b.text + EntryText(Pair(name, r.text)) == b.text + name + "/" + r.text;
      assert b.text <= b.text + name + "/" <= b.text + name + "/" + r.text;
    }
  }

  // ---- All listeners of an element ------------------------------------------------------------------------

  /** Reply k is fine behind the entries ps and those supplied before it. */
  predicate FineVisit(ps: seq<Pair>, vs: seq<Visit>, op: Operation, size: int, k: nat)
    requires k < |vs|
  {
    Fine(|Text(ps + Supplied(vs[..k], op))|, vs[k], op, size)
  }

  ghost predicate AllFine(ps: seq<Pair>, vs: seq<Visit>, op: Operation, size: int) {
    forall k: nat :: k < |vs| ==> FineVisit(ps, vs, op, size, k)
  }

  /** The step from the listeners before k to listener k. */
  lemma WriteNext(b: Buffer, vs: seq<Visit>, op: Operation, size: int, k: nat)
    requires b.error == 0 && Consistent(b) && k < |vs| && WriteAll(b, vs[..k], op, size).error == 0
    ensures var r, ps := WriteAll(b, vs[..k + 1], op, size), b.pairs + Supplied(vs[..k], op);
            if FineVisit(b.pairs, vs, op, size, k) then r.error == 0 else FailedAt(r, ps, vs[k], op, size)
  {
    WriteAllText(b, vs[..k], op, size);
    WriteOneOutcome(WriteAll(b, vs[..k], op, size), vs[k], op, size);
    assert vs[..k + 1][..k] == vs[..k];
  }

  lemma {:induction false} WriteAllFine(b: Buffer, vs: seq<Visit>, op: Operation, size: int, n: nat)
    requires b.error == 0 && Consistent(b) && n <= |vs|
    requires forall k: nat :: k < n ==> FineVisit(b.pairs, vs, op, size, k)
    ensures WriteAll(b, vs[..n], op, size).error == 0
    decreases n
  {
    if n > 0 {
      WriteAllFine(b, vs, op, size, n - 1);
      WriteNext(b, vs, op, size, n - 1);
    }
  }

  /** The first reply that is not fine decides. */
  lemma WriteAllFails(b: Buffer, vs: seq<Visit>, op: Operation, size: int, k: nat)
    requires b.error == 0 && Consistent(b) && k < |vs| && !FineVisit(b.pairs, vs, op, size, k)
    requires forall j: nat :: j < k ==> FineVisit(b.pairs, vs, op, size, j)
    ensures FailedAt(WriteAll(b, vs, op, size), b.pairs + Supplied(vs[..k], op), vs[k], op, size)
  {
    WriteAllFine(b, vs, op, size, k);
    WriteNext(b, vs, op, size, k);
    assert vs == vs[..k + 1] + vs[k + 1..];
    WriteAllSplit(b, vs[..k + 1], vs[k + 1..], op, size);
  }

  lemma FirstProblem(ps: seq<Pair>, vs: seq<Visit>, op: Operation, size: int) returns (k: nat)
    requires !AllFine(ps, vs, op, size)
    ensures k < |vs| && !FineVisit(ps, vs, op, size, k) && forall j: nat :: j < k ==> FineVisit(ps, vs, op, size, j)
  {
    var bad := (k: nat) => k < |vs| && !FineVisit(ps, vs, op, size, k);
    var n: nat :| n < |vs| && !FineVisit(ps, vs, op, size, n);
    k := Least(bad, n);
    forall j: nat | j < k ensures FineVisit(ps, vs, op, size, j) {
      assert !bad(j);
    }
  }

  /** An element succeeds behind the entries ps: all replies are fine, and one supplies an entry if one must. */
  ghost predicate ElementFine(ps: seq<Pair>, ls: Lists, hasDynamic: bool, element: string, op: Operation, size: int) {
    var vs := ElementVisits(ls, hasDynamic, element);
    AllFine(ps, vs, op, size) && (IsOptional(element) || Supplied(vs, op) != [])
  }

  /** The buffer after an element has failed. */
  ghost predicate ElementFailed(r: Buffer, ps: seq<Pair>, ls: Lists, hasDynamic: bool, element: string,
                                op: Operation, size: int) {
    var vs := ElementVisits(ls, hasDynamic, element);
    if AllFine(ps, vs, op, size) then r == Buffer(ENOENT, Text(ps), ps, false)
    else exists k: nat ::
      && k < |vs| && (forall j: nat :: j < k ==> FineVisit(ps, vs, op, size, j))
      && FailedAt(r, ps + Supplied(vs[..k], op), vs[k], op, size)
  }

  lemma ElementOutcome(b: Buffer, ls: Lists, hasDynamic: bool, element: string, op: Operation, size: int)
    requires b.error == 0 && Consistent(b)
    ensures var r := ElementWritten(b, ls, hasDynamic, element, op, size);
            && (r.error == 0 <==> ElementFine(b.pairs, ls, hasDynamic, element, op, size))
            && (r.error == 0 ==>
                  Consistent(r) && r.pairs == b.pairs + Supplied(ElementVisits(ls, hasDynamic, element), op))
            && (r.error != 0 ==> ElementFailed(r, b.pairs, ls, hasDynamic, element, op, size))
  {
    var vs := ElementVisits(ls, hasDynamic, element);
    WriteAllText(b, vs, op, size);
    if AllFine(b.pairs, vs, op, size) {
      WriteAllFine(b, vs, op, size, |vs|);
      assert vs[..|vs|] == vs;
      var w := WriteAll(b, vs, op, size);
      assert w.pairs == b.pairs <==> Supplied(vs, op) == [];
    } else {
      var k := FirstProblem(b.pairs, vs, op, size);
      WriteAllFails(b, vs, op, size, k);
    }
  }

  // ---- Whole requests ---------------------------------------------------------------------------------------

  lemma {:induction false} RequestedNext(ls: Lists, hasDynamic: bool, es: seq<string>, op: Operation, k: nat)
    requires k < |es|
    ensures Requested(ls, hasDynamic, es[..k + 1], op) ==
            Supplied(ElementVisits(ls, hasDynamic, es[0]), op) + Requested(ls, hasDynamic, es[1..][..k], op)
  {
    assert es[..k + 1][1..] == es[1..][..k];
  }

  /** Element k of a request succeeds behind the entries of those before it. */
  ghost predicate FineAt(ps: seq<Pair>, ls: Lists, hasDynamic: bool, es: seq<string>, op: Operation, size: int, k: nat)
    requires k < |es|
  {
    ElementFine(ps + Requested(ls, hasDynamic, es[..k], op), ls, hasDynamic, es[k], op, size)
  }

  lemma FineShift(ps: seq<Pair>, ls: Lists, hasDynamic: bool, es: seq<string>, op: Operation, size: int, k: nat)
    requires k + 1 < |es|
    ensures var front := Supplied(ElementVisits(ls, hasDynamic, es[0]), op);
            && ps + Requested(ls, hasDynamic, es[..k + 1], op) ==
               ps + front + Requested(ls, hasDynamic, es[1..][..k], op)
            && (FineAt(ps, ls, hasDynamic, es, op, size, k + 1) <==>
                FineAt(ps + front, ls, hasDynamic, es[1..], op, size, k))
  {
    RequestedNext(ls, hasDynamic, es, op, k);
    Regroup(ps, Supplied(ElementVisits(ls, hasDynamic, es[0]), op), Requested(ls, hasDynamic, es[1..][..k], op));
  }

  /** The first element of a request: it fails the request, or the rest goes on behind its entries. */
  lemma FirstElement(b: Buffer, ls: Lists, hasDynamic: bool, es: seq<string>, op: Operation, size: int)
    returns (r: Buffer)
    requires b.error == 0 && Consistent(b) && es != []
    ensures r == ElementWritten(b, ls, hasDynamic, es[0], op, size)
    ensures if FineAt(b.pairs, ls, hasDynamic, es, op, size, 0)
            then && r.error == 0 && Consistent(r)
                 && r.pairs == b.pairs + Supplied(ElementVisits(ls, hasDynamic, es[0]), op)
            else r.error != 0 && ElementFailed(r, b.pairs, ls, hasDynamic, es[0], op, size)
  {
    ElementOutcome(b, ls, hasDynamic, es[0], op, size);
    r := ElementWritten(b, ls, hasDynamic, es[0], op, size);
    assert b.pairs + Requested(ls, hasDynamic, es[..0], op) == b.pairs;
  }

  /** A request fails as its first element that does not succeed. */
  lemma {:induction false} RequestFails(b: Buffer, ls: Lists, hasDynamic: bool, es: seq<string>, op: Operation,
                                        size: int, k: nat)
    requires b.error == 0 && Consistent(b) && k < |es|
    requires forall j: nat :: j < k ==> FineAt(b.pairs, ls, hasDynamic, es, op, size, j)
    requires !FineAt(b.pairs, ls, hasDynamic, es, op, size, k)
    ensures ElementFailed(RequestWritten(b, ls, hasDynamic, es, op, size),
                          b.pairs + Requested(ls, hasDynamic, es[..k], op), ls, hasDynamic, es[k], op, size)
    decreases |es|
  {
    var r := FirstElement(b, ls, hasDynamic, es, op, size);
    if k == 0 {
      assert b.pairs + Requested(ls, hasDynamic, es[..0], op) == b.pairs;
    } else {
      assert FineAt(b.pairs, ls, hasDynamic, es, op, size, 0);
      forall j: nat | j < k - 1 ensures FineAt(r.pairs, ls, hasDynamic, es[1..], op, size, j) {
        assert FineAt(b.pairs, ls, hasDynamic, es, op, size, j + 1);
        FineShift(b.pairs, ls, hasDynamic, es, op, size, j);
      }
      FineShift(b.pairs, ls, hasDynamic, es, op, size, k - 1);
      RequestFails(r, ls, hasDynamic, es[1..], op, size, k - 1);
    }
  }

  lemma {:induction false} RequestSucceeds(b: Buffer, ls: Lists, hasDynamic: bool, es: seq<string>, op: Operation,
                                           size: int)
    requires b.error == 0 && Consistent(b)
    requires forall k: nat :: k < |es| ==> FineAt(b.pairs, ls, hasDynamic, es, op, size, k)
    ensures RequestWritten(b, ls, hasDynamic, es, op, size).error == 0
    decreases |es|
  {
    if es != [] {
      var r := FirstElement(b, ls, hasDynamic, es, op, size);
      assert FineAt(b.pairs, ls, hasDynamic, es, op, size, 0);
      forall k: nat | k < |es[1..]| ensures FineAt(r.pairs, ls, hasDynamic, es[1..], op, size, k) {
        assert FineAt(b.pairs, ls, hasDynamic, es, op, size, k + 1);
        FineShift(b.pairs, ls, hasDynamic, es, op, size, k);
      }
      RequestSucceeds(r, ls, hasDynamic, es[1..], op, size);
    }
  }

  /** A request succeeds exactly when every element does. */
  lemma RequestSucceedsIff(b: Buffer, ls: Lists, hasDynamic: bool, es: seq<string>, op: Operation, size: int)
    requires b.error == 0 && Consistent(b)
    ensures RequestWritten(b, ls, hasDynamic, es, op, size).error == 0
            <==> forall k: nat :: k < |es| ==> FineAt(b.pairs, ls, hasDynamic, es, op, size, k)
  {
    if forall k: nat :: k < |es| ==> FineAt(b.pairs, ls, hasDynamic, es, op, size, k) {
      RequestSucceeds(b, ls, hasDynamic, es, op, size);
    } else {
      var k := FirstFailure(b.pairs, ls, hasDynamic, es, op, size);
      RequestFails(b, ls, hasDynamic, es, op, size, k);
    }
  }

  lemma FirstFailure(ps: seq<Pair>, ls: Lists, hasDynamic: bool, es: seq<string>, op: Operation, size: int)
    returns (k: nat)
    requires !forall k: nat :: k < |es| ==> FineAt(ps, ls, hasDynamic, es, op, size, k)
    ensures k < |es| && !FineAt(ps, ls, hasDynamic, es, op, size, k)
    ensures forall j: nat :: j < k ==> FineAt(ps, ls, hasDynamic, es, op, size, j)
  {
    var bad := (k: nat) => k < |es| && !FineAt(ps, ls, hasDynamic, es, op, size, k);
    var n: nat :| n < |es| && !FineAt(ps, ls, hasDynamic, es, op, size, n);
    k := Least(bad, n);
    forall j: nat | j < k ensures FineAt(ps, ls, hasDynamic, es, op, size, j) {
      assert !bad(j);
    }
  }

  /**
   What is handed out after a failure: all that the buffer holds if it has overflowed, and otherwise all
   but the last character, which is one of the entry that failed.
   */
  lemma FailureOutput(r: Buffer, ps: seq<Pair>, v: Visit, op: Operation, size: int)
    requires FailedAt(r, ps, v, op, size)
    ensures Text(ps) <= Output(r)
    ensures !Fits(|Text(ps)|, v, op, size) ==> Output(r) == r.text
    ensures Fits(|Text(ps)|, v, op, size) ==>
              var entry := EntryText(Pair(Strip(v.stored), op(v.handle, v.stored).text));
              |Output(r)| == |Text(ps) + entry| - 1 && Output(r) <= Text(ps) + entry
  {
  }

  // ---- With room, and policies that only decline ----------------------------------------------------------

  /** How many characters the replies are, with the name, the slash and a comma for each. */
  function Weight(vs: seq<Visit>, op: Operation): nat {
    if vs == [] then 0
    else
      var v := vs[|vs| - 1];
      var r := op(v.handle, v.stored);
      Weight(vs[..|vs| - 1], op) + if r.Reply? then |Strip(v.stored)| + |r.text| + 2 else 0
  }

  function RequestWeight(ls: Lists, hasDynamic: bool, es: seq<string>, op: Operation): nat {
    if es == [] then 0
    else Weight(ElementVisits(ls, hasDynamic, es[0]), op) + RequestWeight(ls, hasDynamic, es[1..], op)
  }

  lemma {:induction false} TextConcat(ps: seq<Pair>, qs: seq<Pair>)
    ensures |Text(ps + qs)| == |Text(ps)| + |Text(qs)|
    decreases |qs|
  {
    if qs == [] {
      assert ps + qs == ps;
    } else {
      assert (ps + qs)[..|ps + qs| - 1] == ps + qs[..|qs| - 1];
      TextConcat(ps, qs[..|qs| - 1]);
    }
  }

  /** What is written is no longer than the replies. */
  lemma {:induction false} SuppliedWeight(vs: seq<Visit>, op: Operation)
    ensures |Text(Supplied(vs, op))| <= Weight(vs, op)
    decreases |vs|
  {
    if vs != [] {
      var n := |vs| - 1;
      SuppliedWeight(vs[..n], op);
      var r := op(vs[n].handle, vs[n].stored);
      if r.Reply? && r.err == 0 {
        var before, p := Supplied(vs[..n], op), Pair(Strip(vs[n].stored), r.text);
        assert (before + [p])[..|before|] == before;
      } else {
        assert Supplied(vs, op) == Supplied(vs[..n], op);
      }
    }
  }

  lemma {:induction false} WeightGrows(vs: seq<Visit>, op: Operation, k: nat)
    requires k <= |vs|
    ensures Weight(vs[..k], op) <= Weight(vs, op)
    decreases |vs|
  {
    if k == |vs| {
      assert vs[..k] == vs;
    } else {
      var init := vs[..|vs| - 1];
      WeightGrows(init, op, k);
      assert init[..k] == vs[..k];
    }
  }

  lemma {:induction false} RequestedWeight(ls: Lists, hasDynamic: bool, es: seq<string>, op: Operation, k: nat)
    requires k < |es|
    ensures |Text(Requested(ls, hasDynamic, es[..k], op))| + Weight(ElementVisits(ls, hasDynamic, es[k]), op)
            <= RequestWeight(ls, hasDynamic, es, op)
    decreases k
  {
    if k > 0 {
      var vs, rest := ElementVisits(ls, hasDynamic, es[0]), es[1..];
      RequestedWeight(ls, hasDynamic, rest, op, k - 1);
      assert |Text(Requested(ls, hasDynamic, es[..k], op))| ==
             |Text(Supplied(vs, op))| + |Text(Requested(ls, hasDynamic, rest[..k - 1], op))| by {
        RequestedNext(ls, hasDynamic, es, op, k - 1);
        TextConcat(Supplied(vs, op), Requested(ls, hasDynamic, rest[..k - 1], op));
      }
      SuppliedWeight(vs, op);
    } else {
      assert es[..0] == [];
    }
  }

  /** Every policy that is asked has no such operation, supplies an entry or declines. */
  ghost predicate OnlyDecline(ls: Lists, hasDynamic: bool, es: seq<string>, op: Operation) {
    forall k, v :: 0 <= k < |es| && v in ElementVisits(ls, hasDynamic, es[k]) ==>
      var r := op(v.handle, v.stored); r.Reply? ==> r.err in {0, ENOENT}
  }

  /** Element k asks for nothing that must be there, or gets an entry. */
  ghost predicate Answered(ls: Lists, hasDynamic: bool, es: seq<string>, op: Operation, k: nat)
    requires k < |es|
  {
    IsOptional(es[k]) || Supplied(ElementVisits(ls, hasDynamic, es[k]), op) != []
  }

  /** A reply fits behind the entries before it if the buffer holds as much as they weigh. */
  lemma RoomForOne(ps: seq<Pair>, vs: seq<Visit>, op: Operation, size: int, m: nat)
    requires m < |vs| && |Text(ps)| + Weight(vs, op) < size
    ensures Fits(|Text(ps + Supplied(vs[..m], op))|, vs[m], op, size)
  {
    TextConcat(ps, Supplied(vs[..m], op));
    SuppliedWeight(vs[..m], op);
    WeightGrows(vs, op, m + 1);
    assert vs[..m + 1][..m] == vs[..m] && vs[..m + 1][m] == vs[m];
  }

  lemma RoomForAll(ls: Lists, hasDynamic: bool, es: seq<string>, op: Operation, size: int, k: nat)
    requires k < |es| && OnlyDecline(ls, hasDynamic, es, op) && RequestWeight(ls, hasDynamic, es, op) < size
    ensures var vs := ElementVisits(ls, hasDynamic, es[k]);
            AllFine(Requested(ls, hasDynamic, es[..k], op), vs, op, size)
  {
    var ps, vs := Requested(ls, hasDynamic, es[..k], op), ElementVisits(ls, hasDynamic, es[k]);
    RequestedWeight(ls, hasDynamic, es, op, k);
    forall m: nat | m < |vs| ensures FineVisit(ps, vs, op, size, m) {
      RoomForOne(ps, vs, op, size, m);
      assert vs[m] in vs;
    }
  }

  lemma RoomIsEnough(ls: Lists, hasDynamic: bool, es: seq<string>, op: Operation, size: int, k: nat)
    requires k < |es| && OnlyDecline(ls, hasDynamic, es, op) && RequestWeight(ls, hasDynamic, es, op) < size
    ensures FineAt([], ls, hasDynamic, es, op, size, k) <==> Answered(ls, hasDynamic, es, op, k)
  {
    var ps := Requested(ls, hasDynamic, es[..k], op);
    assert FineAt([], ls, hasDynamic, es, op, size, k) <==> ElementFine(ps, ls, hasDynamic, es[k], op, size) by {
      assert [] + ps == ps;
    }
    RoomForAll(ls, hasDynamic, es, op, size, k);
  }

  /**
   With room for all replies, and policies that only decline: a request succeeds exactly when every
   element is optional, asks for all, or is supplied.
   */
  lemma RequestWithRoom(ls: Lists, hasDynamic: bool, es: seq<string>, op: Operation, size: int)
    requires OnlyDecline(ls, hasDynamic, es, op) && RequestWeight(ls, hasDynamic, es, op) < size
    ensures RequestWritten(EMPTY, ls, hasDynamic, es, op, size).error == 0
            <==> forall k: nat :: k < |es| ==> Answered(ls, hasDynamic, es, op, k)
  {
    forall k: nat | k < |es|
      ensures FineAt([], ls, hasDynamic, es, op, size, k) <==> Answered(ls, hasDynamic, es, op, k)
    {
      RoomIsEnough(ls, hasDynamic, es, op, size, k);
    }
    RequestSucceedsIff(EMPTY, ls, hasDynamic, es, op, size);
  }

  /** The first element that is none of these fails. */
  lemma FirstUnanswered(ls: Lists, hasDynamic: bool, es: seq<string>, op: Operation, size: int, k: nat)
    requires OnlyDecline(ls, hasDynamic, es, op) && RequestWeight(ls, hasDynamic, es, op) < size
    requires k < |es| && !Answered(ls, hasDynamic, es, op, k)
    requires forall j: nat :: j < k ==> Answered(ls, hasDynamic, es, op, j)
    ensures ElementFailed(RequestWritten(EMPTY, ls, hasDynamic, es, op, size),
                          [] + Requested(ls, hasDynamic, es[..k], op), ls, hasDynamic, es[k], op, size)
  {
    forall j: nat | j <= k
      ensures FineAt([], ls, hasDynamic, es, op, size, j) <==> Answered(ls, hasDynamic, es, op, j)
    {
      RoomIsEnough(ls, hasDynamic, es, op, size, j);
    }
    RequestFails(EMPTY, ls, hasDynamic, es, op, size, k);
  }

  /** Then the error is ENOENT, and the entries before that element are left. */
  lemma RequestNotFound(ls: Lists, hasDynamic: bool, es: seq<string>, op: Operation, size: int, k: nat)
    requires OnlyDecline(ls, hasDynamic, es, op) && RequestWeight(ls, hasDynamic, es, op) < size
    requires k < |es| && !Answered(ls, hasDynamic, es, op, k)
    requires forall j: nat :: j < k ==> Answered(ls, hasDynamic, es, op, j)
    ensures var final := RequestWritten(EMPTY, ls, hasDynamic, es, op, size);
            final.error == ENOENT && Output(final) == Trimmed(Text(Requested(ls, hasDynamic, es[..k], op)))
  {
    FirstUnanswered(ls, hasDynamic, es, op, size, k);
    RoomForAll(ls, hasDynamic, es, op, size, k);
    var ps := Requested(ls, hasDynamic, es[..k], op);
    assert [] + ps == ps;
  }
}
