/**
 mac_label_internalize: handing one entry of a label text to the policies that listen to its namespace,
 and with it the way of an entry from the policy that supplied it back to that policy.
 */
module MacInternalize {
  import opened MacErrno
  import opened MacNamespaces
  import opened MacLabelText
  import opened MacExternalize
  import opened MacRequests

  /** What a policy's internalize operation returns, or that it has none or is not loaded. */
  datatype Answer = Absent | Returns(err: int)

  /** The policy with this handle is given an entry. */
  type Receiver = (int, Pair) -> Answer

  /** The error so far, and the handles whose operation was called. */
  datatype Passing = Passing(error: int, calls: seq<int>)

  // ---- One entry ------------------------------------------------------------------------------------

  function PassOne(b: Passing, v: Visit, p: Pair, give: Receiver): Passing {
    match give(v.handle, p)
    case Absent => b
    case Returns(err) => Passing(err, b.calls + [v.handle])
  }

  /** All listeners in order, up to the first error. */
  function PassAll(b: Passing, vs: seq<Visit>, p: Pair, give: Receiver): Passing {
    if vs == [] then b
    else
      var before := PassAll(b, vs[..|vs| - 1], p, give);
      if before.error != 0 then before else PassOne(before, vs[|vs| - 1], p, give)
  }

  /** The listeners of the entry's namespace. */
  function EntryVisits(ls: Lists, hasDynamic: bool, name: string): seq<Visit> {
    Visits(ls.statics, name, false) + if hasDynamic then Visits(ls.dynamics, name, false) else []
  }

  /** mac_label_internalize. */
  function LabelPassed(ls: Lists, hasDynamic: bool, p: Pair, give: Receiver): Passing {
    var r := PassAll(Passing(0, []), EntryVisits(ls, hasDynamic, p.name), p, give);
    if r.error == 0 && r.calls == [] then r.(error := ENOPOLICY) else r
  }

  lemma {:induction false} PassAllSplit(b: Passing, vs: seq<Visit>, ws: seq<Visit>, p: Pair, give: Receiver)
    ensures PassAll(b, vs + ws, p, give) ==
            if PassAll(b, vs, p, give).error != 0 then PassAll(b, vs, p, give)
            else PassAll(PassAll(b, vs, p, give), ws, p, give)
    decreases |ws|
  {
    if ws == [] {
      assert vs + ws == vs;
    } else {
      assert (vs + ws)[..|vs + ws| - 1] == vs + ws[..|ws| - 1];
      PassAllSplit(b, vs, ws[..|ws| - 1], p, give);
    }
  }

  /** After an error nobody else is called. */
  lemma ErrorStops(b: Passing, vs: seq<Visit>, ws: seq<Visit>, p: Pair, give: Receiver)
    requires vs <= ws && PassAll(b, vs, p, give).error != 0
    ensures PassAll(b, ws, p, give) == PassAll(b, vs, p, give)
  {
    PassAllSplit(b, vs, ws[|vs|..], p, give);
    assert vs + ws[|vs|..] == ws;
  }

  /** Lines 1094-1110: the listeners of one namespace. */
  method PassElement(b: Passing, e: Element, p: Pair, give: Receiver) returns (r: Passing)
    requires b.error == 0
    ensures r == PassAll(b, VisitsOf(e), p, give)
  {
    r := b;
    ghost var vs := VisitsOf(e);
    var i := 0;
    while i < |e.listeners| && r.error == 0
      invariant 0 <= i <= |vs| && r == PassAll(b, vs[..i], p, give)
    {
      assert vs[..i + 1][..i] == vs[..i];
      var answer := give(e.listeners[i], p);
      if answer.Returns? {
        r := Passing(answer.err, r.calls + [e.listeners[i]]);
      }
      i := i + 1;
    }
    if r.error != 0 {
      ErrorStops(b, vs[..i], vs, p, give);
    } else {
      assert vs[..i] == vs;
    }
  }

  /** Lines 1087-1111: one of the two lists. */
  method PassList(b: Passing, list: seq<Element>, p: Pair, give: Receiver) returns (r: Passing)
    requires b.error == 0
    ensures r == PassAll(b, Visits(list, p.name, false), p, give)
  {
    r := b;
    var i := 0;
    ghost var seen: seq<Visit> := [];
    while i < |list| && r.error == 0
      invariant 0 <= i <= |list| && seen == Visits(list[..i], p.name, false) && r == PassAll(b, seen, p, give)
    {
      VisitsNext(list, i, p.name, false);
      if Strip(list[i].name) == p.name {
        PassAllSplit(b, seen, VisitsOf(list[i]), p, give);
        r := PassElement(r, list[i], p, give);
        seen := seen + VisitsOf(list[i]);
      }
      i := i + 1;
    }
    if r.error != 0 {
      VisitsPrefix(list, i, p.name, false);
      ErrorStops(b, seen, Visits(list, p.name, false), p, give);
    } else {
      assert list[..i] == list;
    }
  }

  /** mac_label_internalize. */
  method PassLabel(ls: Lists, hasDynamic: bool, p: Pair, give: Receiver) returns (error: int, calls: seq<int>)
    ensures Passing(error, calls) == LabelPassed(ls, hasDynamic, p, give)
  {
    ghost var vs, ws := Visits(ls.statics, p.name, false), Visits(ls.dynamics, p.name, false);
    var r := PassList(Passing(0, []), ls.statics, p, give);
    PassAllSplit(Passing(0, []), vs, if hasDynamic then ws else [], p, give);
    if r.error == 0 && hasDynamic {
      r := PassList(r, ls.dynamics, p, give);
    }
    error, calls := r.error, r.calls;
    if error == 0 && |calls| == 0 {
      error := ENOPOLICY;
    }
  }

  /** Without an error, exactly the listeners with the operation are called. */
  lemma {:induction false} CalledIff(b: Passing, vs: seq<Visit>, p: Pair, give: Receiver, h: int)
    requires b.error == 0 && PassAll(b, vs, p, give).error == 0
    ensures h in PassAll(b, vs, p, give).calls
            <==> h in b.calls || (give(h, p).Returns? && exists v :: v in vs && v.handle == h)
    decreases |vs|
  {
    if vs != [] {
      var n := |vs| - 1;
      CalledIff(b, vs[..n], p, give, h);
      assert vs == vs[..n] + [vs[n]];
      if exists v :: v in vs && v.handle == h {
        var v :| v in vs && v.handle == h;
        assert v == vs[n] || v in vs[..n];
      }
      assert vs[n] in vs;
    }
  }

  /** When every operation that is there accepts, there is no error but that of an entry nobody takes. */
  lemma {:induction false} PassAllAccepts(b: Passing, vs: seq<Visit>, p: Pair, give: Receiver)
    requires b.error == 0 && forall v :: v in vs ==> give(v.handle, p) in {Absent, Returns(0)}
    ensures PassAll(b, vs, p, give).error == 0
    decreases |vs|
  {
    if vs != [] {
      PassAllAccepts(b, vs[..|vs| - 1], p, give);
    }
  }

  /** Policy v has the operation and refuses the entry. */
  predicate Denies(v: Visit, p: Pair, give: Receiver) {
    give(v.handle, p).Returns? && give(v.handle, p).err != 0
  }

  /** The first listener that refuses decides, and is the last to be called. */
  lemma PassAllFails(vs: seq<Visit>, p: Pair, give: Receiver, k: nat)
    requires k < |vs| && Denies(vs[k], p, give) && forall j: nat :: j < k ==> !Denies(vs[j], p, give)
    ensures var r := PassAll(Passing(0, []), vs, p, give);
            r.error == give(vs[k].handle, p).err && r.calls != [] && r.calls[|r.calls| - 1] == vs[k].handle
  {
    var b, head, upto := Passing(0, []), vs[..k], vs[..k + 1];
    forall v | v in head ensures give(v.handle, p) in {Absent, Returns(0)} {
      var j :| 0 <= j < k && head[j] == v;
      assert !Denies(vs[j], p, give);
    }
    PassAllAccepts(b, head, p, give);
    assert upto[..k] == head && upto[k] == vs[k];
    ErrorStops(b, upto, vs, p, give);
  }

  /**
   The exact error of mac_label_internalize: that of the first listener that refuses, ENOPOLICY if no
   listener has the operation, and otherwise 0.
   */
  lemma LabelOutcome(ls: Lists, hasDynamic: bool, p: Pair, give: Receiver)
    ensures var vs, r := EntryVisits(ls, hasDynamic, p.name), LabelPassed(ls, hasDynamic, p, give);
            && (forall k: nat ::
                  k < |vs| && Denies(vs[k], p, give) && (forall j: nat :: j < k ==> !Denies(vs[j], p, give)) ==>
                    r.error == give(vs[k].handle, p).err && r.error != 0)
            && ((forall v :: v in vs ==> !Denies(v, p, give)) ==>
                  r.error == if exists v :: v in vs && give(v.handle, p).Returns? then 0 else ENOPOLICY)
  {
    var vs, b := EntryVisits(ls, hasDynamic, p.name), Passing(0, []);
    forall k: nat | k < |vs| && Denies(vs[k], p, give) && forall j: nat :: j < k ==> !Denies(vs[j], p, give)
      ensures LabelPassed(ls, hasDynamic, p, give).error == give(vs[k].handle, p).err
    {
      PassAllFails(vs, p, give, k);
    }
    if forall v :: v in vs ==> !Denies(v, p, give) {
      PassAllAccepts(b, vs, p, give);
      NobodyCalledIff(vs, p, give);
    }
  }

  lemma NobodyCalledIff(vs: seq<Visit>, p: Pair, give: Receiver)
    requires PassAll(Passing(0, []), vs, p, give).error == 0
    ensures PassAll(Passing(0, []), vs, p, give).calls == [] <==> forall v :: v in vs ==> give(v.handle, p) == Absent
  {
    var r := PassAll(Passing(0, []), vs, p, give);
    forall v | v in vs ensures v.handle in r.calls <==> give(v.handle, p).Returns? {
      CalledIff(Passing(0, []), vs, p, give, v.handle);
    }
    if r.calls != [] {
      CalledIff(Passing(0, []), vs, p, give, r.calls[0]);
    }
  }

  /** Who is handed an entry: the listeners of its namespace, on the dynamic list only if there are dynamic policies. */
  lemma HandedIff(ls: Lists, hasDynamic: bool, name: string, v: Visit)
    ensures v in EntryVisits(ls, hasDynamic, name)
            <==> exists e :: (e in ls.statics || (hasDynamic && e in ls.dynamics))
                          && Strip(e.name) == name && v.stored == e.name && v.handle in e.listeners
  {
    VisitsIff(ls.statics, name, false, v);
    VisitsIff(ls.dynamics, name, false, v);
  }

  // ---- The way back -----------------------------------------------------------------------------------

  /** An entry and the policy that supplies it. */
  datatype Supply = Supply(handle: int, pair: Pair)

  /** The entries of `Supplied` and of `Requested` with their suppliers. */
  function Supplies(vs: seq<Visit>, op: Operation): seq<Supply> {
    if vs == [] then []
    else
      var v := vs[|vs| - 1];
      var r := op(v.handle, v.stored);
      Supplies(vs[..|vs| - 1], op) +
      if r.Reply? && r.err == 0 then [Supply(v.handle, Pair(Strip(v.stored), r.text))] else []
  }

  function RequestedFrom(ls: Lists, hasDynamic: bool, elements: seq<string>, op: Operation): seq<Supply> {
    if elements == [] then []
    else Supplies(ElementVisits(ls, hasDynamic, elements[0]), op) + RequestedFrom(ls, hasDynamic, elements[1..], op)
  }

  function Pairs(xs: seq<Supply>): (ps: seq<Pair>)
    ensures |ps| == |xs| && forall i :: 0 <= i < |xs| ==> ps[i] == xs[i].pair
  {
    seq(|xs|, i requires 0 <= i < |xs| => xs[i].pair)
  }

  lemma {:induction false} SuppliesPairs(vs: seq<Visit>, op: Operation)
    ensures Pairs(Supplies(vs, op)) == Supplied(vs, op)
    decreases |vs|
  {
    if vs != [] {
      SuppliesPairs(vs[..|vs| - 1], op);
    }
  }

  lemma {:induction false} RequestedPairs(ls: Lists, hasDynamic: bool, elements: seq<string>, op: Operation)
    ensures Pairs(RequestedFrom(ls, hasDynamic, elements, op)) == Requested(ls, hasDynamic, elements, op)
    decreases |elements|
  {
    if elements != [] {
      SuppliesPairs(ElementVisits(ls, hasDynamic, elements[0]), op);
      RequestedPairs(ls, hasDynamic, elements[1..], op);
    }
  }

  lemma {:induction false} VisitsMatch(list: seq<Element>, element: string, all: bool, v: Visit)
    requires v in Visits(list, element, all)
    ensures v in Visits(list, Strip(v.stored), false)
    decreases |list|
  {
    var n := |list| - 1;
    if v in Visits(list[..n], element, all) {
      VisitsMatch(list[..n], element, all, v);
    }
  }

  /** Who is asked for an entry is among those who are handed it. */
  lemma AskedIsHanded(ls: Lists, hasDynamic: bool, element: string, v: Visit)
    requires v in ElementVisits(ls, hasDynamic, element)
    ensures v in EntryVisits(ls, hasDynamic, Strip(v.stored))
  {
    var ignore := element != "" && element[0] == '?';
    var all := !ignore && element == "*";
    var key := if ignore then element[1..] else element;
    if v in Visits(ls.statics, key, all) {
      VisitsMatch(ls.statics, key, all, v);
    } else {
      VisitsMatch(ls.dynamics, key, all, v);
    }
  }

  /** The visit behind a supplied entry. */
  lemma {:induction false} SupplyVisit(vs: seq<Visit>, op: Operation, x: Supply) returns (v: Visit)
    requires x in Supplies(vs, op)
    ensures v in vs && v.handle == x.handle && Strip(v.stored) == x.pair.name
    decreases |vs|
  {
    var n := |vs| - 1;
    if x in Supplies(vs[..n], op) {
      v := SupplyVisit(vs[..n], op, x);
    } else {
      v := vs[n];
    }
  }

  /** Policy h listens to the namespace, on a list that is walked. */
  ghost predicate Handed(ls: Lists, hasDynamic: bool, name: string, h: int) {
    exists v :: v in EntryVisits(ls, hasDynamic, name) && v.handle == h
  }

  /** The policy that supplied an entry of a request is handed the entries of that namespace. */
  lemma {:induction false} SupplierIsHanded(ls: Lists, hasDynamic: bool, elements: seq<string>, op: Operation,
                                            x: Supply)
    requires x in RequestedFrom(ls, hasDynamic, elements, op)
    ensures Handed(ls, hasDynamic, x.pair.name, x.handle)
    decreases |elements|
  {
    var vs := ElementVisits(ls, hasDynamic, elements[0]);
    if x in Supplies(vs, op) {
      var v := SupplyVisit(vs, op, x);
      AskedIsHanded(ls, hasDynamic, elements[0], v);
    } else {
      SupplierIsHanded(ls, hasDynamic, elements[1..], op, x);
    }
  }

  /** The policies that have the operation accept the entry, and its supplier has it. */
  ghost predicate Accepted(ls: Lists, hasDynamic: bool, x: Supply, give: Receiver) {
    && give(x.handle, x.pair) == Returns(0)
    && forall v :: v in EntryVisits(ls, hasDynamic, x.pair.name) ==> give(v.handle, x.pair) in {Absent, Returns(0)}
  }

  /** An accepted entry reaches its supplier, and there is no error: somebody takes it. */
  lemma EntryReaches(ls: Lists, hasDynamic: bool, x: Supply, give: Receiver)
    requires Handed(ls, hasDynamic, x.pair.name, x.handle) && Accepted(ls, hasDynamic, x, give)
    ensures var r := LabelPassed(ls, hasDynamic, x.pair, give);
            r.error == 0 && x.handle in r.calls
  {
    var vs := EntryVisits(ls, hasDynamic, x.pair.name);
    PassAllAccepts(Passing(0, []), vs, x.pair, give);
    CalledIff(Passing(0, []), vs, x.pair, give, x.handle);
  }

  /** What mac_label_internalize returns for an entry. */
  function Accept(ls: Lists, hasDynamic: bool, give: Receiver): Pair -> int {
    (p: Pair) => LabelPassed(ls, hasDynamic, p, give).error
  }

  /**
   From the policies to the text and back: when a request succeeds, its entries are clean and every
   entry is accepted, mac_internalize of the text returns 0, passes on exactly the supplied entries, in
   order, and each of them to the policy that supplied it.
   */
  lemma TextReachesPolicies(ls: Lists, hasDynamic: bool, elementlist: string, op: Operation, size: int, give: Receiver)
    requires var xs := RequestedFrom(ls, hasDynamic, Segments(elementlist), op);
             xs != [] && AllClean(Pairs(xs)) && forall x :: x in xs ==> Accepted(ls, hasDynamic, x, give)
    ensures var final := RequestWritten(EMPTY, ls, hasDynamic, Segments(elementlist), op, size);
            var xs := RequestedFrom(ls, hasDynamic, Segments(elementlist), op);
            final.error == 0 ==>
              && Process(Segments(Output(final)), Accept(ls, hasDynamic, give)) == (0, Pairs(xs))
              && forall x :: x in xs ==> x.handle in LabelPassed(ls, hasDynamic, x.pair, give).calls
  {
    var es := Segments(elementlist);
    var xs := RequestedFrom(ls, hasDynamic, es, op);
    ExternalizeInternalize(ls, hasDynamic, elementlist, op, size);
    RequestedPairs(ls, hasDynamic, es, op);
    forall x | x in xs
      ensures LabelPassed(ls, hasDynamic, x.pair, give).error == 0
      ensures x.handle in LabelPassed(ls, hasDynamic, x.pair, give).calls
    {
      SupplierIsHanded(ls, hasDynamic, es, op, x);
      EntryReaches(ls, hasDynamic, x, give);
    }
    var final := RequestWritten(EMPTY, ls, hasDynamic, es, op, size);
    if final.error == 0 {
      ProcessAll(Segments(Output(final)), Pairs(xs), Accept(ls, hasDynamic, give));
    }
  }
}
