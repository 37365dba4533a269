/**
 Who listens to a namespace, in which order, and what exactly a removal takes away.
 */
module MacHearers {
  import opened MacNamespaces
  import opened Sequences

  // ---- Registrations ------------------------------------------------------------------------------------

  /** The listeners of a namespace, wherever it is listed. */
  function ListenersOf(ls: Lists, key: string): seq<int> {
    var i, j := Find(ls.statics, key), Find(ls.dynamics, key);
    if i < |ls.statics| then ls.statics[i].listeners
    else if j < |ls.dynamics| then ls.dynamics[j].listeners
    else []
  }

  lemma FindUnique(list: seq<Element>, key: string, i: nat)
    requires i <= |list| && (forall j :: 0 <= j < i ==> Strip(list[j].name) != key)
    requires i < |list| ==> Strip(list[i].name) == key
    ensures Find(list, key) == i
  {
  }

  /** A new listener changes no place. */
  lemma FindHeard(list: seq<Element>, i: nat, handle: int, key: string)
    requires i < |list|
    ensures Find(list[i := Heard(list[i], handle)], key) == Find(list, key)
  {
    var list' := list[i := Heard(list[i], handle)];
    assert forall j :: 0 <= j < |list| ==> list'[j].name == list[j].name;
    FindUnique(list', key, Find(list, key));
  }

  lemma FindInFront(e: Element, list: seq<Element>, key: string)
    ensures Find([e] + list, key) == if Strip(e.name) == key then 0 else 1 + Find(list, key)
  {
    assert ([e] + list)[1..] == list;
  }

  /** A new listener of one list. */
  lemma HeardHere(list: seq<Element>, mine: string, handle: int, key: string)
    requires Find(list, mine) < |list|
    ensures var i, k := Find(list, mine), Find(list, key);
            var list' := list[i := Heard(list[i], handle)];
            && Find(list', key) == k && (mine == key ==> k < |list|)
            && (k < |list| ==> list'[k].listeners == (if mine == key then [handle] else []) + list[k].listeners)
  {
    FindHeard(list, Find(list, mine), handle, key);
  }

  lemma ListedHeard(ls: Lists, handle: int, name: string, isStatic: bool, key: string)
    requires Listed(ls, Strip(name))
    ensures ListenersOf(AddOne(ls, handle, name, isStatic), key) ==
            (if Strip(name) == key then [handle] else []) + ListenersOf(ls, key)
  {
    if Find(ls.statics, Strip(name)) < |ls.statics| {
      HeardHere(ls.statics, Strip(name), handle, key);
    } else {
      HeardHere(ls.dynamics, Strip(name), handle, key);
    }
  }

  /** A new element in front of one list. */
  lemma NewHere(e: Element, list: seq<Element>, key: string)
    ensures var list', i, k := [e] + list, Find([e] + list, key), Find(list, key);
            if Strip(e.name) == key then i == 0 && list'[0] == e
            else i == k + 1 && (k < |list| ==> list'[i] == list[k])
  {
    FindInFront(e, list, key);
  }

  lemma NewHeard(ls: Lists, handle: int, name: string, isStatic: bool, key: string)
    requires |name| < NAME_MAX && !Listed(ls, Strip(name))
    ensures ListenersOf(AddOne(ls, handle, name, isStatic), key) ==
            (if Strip(name) == key then [handle] else []) + ListenersOf(ls, key)
  {
    var e := Element(name, [handle]);
    NewHere(e, ls.statics, key);
    NewHere(e, ls.dynamics, key);
    if Strip(name) == key {
      assert ListenersOf(ls, key) == [] && [handle] + [] == [handle];
    } else {
      assert [] + ListenersOf(ls, key) == ListenersOf(ls, key);
    }
  }

  /** A name that fits adds the policy in front of the listeners of its namespace, and changes no other. */
  lemma AddOneHeard(ls: Lists, handle: int, name: string, isStatic: bool, key: string)
    requires |name| < NAME_MAX
    ensures ListenersOf(AddOne(ls, handle, name, isStatic), key) ==
            (if Strip(name) == key then [handle] else []) + ListenersOf(ls, key)
  {
    if Listed(ls, Strip(name)) {
      ListedHeard(ls, handle, name, isStatic, key);
    } else {
      NewHeard(ls, handle, name, isStatic, key);
    }
  }

  /** The policy, once for each of its names that is the namespace's. */
  function HeardIn(names: seq<string>, handle: int, key: string): seq<int> {
    if names == [] then []
    else (if Strip(names[|names| - 1]) == key then [handle] else []) + HeardIn(names[..|names| - 1], handle, key)
  }

  lemma {:induction false} AddAllHeard(ls: Lists, handle: int, names: seq<string>, isStatic: bool, key: string)
    requires Short(names)
    ensures ListenersOf(AddAll(ls, handle, names, isStatic), key) == HeardIn(names, handle, key) + ListenersOf(ls, key)
    decreases |names|
  {
    if names != [] {
      var n := |names| - 1;
      var mine := if Strip(names[n]) == key then [handle] else [];
      AddAllHeard(ls, handle, names[..n], isStatic, key);
      AddOneHeard(AddAll(ls, handle, names[..n], isStatic), handle, names[n], isStatic, key);
      Regroup(mine, HeardIn(names[..n], handle, key), ListenersOf(ls, key));
    }
  }

  /** All policies that named the namespace, the latest first. */
  function Hearers(regs: seq<Registration>, key: string): seq<int> {
    if regs == [] then []
    else
      var r := regs[|regs| - 1];
      HeardIn(r.names, r.handle, key) + Hearers(regs[..|regs| - 1], key)
  }

  /** After any registrations with names that fit, the listeners are those who named it, the latest first. */
  lemma {:induction false} RunHearers(regs: seq<Registration>, key: string)
    requires forall k :: 0 <= k < |regs| ==> Short(regs[k].names)
    ensures ListenersOf(AfterAll(regs), key) == Hearers(regs, key)
    decreases |regs|
  {
    if regs != [] {
      var r := regs[|regs| - 1];
      RunHearers(regs[..|regs| - 1], key);
      AddAllHeard(AfterAll(regs[..|regs| - 1]), r.handle, r.names, r.isStatic, key);
    }
  }

  /** The list grows in front, if at all, and keeps its names. */
  ghost predicate GrowsInFront(list: seq<Element>, list': seq<Element>) {
    |list| <= |list'| && forall i :: 0 <= i < |list| ==> list'[|list'| - |list| + i].name == list[i].name
  }

  lemma OneInFront(e: Element, list: seq<Element>)
    ensures GrowsInFront(list, [e] + list)
  {
  }

  lemma HeardGrows(list: seq<Element>, i: nat, handle: int)
    requires i < |list|
    ensures GrowsInFront(list, list[i := Heard(list[i], handle)])
  {
  }

  /** A new namespace goes in front of its list, which is the static one for static policies only. */
  lemma NewInFront(ls: Lists, handle: int, name: string, isStatic: bool)
    ensures var ls' := AddOne(ls, handle, name, isStatic);
            && GrowsInFront(ls.statics, ls'.statics) && GrowsInFront(ls.dynamics, ls'.dynamics)
            && |ls'.statics| == |ls.statics| + (if isStatic && !Listed(ls, Strip(name)) then 1 else 0)
            && |ls'.dynamics| == |ls.dynamics| + (if !isStatic && !Listed(ls, Strip(name)) then 1 else 0)
  {
    var i, j := Find(ls.statics, Strip(name)), Find(ls.dynamics, Strip(name));
    assert GrowsInFront(ls.statics, ls.statics) && GrowsInFront(ls.dynamics, ls.dynamics);
    if i < |ls.statics| {
      HeardGrows(ls.statics, i, handle);
    } else if j < |ls.dynamics| {
      HeardGrows(ls.dynamics, j, handle);
    } else {
      OneInFront(Element(Stored(name), [handle]), ls.statics);
      OneInFront(Element(Stored(name), [handle]), ls.dynamics);
    }
  }

  // ---- Removals -------------------------------------------------------------------------------------------

  lemma {:induction false} WithoutFirstAt(a: seq<int>, x: int, b: seq<int>)
    requires x !in a
    ensures WithoutFirst(a + [x] + b, x) == a + b
    decreases |a|
  {
    var s := a + [x] + b;
    if a == [] {
      assert s[1..] == b;
    } else {
      assert s[1..] == a[1..] + [x] + b;
      WithoutFirstAt(a[1..], x, b);
    }
  }

  /**
   A removal takes the policy's first listening out of the first namespace that has one, and that
   namespace away if nobody else listens to it; it touches no other namespace.
   */
  lemma {:induction false} RemoveFirstAt(list: seq<Element>, handle: int, i: nat, a: seq<int>, b: seq<int>)
    requires i < |list| && list[i].listeners == a + [handle] + b && handle !in a
    requires forall j :: 0 <= j < i ==> handle !in list[j].listeners
    ensures RemoveFirst(list, handle) ==
            list[..i] + (if a + b == [] then [] else [list[i].(listeners := a + b)]) + list[i + 1..]
    decreases i
  {
    if i == 0 {
      WithoutFirstAt(a, handle, b);
      assert handle in list[0].listeners by { assert list[0].listeners[|a|] == handle; }
    } else {
      RemoveFirstAt(list[1..], handle, i - 1, a, b);
      assert list[..i] == [list[0]] + list[1..][..i - 1];
    }
  }

  /** And nothing if there is none. */
  lemma {:induction false} RemoveNothing(list: seq<Element>, handle: int)
    requires forall j :: 0 <= j < |list| ==> handle !in list[j].listeners
    ensures RemoveFirst(list, handle) == list
  {
    if list != [] {
      RemoveNothing(list[1..], handle);
    }
  }

  /** Every namespace that is listed has a listener. */
  ghost predicate AllHeard(ls: Lists) {
    && (forall i :: 0 <= i < |ls.statics| ==> ls.statics[i].listeners != [])
    && (forall i :: 0 <= i < |ls.dynamics| ==> ls.dynamics[i].listeners != [])
  }

  lemma {:induction false} AddAllKeepsHeard(ls: Lists, handle: int, names: seq<string>, isStatic: bool)
    requires AllHeard(ls)
    ensures AllHeard(AddAll(ls, handle, names, isStatic))
    decreases |names|
  {
    if names != [] {
      AddAllKeepsHeard(ls, handle, names[..|names| - 1], isStatic);
    }
  }

  lemma {:induction false} RemoveKeepsHeard(list: seq<Element>, handle: int)
    requires forall i :: 0 <= i < |list| ==> list[i].listeners != []
    ensures forall i :: 0 <= i < |RemoveFirst(list, handle)| ==> RemoveFirst(list, handle)[i].listeners != []
  {
    if list != [] && handle !in list[0].listeners {
      RemoveKeepsHeard(list[1..], handle);
    }
  }

  /** Over every run of registrations and removals no namespace stays without a listener. */
  lemma {:induction false} RunKeepsHeard(ls: Lists, events: seq<Event>)
    requires AllHeard(ls)
    ensures AllHeard(AfterEvents(ls, events))
    decreases |events|
  {
    if events != [] {
      var n := |events| - 1;
      var before := AfterEvents(ls, events[..n]);
      RunKeepsHeard(ls, events[..n]);
      match events[n]
      case Add(h, names, isStatic) => AddAllKeepsHeard(before, h, names, isStatic);
      case Remove(h, names) => RemoveKeepsHeard(before.dynamics, h);
    }
  }
}
