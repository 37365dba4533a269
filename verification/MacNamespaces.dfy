/**
 The two lists of label namespaces.  Registering a policy makes it a listener of each of its
 namespaces, creating those that are on neither list; a leading '?' of a name does not count.
 */
module MacNamespaces {

  const NAME_MAX := 32

  datatype Element = Element(name: string, listeners: seq<int>)

  datatype Lists = Lists(statics: seq<Element>, dynamics: seq<Element>)

  function Strip(name: string): string {
    if name != "" && name[0] == '?' then name[1..] else name
  }

  /** strlcpy into an array of NAME_MAX characters. */
  function Stored(name: string): string {
    if |name| < NAME_MAX then name else name[..NAME_MAX - 1]
  }

  /** The first element whose stripped name is `key`, or the length of the list. */
  function Find(list: seq<Element>, key: string): (i: nat)
    ensures i <= |list|
    ensures forall j :: 0 <= j < i ==> Strip(list[j].name) != key
    ensures i < |list| ==> Strip(list[i].name) == key
  {
    if list == [] then 0 else if Strip(list[0].name) == key then 0 else 1 + Find(list[1..], key)
  }

  predicate Listed(ls: Lists, key: string) {
    Find(ls.statics, key) < |ls.statics| || Find(ls.dynamics, key) < |ls.dynamics|
  }

  function Heard(e: Element, handle: int): Element { e.(listeners := [handle] + e.listeners) }

  /** One turn of the loop of mac_policy_addto_labellist. */
  function AddOne(ls: Lists, handle: int, name: string, isStatic: bool): Lists {
    var key := Strip(name);
    var i, j := Find(ls.statics, key), Find(ls.dynamics, key);
    if i < |ls.statics| then ls.(statics := ls.statics[i := Heard(ls.statics[i], handle)])
    else if j < |ls.dynamics| then ls.(dynamics := ls.dynamics[j := Heard(ls.dynamics[j], handle)])
    else
      var e := Element(Stored(name), [handle]);
      if isStatic then ls.(statics := [e] + ls.statics) else ls.(dynamics := [e] + ls.dynamics)
  }

  function AddAll(ls: Lists, handle: int, names: seq<string>, isStatic: bool): Lists {
    if names == [] then ls
    else AddOne(AddAll(ls, handle, names[..|names| - 1], isStatic), handle, names[|names| - 1], isStatic)
  }

  // ---- No namespace twice ---------------------------------------------------------------------

  function All(ls: Lists): seq<Element> { ls.statics + ls.dynamics }

  ghost predicate DistinctNames(s: seq<Element>) {
    forall i, j :: 0 <= i < j < |s| ==> Strip(s[i].name) != Strip(s[j].name)
  }

  /** Over both lists together, no two stripped names are equal. */
  ghost predicate Distinct(ls: Lists) { DistinctNames(All(ls)) }

  ghost predicate Present(s: seq<Element>, key: string) { exists i :: 0 <= i < |s| && Strip(s[i].name) == key }

  lemma ListedIsPresent(ls: Lists, key: string)
    ensures Listed(ls, key) <==> Present(All(ls), key)
  {
    var s := All(ls);
    if Present(s, key) {
      var i :| 0 <= i < |s| && Strip(s[i].name) == key;
      assert if i < |ls.statics| then s[i] == ls.statics[i] else s[i] == ls.dynamics[i - |ls.statics|];
    }
    if Find(ls.statics, key) < |ls.statics| {
      assert Strip(s[Find(ls.statics, key)].name) == key;
    } else if Find(ls.dynamics, key) < |ls.dynamics| {
      assert Strip(s[|ls.statics| + Find(ls.dynamics, key)].name) == key;
    }
  }

  /** The names do not change when a listener is added. */
  lemma HeardKeepsNames(ls: Lists, handle: int, name: string, isStatic: bool)
    requires Listed(ls, Strip(name))
    ensures var ls' := AddOne(ls, handle, name, isStatic);
            |All(ls')| == |All(ls)| && forall i :: 0 <= i < |All(ls)| ==> All(ls')[i].name == All(ls)[i].name
  {
  }

  lemma NewElement(ls: Lists, handle: int, name: string, isStatic: bool)
    requires !Listed(ls, Strip(name))
    ensures var ls' := AddOne(ls, handle, name, isStatic);
            var k := if isStatic then 0 else |ls.statics|;
            All(ls') == All(ls)[..k] + [Element(Stored(name), [handle])] + All(ls)[k..]
  {
  }

  lemma InsertAt(s: seq<Element>, k: nat, e: Element)
    requires k <= |s|
    ensures (s[..k] + [e] + s[k..])[k] == e
    ensures forall i :: 0 <= i < k ==> (s[..k] + [e] + s[k..])[i] == s[i]
    ensures forall i :: k < i <= |s| ==> (s[..k] + [e] + s[k..])[i] == s[i - 1]
  {
  }

  lemma InsertPresent(s: seq<Element>, k: nat, e: Element)
    requires k <= |s| && Present(s, Strip(e.name))
    ensures !DistinctNames(s[..k] + [e] + s[k..])
  {
    InsertAt(s, k, e);
    var s' := s[..k] + [e] + s[k..];
    var i :| 0 <= i < |s| && Strip(s[i].name) == Strip(e.name);
    var i' := if i < k then i else i + 1;
    assert Strip(s'[i'].name) == Strip(s'[k].name) && i' != k;
  }

  lemma InsertAbsent(s: seq<Element>, k: nat, e: Element)
    requires k <= |s| && DistinctNames(s) && !Present(s, Strip(e.name))
    ensures DistinctNames(s[..k] + [e] + s[k..])
  {
  }

  /**
   Adding a name keeps the names distinct exactly when it is listed already, or when what is
   stored of it is not.
   */
  lemma AddOneDistinctIff(ls: Lists, handle: int, name: string, isStatic: bool)
    requires Distinct(ls)
    ensures Distinct(AddOne(ls, handle, name, isStatic))
            <==> Listed(ls, Strip(name)) || !Listed(ls, Strip(Stored(name)))
  {
    if Listed(ls, Strip(name)) {
      HeardKeepsNames(ls, handle, name, isStatic);
    } else {
      NewElement(ls, handle, name, isStatic);
      var k := if isStatic then 0 else |ls.statics|;
      var e := Element(Stored(name), [handle]);
      ListedIsPresent(ls, Strip(Stored(name)));
      if Present(All(ls), Strip(e.name)) {
        InsertPresent(All(ls), k, e);
      } else {
        InsertAbsent(All(ls), k, e);
      }
    }
  }

  ghost predicate Short(names: seq<string>) { forall i :: 0 <= i < |names| ==> |names[i]| < NAME_MAX }

  /** Names that fit are never listed twice. */
  lemma {:induction false} AddAllDistinct(ls: Lists, handle: int, names: seq<string>, isStatic: bool)
    requires Distinct(ls) && Short(names)
    ensures Distinct(AddAll(ls, handle, names, isStatic))
    decreases |names|
  {
    if names != [] {
      var n := |names| - 1;
      AddAllDistinct(ls, handle, names[..n], isStatic);
      AddOneDistinctIff(AddAll(ls, handle, names[..n], isStatic), handle, names[n], isStatic);
    }
  }

  lemma AddOneLists(ls: Lists, handle: int, name: string, isStatic: bool)
    ensures Listed(AddOne(ls, handle, name, isStatic), Strip(name)) || Strip(Stored(name)) != Strip(name)
    ensures Listed(AddOne(ls, handle, name, isStatic), Strip(Stored(name))) || Listed(ls, Strip(name))
  {
    var ls' := AddOne(ls, handle, name, isStatic);
    ListedIsPresent(ls', Strip(name));
    ListedIsPresent(ls', Strip(Stored(name)));
    ListedIsPresent(ls, Strip(name));
    if Listed(ls, Strip(name)) {
      HeardKeepsNames(ls, handle, name, isStatic);
      var i :| 0 <= i < |All(ls)| && Strip(All(ls)[i].name) == Strip(name);
      assert Strip(All(ls')[i].name) == Strip(name);
    } else {
      NewElement(ls, handle, name, isStatic);
      var k := if isStatic then 0 else |ls.statics|;
      assert All(ls')[k].name == Stored(name);
    }
  }

  lemma LongNameChanges(name: string)
    requires |name| >= NAME_MAX
    ensures |Strip(Stored(name))| < |Strip(name)|
  {
  }

  /** A name that does not fit, given by two policies, is listed twice. */
  lemma LongNameTwice(handle: int, other: int, name: string)
    requires |name| >= NAME_MAX
    ensures var once := AddOne(Lists([], []), handle, name, false);
            Distinct(once) && !Distinct(AddOne(once, other, name, false))
  {
    var none := Lists([], []);
    var once := AddOne(none, handle, name, false);
    LongNameChanges(name);
    assert All(once) == [Element(Stored(name), [handle])];
    AddOneDistinctIff(none, handle, name, false);
    AddOneLists(none, handle, name, false);
    ListedIsPresent(once, Strip(name));
    AddOneDistinctIff(once, other, name, false);
  }

  // ---- Every name gets its listener --------------------------------------------------------------

  /** Policy `handle` listens to the namespace. */
  ghost predicate Listens(ls: Lists, key: string, handle: int) {
    exists i :: 0 <= i < |All(ls)| && Strip(All(ls)[i].name) == key && handle in All(ls)[i].listeners
  }

  lemma AddOneListens(ls: Lists, handle: int, name: string, isStatic: bool)
    requires |name| < NAME_MAX
    ensures Listens(AddOne(ls, handle, name, isStatic), Strip(name), handle)
  {
    var ls' := AddOne(ls, handle, name, isStatic);
    var key := Strip(name);
    var i, j := Find(ls.statics, key), Find(ls.dynamics, key);
    var at := if i < |ls.statics| then i
              else if j < |ls.dynamics| then |ls.statics| + j
              else if isStatic then 0 else |ls.statics|;
    assert Strip(All(ls')[at].name) == key && handle in All(ls')[at].listeners;
  }

  lemma HeardKeepsListeners(ls: Lists, handle: int, name: string, isStatic: bool, i: nat, other: int)
    requires Listed(ls, Strip(name)) && i < |All(ls)| && other in All(ls)[i].listeners
    ensures var ls' := AddOne(ls, handle, name, isStatic);
            |All(ls')| == |All(ls)| && All(ls')[i].name == All(ls)[i].name && other in All(ls')[i].listeners
  {
  }

  lemma AddOneKeepsListeners(ls: Lists, handle: int, name: string, isStatic: bool, key: string, other: int)
    requires Listens(ls, key, other)
    ensures Listens(AddOne(ls, handle, name, isStatic), key, other)
  {
    var ls' := AddOne(ls, handle, name, isStatic);
    var i :| 0 <= i < |All(ls)| && Strip(All(ls)[i].name) == key && other in All(ls)[i].listeners;
    if Listed(ls, Strip(name)) {
      HeardKeepsListeners(ls, handle, name, isStatic, i, other);
      assert other in All(ls')[i].listeners;
    } else {
      NewElement(ls, handle, name, isStatic);
      var k := if isStatic then 0 else |ls.statics|;
      InsertAt(All(ls), k, Element(Stored(name), [handle]));
      var at := if i < k then i else i + 1;
      assert All(ls')[at] == All(ls)[i];
    }
  }

  lemma {:induction false} AddAllListens(ls: Lists, handle: int, names: seq<string>, isStatic: bool, i: nat)
    requires Short(names) && i < |names|
    ensures Listens(AddAll(ls, handle, names, isStatic), Strip(names[i]), handle)
    decreases |names|
  {
    var n := |names| - 1;
    var before := AddAll(ls, handle, names[..n], isStatic);
    if i == n {
      AddOneListens(before, handle, names[n], isStatic);
    } else {
      AddAllListens(ls, handle, names[..n], isStatic, i);
      AddOneKeepsListeners(before, handle, names[n], isStatic, Strip(names[i]), handle);
    }
  }

  lemma {:induction false} AddAllKeepsListeners(ls: Lists, handle: int, names: seq<string>, isStatic: bool,
                                                key: string, other: int)
    requires Listens(ls, key, other)
    ensures Listens(AddAll(ls, handle, names, isStatic), key, other)
    decreases |names|
  {
    if names != [] {
      var n := |names| - 1;
      AddAllKeepsListeners(ls, handle, names[..n], isStatic, key, other);
      AddOneKeepsListeners(AddAll(ls, handle, names[..n], isStatic), handle, names[n], isStatic, key, other);
    }
  }

  // ---- Runs of registrations ------------------------------------------------------------------------

  datatype Registration = Registration(handle: int, names: seq<string>, isStatic: bool)

  function AfterAll(regs: seq<Registration>): Lists {
    if regs == [] then Lists([], [])
    else
      var r := regs[|regs| - 1];
      AddAll(AfterAll(regs[..|regs| - 1]), r.handle, r.names, r.isStatic)
  }

  /** After any registrations with names that fit: no namespace twice, and every policy listens to its own. */
  lemma {:induction false} RunOfRegistrations(regs: seq<Registration>)
    requires forall k :: 0 <= k < |regs| ==> Short(regs[k].names)
    ensures Distinct(AfterAll(regs))
    ensures forall k, i :: 0 <= k < |regs| && 0 <= i < |regs[k].names| ==>
              Listens(AfterAll(regs), Strip(regs[k].names[i]), regs[k].handle)
    decreases |regs|
  {
    if regs != [] {
      var n := |regs| - 1;
      var init, r := regs[..n], regs[n];
      var before := AfterAll(init);
      RunOfRegistrations(init);
      AddAllDistinct(before, r.handle, r.names, r.isStatic);
      forall k, i | 0 <= k < |regs| && 0 <= i < |regs[k].names|
        ensures Listens(AfterAll(regs), Strip(regs[k].names[i]), regs[k].handle)
      {
        if k == n {
          AddAllListens(before, r.handle, r.names, r.isStatic, i);
        } else {
          assert regs[k] == init[k];
          AddAllKeepsListeners(before, r.handle, r.names, r.isStatic, Strip(regs[k].names[i]), regs[k].handle);
        }
      }
    }
  }

  // ---- Unregistering ------------------------------------------------------------------------------------

  /** The list without the first x of it. */
  function WithoutFirst(s: seq<int>, x: int): seq<int> {
    if s == [] then [] else if s[0] == x then s[1..] else [s[0]] + WithoutFirst(s[1..], x)
  }

  /** mac_policy_removefrom_labellist on the dynamic list: it returns after the first listener. */
  function RemoveFirst(list: seq<Element>, handle: int): seq<Element> {
    if list == [] then []
    else if handle in list[0].listeners then
      var left := WithoutFirst(list[0].listeners, handle);
      if left == [] then list[1..] else [list[0].(listeners := left)] + list[1..]
    else [list[0]] + RemoveFirst(list[1..], handle)
  }

  /** mac_policy_removefrom_labellist for a policy that has these label names. */
  function RemovePolicy(ls: Lists, handle: int, names: seq<string>): Lists {
    if names == [] then ls else ls.(dynamics := RemoveFirst(ls.dynamics, handle))
  }

  /** Removing a listener, and perhaps its namespace, makes no two names equal. */
  lemma {:induction false} RemoveKeepsDistinct(pre: seq<Element>, list: seq<Element>, handle: int)
    requires DistinctNames(pre + list)
    ensures DistinctNames(pre + RemoveFirst(list, handle))
    decreases |list|
  {
    if list != [] {
      var e, rest := list[0], list[1..];
      if handle !in e.listeners {
        assert pre + list == (pre + [e]) + rest;
        RemoveKeepsDistinct(pre + [e], rest, handle);
        assert pre + RemoveFirst(list, handle) == (pre + [e]) + RemoveFirst(rest, handle);
      } else {
        assert list == [e] + rest;
        DropOne(pre, e, rest);
        RelabelOne(pre, e, rest, WithoutFirst(e.listeners, handle));
      }
    }
  }

  lemma DropOne(pre: seq<Element>, e: Element, rest: seq<Element>)
    requires DistinctNames(pre + ([e] + rest))
    ensures DistinctNames(pre + rest)
  {
    var s, s' := pre + ([e] + rest), pre + rest;
    forall i, j | 0 <= i < j < |s'| ensures Strip(s'[i].name) != Strip(s'[j].name) {
      var i', j' := if i < |pre| then i else i + 1, if j < |pre| then j else j + 1;
      assert s'[i] == s[i'] && s'[j] == s[j'];
    }
  }

  lemma RelabelOne(pre: seq<Element>, e: Element, rest: seq<Element>, left: seq<int>)
    requires DistinctNames(pre + ([e] + rest))
    ensures DistinctNames(pre + ([e.(listeners := left)] + rest))
  {
    var s, s' := pre + ([e] + rest), pre + ([e.(listeners := left)] + rest);
    forall i, j | 0 <= i < j < |s'| ensures Strip(s'[i].name) != Strip(s'[j].name) {
      assert s'[i].name == s[i].name && s'[j].name == s[j].name;
    }
  }

  datatype Event = Add(handle: int, names: seq<string>, isStatic: bool) | Remove(handle: int, names: seq<string>)

  function ApplyEvent(ls: Lists, event: Event): Lists {
    match event
    case Add(h, names, isStatic) => AddAll(ls, h, names, isStatic)
    case Remove(h, names) => RemovePolicy(ls, h, names)
  }

  function AfterEvents(ls: Lists, events: seq<Event>): Lists {
    if events == [] then ls else ApplyEvent(AfterEvents(ls, events[..|events| - 1]), events[|events| - 1])
  }

  /** No run of registrations and removals, with names that fit, lists a namespace twice. */
  lemma {:induction false} RunKeepsDistinct(ls: Lists, events: seq<Event>)
    requires Distinct(ls)
    requires forall k :: 0 <= k < |events| && events[k].Add? ==> Short(events[k].names)
    ensures Distinct(AfterEvents(ls, events))
    decreases |events|
  {
    if events != [] {
      var n := |events| - 1;
      RunKeepsDistinct(ls, events[..n]);
      var before := AfterEvents(ls, events[..n]);
      match events[n]
      case Add(h, names, isStatic) => AddAllDistinct(before, h, names, isStatic);
      case Remove(h, names) => RemoveKeepsDistinct(before.statics, before.dynamics, h);
    }
  }

  // ---- The lists as the framework keeps them ------------------------------------------------------------

  /** What the walk does at position i, having found no listener of the policy before it. */
  lemma RemoveAt(list: seq<Element>, i: nat, handle: int)
    requires i < |list| && RemoveFirst(list, handle) == list[..i] + RemoveFirst(list[i..], handle)
    ensures var left := WithoutFirst(list[i].listeners, handle);
            RemoveFirst(list, handle) ==
            if handle !in list[i].listeners then list[..i + 1] + RemoveFirst(list[i + 1..], handle)
            else if left == [] then list[..i] + list[i + 1..]
            else list[i := list[i].(listeners := left)]
  {
  }

  class NamespaceLists {
    var statics: seq<Element>
    var dynamics: seq<Element>

    ghost function View(): Lists
      reads this
    {
      Lists(statics, dynamics)
    }

    constructor ()
      ensures View() == Lists([], [])
    {
      statics, dynamics := [], [];
    }

    /** The search of lines 467-474 and 476-483. */
    static method Search(list: seq<Element>, key: string) returns (i: int)
      ensures i == Find(list, key)
    {
      i := 0;
      while i < |list| && Strip(list[i].name) != key
        invariant 0 <= i <= |list| && Find(list, key) == i + Find(list[i..], key)
      {
        assert list[i..][1..] == list[i + 1..];
        i := i + 1;
      }
    }

    /** Lines 460-498.  `spare` elements are left in the pool; one is used when the name is new. */
    method AddName(handle: int, name: string, isStatic: bool, spare: nat) returns (spare': nat)
      requires spare > 0
      modifies this
      ensures View() == AddOne(old(View()), handle, name, isStatic)
      ensures spare' == if Listed(old(View()), Strip(name)) then spare else spare - 1
      ensures |statics| + |dynamics| + spare' == |old(statics)| + |old(dynamics)| + spare
    {
      var key := Strip(name);
      spare' := spare;
      var i := Search(statics, key);
      if i < |statics| {
        statics := statics[i := Heard(statics[i], handle)];
        return;
      }
      var j := Search(dynamics, key);
      if j < |dynamics| {
        dynamics := dynamics[j := Heard(dynamics[j], handle)];
        return;
      }
      spare' := spare - 1;
      var e := Element(Stored(name), []);
      assert Heard(e, handle) == Element(Stored(name), [handle]);
      if isStatic {
        statics := [e] + statics;
        statics := statics[0 := Heard(e, handle)];
        assert statics == [Heard(e, handle)] + old(statics);
      } else {
        dynamics := [e] + dynamics;
        dynamics := dynamics[0 := Heard(e, handle)];
        assert dynamics == [Heard(e, handle)] + old(dynamics);
      }
    }

    /**
     mac_policy_addto_labellist.  One element and one listener are allocated for each name; the
     pools never run dry, all listeners are used and the elements not used are freed.
     */
    method AddToLabelList(handle: int, names: seq<string>, isStatic: bool) returns (freed: nat, listenersLeft: nat)
      modifies this
      ensures View() == AddAll(old(View()), handle, names, isStatic)
      ensures |statics| + |dynamics| + freed == |old(statics)| + |old(dynamics)| + |names| && listenersLeft == 0
    {
      if |names| == 0 {
        return 0, 0;
      }
      var elements, listeners := |names|, |names|;
      for idx := 0 to |names|
        invariant View() == AddAll(old(View()), handle, names[..idx], isStatic)
        invariant listeners == |names| - idx <= elements
        invariant |statics| + |dynamics| + elements == |old(statics)| + |old(dynamics)| + |names|
      {
        assert names[..idx + 1][..idx] == names[..idx];
        elements := AddName(handle, names[idx], isStatic, elements);
        listeners := listeners - 1;
      }
      assert names[..|names|] == names;
      return elements, listeners;
    }

    /** Lines 544-547: unlink the first listener of the policy, if there is one. */
    static method DropListener(listeners: seq<int>, handle: int) returns (found: bool, left: seq<int>)
      ensures found <==> handle in listeners
      ensures left == WithoutFirst(listeners, handle)
    {
      var i := 0;
      while i < |listeners|
        invariant 0 <= i <= |listeners| && handle !in listeners[..i]
        invariant WithoutFirst(listeners, handle) == listeners[..i] + WithoutFirst(listeners[i..], handle)
      {
        assert listeners[i..][1..] == listeners[i + 1..];
        if listeners[i] == handle {
          return true, listeners[..i] + listeners[i + 1..];
        }
        assert listeners[..i + 1] == listeners[..i] + [listeners[i]];
        i := i + 1;
      }
      assert listeners[..i] == listeners && listeners[i..] == [];
      return false, listeners;
    }

    /** mac_policy_removefrom_labellist. */
    method RemoveFromLabelList(handle: int, names: seq<string>)
      modifies this
      ensures View() == RemovePolicy(old(View()), handle, names)
    {
      if |names| == 0 {
        return;
      }
      var i := 0;
      while i < |dynamics|
        invariant 0 <= i <= |dynamics| && View() == old(View())
        invariant RemoveFirst(dynamics, handle) == dynamics[..i] + RemoveFirst(dynamics[i..], handle)
      {
        var e := dynamics[i];
        RemoveAt(dynamics, i, handle);
        var found, left := DropListener(e.listeners, handle);
        if found {
          if left == [] {
            dynamics := dynamics[..i] + dynamics[i + 1..];
          } else {
            dynamics := dynamics[i := e.(listeners := left)];
          }
          return;
        }
        i := i + 1;
      }
      assert dynamics[..i] == dynamics && dynamics[i..] == [];
    }
  }
}
