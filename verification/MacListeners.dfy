/**
 How often a policy listens to label namespaces, and what registering and unregistering do to that.
 Unregistering takes back one listening only, and never one on the static list.
 */
module MacListeners {
  import opened MacNamespaces

  function Times(s: seq<int>, x: int): nat {
    if s == [] then 0 else (if s[0] == x then 1 else 0) + Times(s[1..], x)
  }

  /** How often a policy is a listener. */
  function Occurrences(list: seq<Element>, handle: int): nat {
    if list == [] then 0 else Times(list[0].listeners, handle) + Occurrences(list[1..], handle)
  }

  lemma {:induction false} TimesWithout(s: seq<int>, x: int, y: int)
    requires x in s
    ensures Times(WithoutFirst(s, x), y) == Times(s, y) - if y == x then 1 else 0
  {
    if s[0] != x {
      assert x in s[1..];
      TimesWithout(s[1..], x, y);
      assert WithoutFirst(s, x)[1..] == WithoutFirst(s[1..], x);
    }
  }

  lemma {:induction false} TimesZero(s: seq<int>, x: int)
    ensures Times(s, x) == 0 <==> x !in s
  {
    if s != [] {
      TimesZero(s[1..], x);
    }
  }

  /** One listener of the policy goes, and no listener of another policy. */
  lemma {:induction false} RemoveFirstOccurrences(list: seq<Element>, handle: int, other: int)
    ensures Occurrences(RemoveFirst(list, handle), other) ==
            if other == handle && Occurrences(list, handle) > 0 then Occurrences(list, handle) - 1
            else Occurrences(list, other)
    decreases |list|
  {
    if list != [] {
      var e := list[0];
      TimesZero(e.listeners, handle);
      if handle in e.listeners {
        TimesWithout(e.listeners, handle, other);
        var left := WithoutFirst(e.listeners, handle);
        if left != [] {
          assert ([e.(listeners := left)] + list[1..])[1..] == list[1..];
        }
      } else {
        RemoveFirstOccurrences(list[1..], handle, other);
        assert ([e] + RemoveFirst(list[1..], handle))[1..] == RemoveFirst(list[1..], handle);
      }
    }
  }

  // ---- Both lists ---------------------------------------------------------------------------------

  function Static(ls: Lists, handle: int): nat { Occurrences(ls.statics, handle) }

  function Dynamic(ls: Lists, handle: int): nat { Occurrences(ls.dynamics, handle) }

  lemma {:induction false} OccurrencesZero(list: seq<Element>, handle: int)
    ensures Occurrences(list, handle) == 0 <==> forall i :: 0 <= i < |list| ==> handle !in list[i].listeners
  {
    if list != [] {
      OccurrencesZero(list[1..], handle);
      TimesZero(list[0].listeners, handle);
      assert forall i :: 0 < i < |list| ==> list[i] == list[1..][i - 1];
    }
  }

  /** The counts are 0 exactly when the policy listens to no namespace. */
  lemma NoListening(ls: Lists, handle: int)
    ensures Static(ls, handle) == 0 && Dynamic(ls, handle) == 0 <==> forall key :: !Listens(ls, key, handle)
  {
    OccurrencesZero(ls.statics, handle);
    OccurrencesZero(ls.dynamics, handle);
    var all := All(ls);
    assert forall i :: 0 <= i < |ls.statics| ==> all[i] == ls.statics[i];
    assert forall i :: 0 <= i < |ls.dynamics| ==> all[|ls.statics| + i] == ls.dynamics[i];
    if forall key :: !Listens(ls, key, handle) {
      forall i | 0 <= i < |all| ensures handle !in all[i].listeners {
        assert !Listens(ls, Strip(all[i].name), handle);
      }
    }
  }

  /** One listening on the dynamic list goes, if the policy has label names, and nothing else. */
  lemma RemoveListening(ls: Lists, handle: int, names: seq<string>, other: int)
    ensures var ls' := RemovePolicy(ls, handle, names);
            && Static(ls', other) == Static(ls, other)
            && Dynamic(ls', other) ==
               Dynamic(ls, other) - if names != [] && other == handle && Dynamic(ls, other) > 0 then 1 else 0
  {
    RemoveFirstOccurrences(ls.dynamics, handle, other);
  }

  /** Unregistering leaves the policy listening to nothing, under the exact condition. */
  lemma CleanUpIsCompleteIff(ls: Lists, handle: int, names: seq<string>)
    ensures (forall key :: !Listens(RemovePolicy(ls, handle, names), key, handle))
            <==> Static(ls, handle) == 0 && Dynamic(ls, handle) <= if names != [] then 1 else 0
  {
    RemoveListening(ls, handle, names, handle);
    NoListening(RemovePolicy(ls, handle, names), handle);
  }

  // ---- What registering does to the counts ----------------------------------------------------------

  lemma {:induction false} HeardOccurrences(list: seq<Element>, i: nat, handle: int, other: int)
    requires i < |list|
    ensures Occurrences(list[i := Heard(list[i], handle)], other) ==
            Occurrences(list, other) + if other == handle then 1 else 0
    decreases i
  {
    var list' := list[i := Heard(list[i], handle)];
    if i == 0 {
      assert list'[1..] == list[1..];
    } else {
      assert list'[1..] == list[1..][i - 1 := Heard(list[1..][i - 1], handle)];
      HeardOccurrences(list[1..], i - 1, handle, other);
    }
  }

  lemma NewOccurrences(list: seq<Element>, name: string, handle: int, other: int)
    ensures Occurrences([Element(name, [handle])] + list, other) ==
            Occurrences(list, other) + if other == handle then 1 else 0
  {
    var one, list' := [handle], [Element(name, [handle])] + list;
    assert one[1..] == [] && Times(one[1..], other) == 0;
    assert list'[1..] == list && list'[0].listeners == one;
  }

  /** A namespace that is on the static list gets its listener there. */
  predicate OnStatics(ls: Lists, name: string) { Find(ls.statics, Strip(name)) < |ls.statics| }

  predicate OnDynamics(ls: Lists, name: string) { Find(ls.dynamics, Strip(name)) < |ls.dynamics| }

  /** One listening more for the policy, none for any other, on the list where the name is or goes. */
  lemma AddOneListening(ls: Lists, handle: int, name: string, isStatic: bool, other: int)
    ensures var ls' := AddOne(ls, handle, name, isStatic);
            var more := if other == handle then 1 else 0;
            if OnStatics(ls, name) || (isStatic && !OnDynamics(ls, name))
            then Static(ls', other) == Static(ls, other) + more && Dynamic(ls', other) == Dynamic(ls, other)
            else Static(ls', other) == Static(ls, other) && Dynamic(ls', other) == Dynamic(ls, other) + more
  {
    var i, j := Find(ls.statics, Strip(name)), Find(ls.dynamics, Strip(name));
    if i < |ls.statics| {
      HeardOccurrences(ls.statics, i, handle, other);
    } else if j < |ls.dynamics| {
      HeardOccurrences(ls.dynamics, j, handle, other);
    } else {
      NewOccurrences(ls.statics, Stored(name), handle, other);
      NewOccurrences(ls.dynamics, Stored(name), handle, other);
    }
  }

  /** How many of the names are on the static list. */
  function StaticNames(ls: Lists, names: seq<string>): (n: nat)
    ensures n <= |names|
  {
    if names == [] then 0
    else StaticNames(ls, names[..|names| - 1]) + if OnStatics(ls, names[|names| - 1]) then 1 else 0
  }

  /** No registration takes a name off the static list, and a dynamic policy's puts none on it. */
  lemma {:induction false} SameStatics(ls: Lists, handle: int, names: seq<string>, name: string)
    ensures OnStatics(AddAll(ls, handle, names, false), name) <==> OnStatics(ls, name)
    decreases |names|
  {
    if names != [] {
      var n := |names| - 1;
      SameStatics(ls, handle, names[..n], name);
      SameStaticsOne(AddAll(ls, handle, names[..n], false), handle, names[n], name);
    }
  }

  lemma SameStaticsOne(ls: Lists, handle: int, added: string, name: string)
    ensures OnStatics(AddOne(ls, handle, added, false), name) <==> OnStatics(ls, name)
  {
    var ss, ss' := ls.statics, AddOne(ls, handle, added, false).statics;
    assert |ss'| == |ss| && forall i :: 0 <= i < |ss| ==> ss'[i].name == ss[i].name;
  }

  /** The listenings of a dynamic policy: on the static list for the names that are there already. */
  lemma {:induction false} AddAllListening(ls: Lists, handle: int, names: seq<string>, other: int)
    ensures var ls', k := AddAll(ls, handle, names, false), StaticNames(ls, names);
            && Static(ls', other) == Static(ls, other) + (if other == handle then k else 0)
            && Dynamic(ls', other) == Dynamic(ls, other) + (if other == handle then |names| - k else 0)
    decreases |names|
  {
    if names != [] {
      var n := |names| - 1;
      AddAllListening(ls, handle, names[..n], other);
      SameStatics(ls, handle, names[..n], names[n]);
      AddOneListening(AddAll(ls, handle, names[..n], false), handle, names[n], false, other);
    }
  }

  /** Every registration, static ones too, adds one listening for each name. */
  lemma {:induction false} AddAllTotal(ls: Lists, handle: int, names: seq<string>, isStatic: bool, other: int)
    ensures var ls' := AddAll(ls, handle, names, isStatic);
            && Static(ls', other) + Dynamic(ls', other) ==
               Static(ls, other) + Dynamic(ls, other) + (if other == handle then |names| else 0)
            && (other != handle ==> Static(ls', other) == Static(ls, other))
    decreases |names|
  {
    if names != [] {
      var n := |names| - 1;
      AddAllTotal(ls, handle, names[..n], isStatic, other);
      AddOneListening(AddAll(ls, handle, names[..n], isStatic), handle, names[n], isStatic, other);
    }
  }

  // ---- From registering to unregistering ------------------------------------------------------------

  /** What other policies do leaves the listenings of a policy alone. */
  lemma {:induction false} OthersKeepListening(ls: Lists, events: seq<Event>, handle: int)
    requires forall k :: 0 <= k < |events| ==> events[k].handle != handle
    ensures var ls' := AfterEvents(ls, events);
            Static(ls', handle) == Static(ls, handle) && Dynamic(ls', handle) == Dynamic(ls, handle)
    decreases |events|
  {
    if events != [] {
      var n := |events| - 1;
      OthersKeepListening(ls, events[..n], handle);
      var before := AfterEvents(ls, events[..n]);
      match events[n]
      case Add(h, names, isStatic) => AddAllTotal(before, h, names, isStatic, handle);
      case Remove(h, names) => RemoveListening(before, h, names, handle);
    }
  }

  /**
   A dynamic policy is registered on a handle nobody listens with, other policies come and go, and it
   is unregistered: it listens to nothing then exactly when it has at most one label name and that
   name was not on the static list when it was registered.
   */
  lemma CleanUpAfterRun(ls: Lists, handle: int, names: seq<string>, others: seq<Event>)
    requires forall key :: !Listens(ls, key, handle)
    requires forall k :: 0 <= k < |others| ==> others[k].handle != handle
    ensures var ls' := RemovePolicy(AfterEvents(AddAll(ls, handle, names, false), others), handle, names);
            (forall key :: !Listens(ls', key, handle)) <==> |names| <= 1 && StaticNames(ls, names) == 0
  {
    NoListening(ls, handle);
    AddAllListening(ls, handle, names, handle);
    var added := AddAll(ls, handle, names, false);
    OthersKeepListening(added, others, handle);
    CleanUpIsCompleteIff(AfterEvents(added, others), handle, names);
  }

  /** The run of two names: one listening is left. */
  lemma TwoNamesLeaveOne(handle: int)
    ensures var names := ["a", "b"];
            var ls := RemovePolicy(AddAll(Lists([], []), handle, names, false), handle, names);
            exists key :: Listens(ls, key, handle)
  {
    CleanUpAfterRun(Lists([], []), handle, ["a", "b"], []);
  }

  /** The run of one name that a static policy has listed: its listening is left. */
  lemma StaticNameLeavesOne(keeper: int, handle: int)
    requires keeper != handle
    ensures var ls := AddAll(Lists([], []), keeper, ["n"], true);
            exists key :: Listens(RemovePolicy(AddAll(ls, handle, ["n"], false), handle, ["n"]), key, handle)
  {
    var none, ls := Lists([], []), AddAll(Lists([], []), keeper, ["n"], true);
    assert ["n"][..0] == [];
    assert AddAll(none, keeper, [], true) == none;
    assert ls == AddOne(none, keeper, "n", true) == Lists([Element("n", [keeper])], []);
    assert OnStatics(ls, "n");
    AddAllTotal(none, keeper, ["n"], true, handle);
    NoListening(ls, handle);
    CleanUpAfterRun(ls, handle, ["n"], []);
  }
}
