/**
 Registering and unregistering a policy as the list is really changed: one field after the other, in
 the order of the code, by a thread that has the list to itself.
 */
module MacChange {
  import opened MacPolicyTable

  /**
   What is being done to the list.  `was` is the table before, and the first k fields have been
   written.
   */
  datatype Phase =
    | Quiet
    | Placing(was: Table, conf: Conf, h: nat, k: nat)
    | Removing(was: Table, h: nat, k: nat)

  datatype PolicyList = PolicyList(table: Table, phase: Phase)

  /** Lines 697, 719, 735, 738, 742 and 744: t with the first k fields of p. */
  function PlacedPart(t: Table, p: Table, k: nat): Table {
    t.(slotsFree := if k >= 1 then p.slotsFree else t.slotsFree,
       freehint := if k >= 2 then p.freehint else t.freehint,
       staticmax := if k >= 3 then p.staticmax else t.staticmax,
       entries := if k >= 4 then p.entries else t.entries,
       maxindex := if k >= 5 then p.maxindex else t.maxindex,
       numloaded := if k >= 6 then p.numloaded else t.numloaded)
  }

  /** Lines 815, 818, 822, 825 and 827. */
  function RemovedPart(t: Table, p: Table, k: nat): Table {
    t.(entries := if k >= 1 then p.entries else t.entries,
       freehint := if k >= 2 then p.freehint else t.freehint,
       maxindex := if k >= 3 then p.maxindex else t.maxindex,
       numloaded := if k >= 4 then p.numloaded else t.numloaded,
       slotsFree := if k >= 5 then p.slotsFree else t.slotsFree)
  }

  /** The fields together are what registering and unregistering do. */
  lemma AllParts(t: Table, conf: Conf, h: nat)
    requires h < |t.entries|
    ensures PlacedPart(t, Placed(t, conf, h), 0) == t && PlacedPart(t, Placed(t, conf, h), 6) == Placed(t, conf, h)
    ensures t.entries[h].Loaded? ==>
              RemovedPart(t, Removed(t, h), 0) == t && RemovedPart(t, Removed(t, h), 5) == Removed(t, h)
  {
  }

  /** Registration has passed its tests, and h is the place it has found. */
  ghost predicate CanPlace(t: Table, conf: Conf, h: nat) {
    && t.numloaded < t.max && !conf.notLate && !NameTaken(t, conf.name)
    && (conf.wantsSlot ==> LowestSlot(t.slotsFree, 0) < |t.slotsFree|)
    && 0 <= t.freehint <= |t.entries| && h == FirstFree(t.entries, t.freehint) < |t.entries|
  }

  /** A dynamic policy that may be unloaded, and is not handle 0 as the highest one. */
  predicate CanRemove(t: Table, h: nat) {
    && h < |t.entries| && t.entries[h].Loaded? && t.entries[h].conf.unloadOk
    && t.staticmax <= h && !(h == 0 && t.maxindex == 0)
  }

  datatype Action = Grow | Place(conf: Conf, h: nat) | Remove(h: nat) | Continue

  ghost predicate Can(l: PolicyList, a: Action) {
    match a
    case Grow => l.phase == Quiet
    case Place(conf, h) => l.phase == Quiet && CanPlace(l.table, conf, h)
    case Remove(h) => l.phase == Quiet && CanRemove(l.table, h)
    case Continue => ListInv(l) && l.phase != Quiet
  }

  /** The list when k fields have been written. */
  ghost function Midway(phase: Phase): PolicyList
    requires phase.Placing? ==> phase.h < |phase.was.entries|
    requires phase.Removing? ==> phase.h < |phase.was.entries| && phase.was.entries[phase.h].Loaded?
    requires phase != Quiet
  {
    match phase
    case Placing(was, conf, h, k) =>
      if k < 6 then PolicyList(PlacedPart(was, Placed(was, conf, h), k), phase)
      else PolicyList(Placed(was, conf, h), Quiet)
    case Removing(was, h, k) =>
      if k < 5 then PolicyList(RemovedPart(was, Removed(was, h), k), phase)
      else PolicyList(Removed(was, h), Quiet)
  }

  ghost function Changed(l: PolicyList, a: Action): PolicyList
    requires Can(l, a)
  {
    match a
    case Grow => l.(table := Grown(l.table))
    case Place(conf, h) => Midway(Placing(l.table, conf, h, 1))
    case Remove(h) => Midway(Removing(l.table, h, 1))
    case Continue => Midway(l.phase.(k := l.phase.k + 1))
  }

  /** Between changes the invariant of the table holds; during one the table is part old and part new. */
  ghost predicate ListInv(l: PolicyList) {
    match l.phase
    case Quiet => Inv(l.table) && l.table.late
    case Placing(was, conf, h, k) =>
      Inv(was) && was.late && CanPlace(was, conf, h) && 1 <= k < 6 && l == Midway(l.phase)
    case Removing(was, h, k) =>
      Inv(was) && was.late && CanRemove(was, h) && 1 <= k < 5 && l == Midway(l.phase)
  }

  lemma ChangeKeeps(l: PolicyList, a: Action)
    requires ListInv(l) && Can(l, a)
    ensures ListInv(Changed(l, a))
  {
    match a
    case Grow => GrownKeeps(l.table);
    case Place(conf, h) =>
    case Remove(h) =>
    case Continue =>
      if l.phase.Placing? && l.phase.k == 5 {
        PlacedKeeps(l.phase.was, l.phase.conf, l.phase.h);
      } else if l.phase.Removing? && l.phase.k == 4 {
        RemovedKeeps(l.phase.was, l.phase.h);
      }
  }

  lemma PlacedKeeps(t: Table, conf: Conf, h: nat)
    requires Inv(t) && CanPlace(t, conf, h)
    ensures Inv(Placed(t, conf, h))
  {
    PlacedLoose(t, conf, h);
    PlacedNames(t, conf, h);
    PlacedSlots(t, conf, h);
  }

  lemma RemovedKeeps(t: Table, h: nat)
    requires Inv(t) && CanRemove(t, h)
    ensures Inv(Removed(t, h))
  {
    RemovedStays(t, h);
    RemovedSlots(t, h);
  }

  // ---- What a reader sees ---------------------------------------------------------------------------

  /** A policy is loaded at h, and not just being registered there. */
  predicate HasPolicy(l: PolicyList, h: nat) {
    h < |l.table.entries| && l.table.entries[h].Loaded? && !(l.phase.Placing? && l.phase.h == h)
  }

  /** staticmax never falls. */
  lemma StaticGrows(l: PolicyList, a: Action)
    requires ListInv(l) && Can(l, a)
    ensures l.table.staticmax <= Changed(l, a).table.staticmax
  {
  }

  /** And it does not pass a policy. */
  lemma StaticPassesNone(l: PolicyList, a: Action, h: nat)
    requires ListInv(l) && Can(l, a) && HasPolicy(l, h) && l.table.staticmax <= h
    ensures Changed(l, a).table.staticmax <= h
  {
  }

  /** staticmax and maxindex stay inside the table. */
  lemma BoundsKept(l: PolicyList)
    requires ListInv(l)
    ensures 0 <= l.table.staticmax <= |l.table.entries| && l.table.maxindex < |l.table.entries|
  {
    match l.phase
    case Quiet =>
    case Placing(was, conf, h, k) => PlacedKeeps(was, conf, h);
    case Removing(was, h, k) => RemovedKeeps(was, h);
  }

  /** The dynamic policies: the loaded ones from staticmax on. */
  ghost function Dynamic(l: PolicyList): set<nat> {
    set g: nat | g < |l.table.entries| && l.table.staticmax <= g && HasPolicy(l, g)
  }

  /** A registration has raised staticmax and not yet numloaded. */
  predicate RaisingStatic(l: PolicyList) {
    l.phase.Placing? && 3 <= l.phase.k < 6 && l.table.staticmax == l.phase.was.staticmax + 1
  }

  /** How far numloaded is from the number of policies in the middle of a change. */
  function Skew(l: PolicyList): int {
    if RaisingStatic(l) then -1 else if l.phase.Removing? && l.phase.k < 4 then 1 else 0
  }

  ghost function LoadedFrom(entries: seq<Entry>, n: nat): set<nat> {
    set g: nat | n <= g < |entries| && entries[g].Loaded?
  }

  lemma {:induction false} CountFrom(entries: seq<Entry>, n: nat)
    requires n <= |entries| && forall i :: 0 <= i < n ==> entries[i].Loaded?
    ensures Count(entries) == n + |LoadedFrom(entries, n)|
    decreases |entries|
  {
    var last := |entries| - 1;
    if n == |entries| {
      CountAll(entries);
      assert LoadedFrom(entries, n) == {};
    } else {
      CountFrom(entries[..last], n);
      assert LoadedFrom(entries, n) ==
             LoadedFrom(entries[..last], n) + if entries[last].Loaded? then {last} else {};
    }
  }

  lemma DynamicPlacing(l: PolicyList)
    requires ListInv(l) && l.phase.Placing?
    ensures Dynamic(l) == LoadedFrom(l.phase.was.entries, l.phase.was.staticmax)
  {
    var was, h := l.phase.was, l.phase.h;
    assert forall g: nat :: HasPolicy(l, g) <==> g < |was.entries| && was.entries[g].Loaded?;
  }

  lemma DynamicRemoving(l: PolicyList)
    requires ListInv(l) && l.phase.Removing?
    ensures l.phase.h in LoadedFrom(l.phase.was.entries, l.phase.was.staticmax)
    ensures Dynamic(l) == LoadedFrom(l.phase.was.entries, l.phase.was.staticmax) - {l.phase.h}
  {
  }

  lemma PlacingTells(l: PolicyList)
    requires ListInv(l) && l.phase.Placing?
    ensures l.table.numloaded == l.table.staticmax + |Dynamic(l)| + Skew(l)
  {
    CountFrom(l.phase.was.entries, l.phase.was.staticmax);
    DynamicPlacing(l);
  }

  lemma RemovingTells(l: PolicyList)
    requires ListInv(l) && l.phase.Removing?
    ensures l.table.numloaded == l.table.staticmax + |Dynamic(l)| + Skew(l)
  {
    CountFrom(l.phase.was.entries, l.phase.was.staticmax);
    DynamicRemoving(l);
  }

  /** What the two counters tell about the dynamic policies, between any two writes of a change. */
  lemma CountersTell(l: PolicyList)
    requires ListInv(l)
    ensures l.table.numloaded == l.table.staticmax + |Dynamic(l)| + Skew(l)
  {
    match l.phase
    case Quiet =>
      CountFrom(l.table.entries, l.table.staticmax);
      assert Dynamic(l) == LoadedFrom(l.table.entries, l.table.staticmax);
    case Placing(_, _, _, _) => PlacingTells(l);
    case Removing(_, _, _) => RemovingTells(l);
  }

  /**
   The counters deny the dynamic policies that are there exactly when a registration is between the two
   of them and there is only one.
   */
  lemma CountersMislead(l: PolicyList, h: nat)
    requires ListInv(l) && h in Dynamic(l)
    ensures l.table.numloaded <= l.table.staticmax <==> RaisingStatic(l) && Dynamic(l) == {h}
  {
    CountersTell(l);
    assert |Dynamic(l)| == 1 + |Dynamic(l) - {h}|;
  }

  /** staticmax does not rise unseen. */
  lemma RaiseShows(l: PolicyList, a: Action)
    requires Can(l, a)
    ensures Changed(l, a).table.staticmax == l.table.staticmax || RaisingStatic(Changed(l, a))
  {
  }
}
