/**
 The table of loaded MAC policies as a value: what registering and unregistering a policy
 do to it, the invariant of the table, and exactly which unregistrations keep it.
 */
module MacPolicyTable {
  import opened Bytes
  import opened MacErrno
  import opened Runs

  const CHUNK := 8
  const MAX_SLOTS := 7

  /** The parts of a policy's configuration that the framework looks at. */
  datatype Conf = Conf(name: string, notLate: bool, unloadOk: bool, wantsSlot: bool)

  const NO_SLOT := -1

  /** A place of the table; `slot` is what the framework stored for a policy that wants one. */
  datatype Entry = Empty | Loaded(conf: Conf, slot: int, registered: bool)

  /** mac_policy_list, the free label slots, and whether the boot phase is over. */
  datatype Table = Table(
    entries: seq<Entry>,
    numloaded: int,
    max: int,
    maxindex: int,
    staticmax: int,
    chunks: int,
    freehint: int,
    slotsFree: seq<bool>,
    late: bool)

  /** Zeroed memory for n places. */
  function Blank(n: nat): (s: seq<Entry>)
    ensures |s| == n && forall i :: 0 <= i < n ==> s[i].Empty?
  {
    if n == 0 then [] else Blank(n - 1) + [Empty]
  }

  function InitialTable(): Table {
    Table(Blank(CHUNK), 0, CHUNK, 0, 0, 1, 0, seq(MAX_SLOTS, _ => true), false)
  }

  // ---- The operations --------------------------------------------------------------------------

  function Grown(t: Table): Table {
    if t.numloaded < t.max then t
    else t.(entries := t.entries + Blank(CHUNK), max := t.max + CHUNK, chunks := t.chunks + 1)
  }

  ghost predicate NameTaken(t: Table, name: string) {
    exists i :: 0 <= i < |t.entries| && i <= t.maxindex && t.entries[i].Loaded? && t.entries[i].conf.name == name
  }

  function FirstFree(entries: seq<Entry>, i: nat): (h: nat)
    requires i <= |entries|
    ensures i <= h <= |entries|
    ensures forall j :: i <= j < h ==> entries[j].Loaded?
    ensures h < |entries| ==> entries[h].Empty?
    decreases |entries| - i
  {
    if i == |entries| || entries[i].Empty? then i else FirstFree(entries, i + 1)
  }

  /** ffs() - 1, or the number of slots when no bit is set. */
  function LowestSlot(free: seq<bool>, i: nat): (s: nat)
    requires i <= |free|
    ensures i <= s <= |free|
    ensures forall j :: i <= j < s ==> !free[j]
    ensures s < |free| ==> free[s]
    decreases |free| - i
  {
    if i == |free| || free[i] then i else LowestSlot(free, i + 1)
  }

  datatype Outcome = Done(handle: int) | Error(errno: int) | Undefined

  function Placed(t: Table, conf: Conf, h: nat): Table
    requires h < |t.entries|
  {
    var slot := if conf.wantsSlot then LowestSlot(t.slotsFree, 0) else NO_SLOT;
    var isStatic := !t.late || (!conf.unloadOk && h == t.staticmax);
    t.(entries := t.entries[h := Loaded(conf, slot, true)],
       slotsFree := if 0 <= slot < |t.slotsFree| then t.slotsFree[slot := false] else t.slotsFree,
       freehint := h + 1,
       staticmax := if isStatic then t.staticmax + 1 else t.staticmax,
       maxindex := if h > t.maxindex then h else t.maxindex,
       numloaded := t.numloaded + 1)
  }

  /** mac_policy_register.  `Undefined` is a search that ends without a free place. */
  ghost function Register(t: Table, conf: Conf): (r: (Table, Outcome))
    requires 0 <= t.freehint <= |t.entries|
  {
    if t.late && conf.notLate then (t, Error(EPERM))
    else
      var g := Grown(t);
      if NameTaken(g, conf.name) then (g, Error(EEXIST))
      else if conf.wantsSlot && LowestSlot(g.slotsFree, 0) == |g.slotsFree| then (g, Error(ENOMEM))
      else
        var h := FirstFree(g.entries, g.freehint);
        if h == |g.entries| then (g, Undefined) else (Placed(g, conf, h), Done(h))
  }

  /** u-- of an unsigned int. */
  function Decremented(u: int): int { if u == 0 then WORD - 1 else u - 1 }

  function Removed(t: Table, h: nat): Table
    requires h < |t.entries| && t.entries[h].Loaded?
  {
    var e := t.entries[h];
    t.(entries := t.entries[h := Empty],
       freehint := if h < t.freehint && h >= t.staticmax then h else t.freehint,
       maxindex := if h == t.maxindex then Decremented(t.maxindex) else t.maxindex,
       numloaded := t.numloaded - 1,
       slotsFree := if e.conf.wantsSlot && 0 <= e.slot < |t.slotsFree|
                    then t.slotsFree[e.slot := true] else t.slotsFree)
  }

  /** mac_policy_unregister of a loaded policy. */
  function Unregister(t: Table, h: nat): (r: (Table, int))
    requires h < |t.entries| && t.entries[h].Loaded?
  {
    if !t.entries[h].registered then (t, 0)
    else if !t.entries[h].conf.unloadOk then (t, EBUSY)
    else (Removed(t, h), 0)
  }

  // ---- The invariant --------------------------------------------------------------------------

  function Count(entries: seq<Entry>): (n: nat)
    ensures n <= |entries|
  {
    if entries == [] then 0
    else Count(entries[..|entries| - 1]) + if entries[|entries| - 1].Loaded? then 1 else 0
  }

  /** What holds whichever policies are unloaded: nothing is said about the entries below staticmax. */
  ghost predicate Loose(t: Table) {
    && 1 <= t.chunks && t.max == CHUNK * t.chunks && |t.entries| == t.max
    && t.numloaded == Count(t.entries)
    && 0 <= t.staticmax <= t.freehint <= t.max
    && (forall i :: t.staticmax <= i < t.freehint ==> t.entries[i].Loaded?)
    && 0 <= t.maxindex < t.max && (forall i :: t.maxindex < i < t.max ==> t.entries[i].Empty?)
    && (!t.late ==> forall i :: t.staticmax <= i < t.max ==> t.entries[i].Empty?)
    && (forall i :: 0 <= i < t.max && t.entries[i].Loaded? ==> t.entries[i].registered)
  }

  ghost predicate StaticsLoaded(t: Table) {
    forall i :: 0 <= i < t.staticmax && i < |t.entries| ==> t.entries[i].Loaded?
  }

  ghost predicate Shape(t: Table) { Loose(t) && StaticsLoaded(t) }

  ghost predicate NamesDiffer(t: Table) {
    forall i, j :: 0 <= i < j < |t.entries| && t.entries[i].Loaded? && t.entries[j].Loaded? ==>
      t.entries[i].conf.name != t.entries[j].conf.name
  }

  /** Place i owns label slot s. */
  predicate Owns(e: Entry, s: int) { e.Loaded? && e.slot == s }

  /** A slot is free exactly when no loaded policy owns it, and no two policies own the same. */
  ghost predicate SlotsConserved(t: Table) {
    && |t.slotsFree| == MAX_SLOTS
    && (forall i :: 0 <= i < |t.entries| && t.entries[i].Loaded? ==>
          if t.entries[i].conf.wantsSlot then 0 <= t.entries[i].slot < MAX_SLOTS else t.entries[i].slot == NO_SLOT)
    && (forall i, s :: 0 <= i < |t.entries| && 0 <= s < MAX_SLOTS && Owns(t.entries[i], s) ==> !t.slotsFree[s])
    && (forall s :: 0 <= s < MAX_SLOTS && !t.slotsFree[s] ==> exists i :: 0 <= i < |t.entries| && Owns(t.entries[i], s))
    && (forall i, j, s ::
          0 <= i < j < |t.entries| && 0 <= s < MAX_SLOTS && Owns(t.entries[i], s) ==> !Owns(t.entries[j], s))
  }

  ghost predicate Inv(t: Table) { Shape(t) && NamesDiffer(t) && SlotsConserved(t) }

  ghost predicate LooseInv(t: Table) { Loose(t) && NamesDiffer(t) && SlotsConserved(t) }

  // ---- Counting --------------------------------------------------------------------------------

  lemma {:induction false} CountUpdate(entries: seq<Entry>, h: nat, e: Entry)
    requires h < |entries|
    ensures Count(entries[h := e]) ==
            Count(entries) - (if entries[h].Loaded? then 1 else 0) + if e.Loaded? then 1 else 0
    decreases |entries|
  {
    var n := |entries| - 1;
    if h < n {
      CountUpdate(entries[..n], h, e);
      assert entries[h := e][..n] == entries[..n][h := e];
    } else {
      assert entries[h := e][..n] == entries[..n];
    }
  }

  lemma {:induction false} CountAll(entries: seq<Entry>)
    ensures Count(entries) == |entries| <==> forall i :: 0 <= i < |entries| ==> entries[i].Loaded?
    decreases |entries|
  {
    if entries != [] {
      CountAll(entries[..|entries| - 1]);
    }
  }

  lemma {:induction false} CountGrown(entries: seq<Entry>, n: nat)
    ensures Count(entries + Blank(n)) == Count(entries)
    decreases n
  {
    var s := entries + Blank(n);
    if n == 0 {
      assert s == entries;
    } else {
      assert s[..|s| - 1] == entries + Blank(n - 1);
      CountGrown(entries, n - 1);
    }
  }

  /** The number of loaded policies among the first n places. */
  lemma {:induction false} CountPrefix(entries: seq<Entry>, n: nat)
    requires n <= |entries| && forall i :: 0 <= i < n ==> entries[i].Loaded?
    ensures Count(entries) >= n
    ensures Count(entries) == n <==> forall i :: n <= i < |entries| ==> entries[i].Empty?
    decreases |entries|
  {
    if n == |entries| {
      CountAll(entries);
    } else {
      CountPrefix(entries[..|entries| - 1], n);
    }
  }

  // ---- Registering ------------------------------------------------------------------------------

  lemma GrownLoose(t: Table)
    requires Loose(t)
    ensures Loose(Grown(t)) && Grown(t).numloaded < Grown(t).max
    ensures t.entries <= Grown(t).entries
    ensures forall i :: |t.entries| <= i < |Grown(t).entries| ==> Grown(t).entries[i].Empty?
  {
    CountGrown(t.entries, CHUNK);
  }

  /** Growing keeps the invariant and all entries, and makes room. */
  lemma GrownKeeps(t: Table)
    requires LooseInv(t)
    ensures LooseInv(Grown(t)) && Grown(t).numloaded < Grown(t).max && (Inv(t) ==> Inv(Grown(t)))
    ensures t.entries <= Grown(t).entries
    ensures forall i :: |t.entries| <= i < |Grown(t).entries| ==> Grown(t).entries[i].Empty?
  {
    GrownLoose(t);
    GrownSlots(t);
  }

  lemma GrownSlots(t: Table)
    requires SlotsConserved(t)
    ensures SlotsConserved(Grown(t))
  {
    var g := Grown(t);
    forall s | 0 <= s < MAX_SLOTS && !g.slotsFree[s] ensures exists i :: 0 <= i < |g.entries| && Owns(g.entries[i], s) {
      var i :| 0 <= i < |t.entries| && Owns(t.entries[i], s);
      assert Owns(g.entries[i], s);
    }
  }

  /** A table that is not full has a free place at or after the hint. */
  lemma FreePlace(t: Table)
    requires Shape(t) && t.numloaded < t.max
    ensures FirstFree(t.entries, t.freehint) < t.max
  {
    var h := FirstFree(t.entries, t.freehint);
    if h == |t.entries| {
      CountAll(t.entries);
    }
  }

  lemma PlacedLoose(t: Table, conf: Conf, h: nat)
    requires Loose(t) && h < t.max && h == FirstFree(t.entries, t.freehint)
    ensures Loose(Placed(t, conf, h)) && (StaticsLoaded(t) ==> StaticsLoaded(Placed(t, conf, h)))
  {
    CountUpdate(t.entries, h, Placed(t, conf, h).entries[h]);
    if !t.late {
      EarlyHandle(t, h);
    }
  }

  /** During boot, the next handle is the next static one. */
  lemma EarlyHandle(t: Table, h: nat)
    requires Loose(t) && !t.late && h < t.max && h == FirstFree(t.entries, t.freehint)
    ensures h == t.staticmax
  {
    var m := t.staticmax;
    assert m < t.max ==> t.entries[m].Empty?;
  }

  lemma PlacedNames(t: Table, conf: Conf, h: nat)
    requires Loose(t) && NamesDiffer(t) && h < t.max && !NameTaken(t, conf.name)
    ensures NamesDiffer(Placed(t, conf, h))
  {
  }

  lemma PlacedSlots(t: Table, conf: Conf, h: nat)
    requires SlotsConserved(t) && h < |t.entries| && t.entries[h].Empty?
    requires conf.wantsSlot ==> LowestSlot(t.slotsFree, 0) < MAX_SLOTS
    ensures SlotsConserved(Placed(t, conf, h))
  {
    var p := Placed(t, conf, h);
    var slot := p.entries[h].slot;
    forall s | 0 <= s < MAX_SLOTS && !p.slotsFree[s] ensures exists i :: 0 <= i < |p.entries| && Owns(p.entries[i], s) {
      if s == slot {
        assert Owns(p.entries[h], s);
      } else {
        var i :| 0 <= i < |t.entries| && Owns(t.entries[i], s);
        assert Owns(p.entries[i], s);
      }
    }
  }

  /** A registration that ends keeps what holds in every table, and the invariant if it holds. */
  lemma RegisterKeepsLoose(t: Table, conf: Conf)
    requires LooseInv(t)
    ensures LooseInv(Register(t, conf).0) && (Inv(t) ==> Inv(Register(t, conf).0))
  {
    GrownKeeps(t);
    var g := Grown(t);
    var h := FirstFree(g.entries, g.freehint);
    if Register(t, conf).1.Done? {
      PlacedLoose(g, conf, h);
      PlacedNames(g, conf, h);
      PlacedSlots(g, conf, h);
    }
  }

  /** Every attempt to register keeps the invariant, and the search for a place never fails. */
  lemma RegisterKeeps(t: Table, conf: Conf)
    requires Inv(t)
    ensures Inv(Register(t, conf).0) && Register(t, conf).1 != Undefined
  {
    RegisterKeepsLoose(t, conf);
    GrownKeeps(t);
    FreePlace(Grown(t));
  }

  ghost predicate IsLoaded(t: Table, name: string) {
    exists i :: 0 <= i < |t.entries| && t.entries[i].Loaded? && t.entries[i].conf.name == name
  }

  /** Looking only as far as maxindex finds every loaded name. */
  lemma NameTakenIffLoaded(t: Table, name: string)
    requires Inv(t)
    ensures NameTaken(Grown(t), name) <==> IsLoaded(t, name)
  {
    var g := Grown(t);
    if IsLoaded(t, name) {
      var i :| 0 <= i < |t.entries| && t.entries[i].Loaded? && t.entries[i].conf.name == name;
      assert g.entries[i] == t.entries[i];
    }
    if NameTaken(g, name) {
      var i :| 0 <= i < |g.entries| && i <= g.maxindex && g.entries[i].Loaded? && g.entries[i].conf.name == name;
      assert t.entries[i] == g.entries[i];
    }
  }

  /** When registration is refused; it leaves nothing behind then but room in the table. */
  lemma RegisterErrors(t: Table, conf: Conf)
    requires Inv(t)
    ensures var (t', o) := Register(t, conf);
            var early := t.late && conf.notLate;
            && (o == Error(EPERM) <==> early)
            && (o == Error(EEXIST) <==> !early && IsLoaded(t, conf.name))
            && (o == Error(ENOMEM) <==> !early && !IsLoaded(t, conf.name)
                                        && conf.wantsSlot && forall s :: 0 <= s < MAX_SLOTS ==> !t.slotsFree[s])
            && (o.Error? ==> t' == t || t' == Grown(t))
  {
    NameTakenIffLoaded(t, conf.name);
  }

  /** The lowest free slot goes to a policy that wants one, and no other slot changes. */
  ghost predicate SlotTaken(t: Table, conf: Conf, e: Entry, t': Table) {
    && e.Loaded? && |t'.slotsFree| == |t.slotsFree|
    && (if conf.wantsSlot
        then 0 <= e.slot < |t.slotsFree| && t.slotsFree[e.slot] && forall s :: 0 <= s < e.slot ==> !t.slotsFree[s]
        else e.slot == NO_SLOT)
    && forall s :: 0 <= s < |t.slotsFree| ==> (t'.slotsFree[s] <==> t.slotsFree[s] && s != e.slot)
  }

  /** And the counters: a policy behind the static ones is static during boot, or if it cannot be unloaded. */
  lemma RegisterCounters(t: Table, conf: Conf)
    requires Shape(t) && Register(t, conf).1.Done?
    ensures var (t', o) := Register(t, conf);
            && 0 <= o.handle < |t'.entries| && SlotTaken(t, conf, t'.entries[o.handle], t')
            && t'.numloaded == t.numloaded + 1 && t'.late == t.late
            && t'.maxindex == (if o.handle > t.maxindex then o.handle else t.maxindex)
            && t'.staticmax == t.staticmax + (if o.handle == t.staticmax && (!t.late || !conf.unloadOk) then 1 else 0)
            && t'.max == (if t.numloaded < t.max then t.max else t.max + CHUNK)
  {
    GrownLoose(t);
    if !t.late {
      EarlyHandle(Grown(t), Register(t, conf).1.handle);
    }
  }

  /** When it is not refused: the smallest free handle is taken, and no other entry changes. */
  lemma RegisterOutcome(t: Table, conf: Conf)
    requires Shape(t) && Register(t, conf).1.Done?
    ensures var (t', o) := Register(t, conf);
            && 0 <= o.handle < |t'.entries| && t'.entries[o.handle].Loaded?
            && t'.entries[o.handle].conf == conf && t'.entries[o.handle].registered
            && (o.handle < |t.entries| ==> t.entries[o.handle].Empty?)
            && (forall i :: 0 <= i < o.handle ==>
                  i < |t.entries| && t.entries[i].Loaded? && t'.entries[i] == t.entries[i])
            && (forall i :: o.handle < i < |t.entries| ==> t'.entries[i] == t.entries[i])
  {
    GrownLoose(t);
    var g := Grown(t);
    FreePlace(g);
    assert |t.entries| < |g.entries| ==> g.entries[|t.entries|].Empty?;
  }

  // ---- Unregistering ----------------------------------------------------------------------------

  lemma RemovedStays(t: Table, h: nat)
    requires Loose(t) && h < t.max && t.entries[h].Loaded? && !(h == 0 && t.maxindex == 0)
    ensures Loose(Removed(t, h)) && (StaticsLoaded(t) && t.staticmax <= h ==> StaticsLoaded(Removed(t, h)))
  {
    CountUpdate(t.entries, h, Empty);
  }

  lemma RemovedLoose(t: Table, h: nat)
    requires Loose(t) && h < t.max && t.entries[h].Loaded? && t.max < WORD
    ensures Loose(Removed(t, h)) <==> !(h == 0 && t.maxindex == 0)
  {
    if !(h == 0 && t.maxindex == 0) {
      RemovedStays(t, h);
    }
  }

  /** A slot that is in use after a removal is that of another policy. */
  lemma RemovedOwner(t: Table, h: nat, s: int) returns (i: nat)
    requires SlotsConserved(t) && h < |t.entries| && t.entries[h].Loaded?
    requires 0 <= s < MAX_SLOTS && !Removed(t, h).slotsFree[s]
    ensures i < |t.entries| && i != h && Owns(t.entries[i], s)
  {
    i :| 0 <= i < |t.entries| && Owns(t.entries[i], s);
  }

  lemma RemovedSlots(t: Table, h: nat)
    requires SlotsConserved(t) && h < |t.entries| && t.entries[h].Loaded?
    ensures SlotsConserved(Removed(t, h))
  {
    var r := Removed(t, h);
    assert forall i :: 0 <= i < |t.entries| ==> r.entries[i] == if i == h then Empty else t.entries[i];
    forall s | 0 <= s < MAX_SLOTS && !r.slotsFree[s] ensures exists i :: 0 <= i < |r.entries| && Owns(r.entries[i], s) {
      var i := RemovedOwner(t, h, s);
      assert Owns(r.entries[i], s);
    }
  }

  /**
   Unloading a policy keeps the invariant exactly when its handle is not below staticmax, and
   is not handle 0 of a table whose highest handle is 0.  The code checks neither.
   */
  lemma UnregisterKeepsIff(t: Table, h: nat)
    requires Inv(t) && t.max < WORD && h < t.max && t.entries[h].Loaded? && t.entries[h].conf.unloadOk
    ensures Inv(Unregister(t, h).0) <==> t.staticmax <= h && !(h == 0 && t.maxindex == 0)
  {
    RemovedLoose(t, h);
    RemovedSlots(t, h);
    assert Removed(t, h).entries[h].Empty?;
  }

  /** Whatever the handle is, a removal keeps the rest exactly when handle 0 is not the highest one. */
  lemma UnregisterKeepsLooseIff(t: Table, h: nat)
    requires LooseInv(t) && t.max < WORD && h < t.max && t.entries[h].Loaded? && t.entries[h].conf.unloadOk
    ensures LooseInv(Unregister(t, h).0) <==> !(h == 0 && t.maxindex == 0)
  {
    RemovedLoose(t, h);
    RemovedSlots(t, h);
  }

  /** A removal is refused: the policy is registered and may not be unloaded. */
  predicate Refuses(e: Entry) { e.Loaded? && e.registered && !e.conf.unloadOk }

  /** What unregistering returns and changes, for every table and every loaded policy. */
  lemma UnregisterOutcome(t: Table, h: nat)
    requires h < |t.entries| && t.entries[h].Loaded?
    ensures var (t', error) := Unregister(t, h);
            && error == (if Refuses(t.entries[h]) then EBUSY else 0)
            && (Refuses(t.entries[h]) || !t.entries[h].registered ==> t' == t)
            && (t.entries[h].registered && t.entries[h].conf.unloadOk ==> Vacated(t, h, t'))
  {
  }

  /** Entry h is empty and its slot free, and nothing else is lost. */
  ghost predicate Vacated(t: Table, h: nat, t': Table)
    requires h < |t.entries| && t.entries[h].Loaded?
  {
    && |t'.entries| == |t.entries| && t'.entries[h].Empty?
    && (forall i :: 0 <= i < |t.entries| && i != h ==> t'.entries[i] == t.entries[i])
    && t'.numloaded == t.numloaded - 1
    && t'.max == t.max && t'.chunks == t.chunks && t'.staticmax == t.staticmax && t'.late == t.late
    && (h != t.maxindex ==> t'.maxindex == t.maxindex)
    && (h == t.maxindex && h > 0 ==> t'.maxindex == h - 1)
    && t'.freehint <= t.freehint && (h < t'.freehint ==> h < t.staticmax) && t'.freehint in {h, t.freehint}
    && |t'.slotsFree| == |t.slotsFree|
    && forall s :: 0 <= s < |t.slotsFree| ==>
         (t'.slotsFree[s] <==> t.slotsFree[s] || (t.entries[h].conf.wantsSlot && t.entries[h].slot == s))
  }

  // ---- Runs --------------------------------------------------------------------------------------

  datatype Op = Load(conf: Conf) | Unload(handle: nat) | EndBoot

  /** Unloading is legal for a loaded policy whose removal the table survives. */
  predicate Legal(t: Table, op: Op) {
    match op
    case Load(_) => true
    case EndBoot => true
    case Unload(h) => h < |t.entries| && t.entries[h].Loaded? && t.staticmax <= h && !(h == 0 && t.maxindex == 0)
  }

  ghost function Apply(t: Table, op: Op): Table
    requires Inv(t) && Legal(t, op)
  {
    match op
    case Load(conf) => Register(t, conf).0
    case Unload(h) => Unregister(t, h).0
    case EndBoot => t.(late := true)
  }

  lemma ApplyKeeps(t: Table, op: Op)
    requires Inv(t) && Legal(t, op)
    ensures Inv(Apply(t, op))
  {
    match op
    case Load(conf) => RegisterKeeps(t, conf);
    case EndBoot => SlotsOnly(t, t.(late := true));
    case Unload(h) =>
      if t.entries[h].conf.unloadOk {
        RemovedStays(t, h);
        RemovedSlots(t, h);
      }
  }

  lemma SlotsOnly(t: Table, t': Table)
    requires SlotsConserved(t) && t'.entries == t.entries && t'.slotsFree == t.slotsFree
    ensures SlotsConserved(t')
  {
  }

  lemma InitialInv()
    ensures Inv(InitialTable())
  {
    var t := InitialTable();
    EmptyTable(t.entries);
    AllSlotsFree(t);
  }

  lemma AllSlotsFree(t: Table)
    requires |t.slotsFree| == MAX_SLOTS && forall s :: 0 <= s < MAX_SLOTS ==> t.slotsFree[s]
    requires forall i :: 0 <= i < |t.entries| ==> t.entries[i].Empty?
    ensures SlotsConserved(t)
  {
  }

  lemma {:induction false} EmptyTable(entries: seq<Entry>)
    requires forall i :: 0 <= i < |entries| ==> entries[i].Empty?
    ensures Count(entries) == 0
    decreases |entries|
  {
    if entries != [] {
      EmptyTable(entries[..|entries| - 1]);
    }
  }

  /** The tables of a run, one for each prefix of its operations. */
  ghost predicate IsRun(run: seq<Table>, ops: seq<Op>) {
    IsRunOf(IsStep, run, ops) && run[0] == InitialTable()
  }

  ghost predicate IsStep(t: Table, op: Op, t': Table) {
    Inv(t) ==> Legal(t, op) && t' == Apply(t, op)
  }

  /** Every table of every run satisfies the invariant. */
  lemma RunKeeps(run: seq<Table>, ops: seq<Op>, i: nat)
    requires IsRun(run, ops) && i < |run|
    ensures Inv(run[i])
  {
    InitialInv();
    forall t, op, t' | IsStep(t, op, t') && Inv(t) ensures Inv(t') {
      ApplyKeeps(t, op);
    }
    KeptByRun(IsStep, Always, Inv, run, ops, i);
  }
}
