/**
 What follows when the framework unloads a policy that the invariant of the table does not allow for:
 one below staticmax, or handle 0 as the highest one.  The code checks for neither.
 */
module MacUnload {
  import opened Bytes
  import opened MacPolicyTable
  import opened MacPolicyList
  import opened Runs

  // ---- Any policy at all ------------------------------------------------------------------------

  /** No policy is loaded at or above staticmax. */
  ghost predicate NoDynamic(t: Table) { forall i :: 0 <= i < |t.entries| && t.staticmax <= i ==> t.entries[i].Empty? }

  /**
   In every table that registrations and removals lead to, the two loops visit all loaded policies
   exactly when the second one runs or has nothing to visit.
   */
  lemma VisitsAllIff(t: Table)
    requires Loose(t)
    ensures Visited(t) == LoadedIn(t.entries, 0, |t.entries|) <==> t.numloaded > t.staticmax || NoDynamic(t)
  {
    var n, m := |t.entries|, t.staticmax;
    LoadedSplit(t.entries, 0, m, n);
    LoadedEmptyIff(t.entries, m, n);
    SecondLoop(t);
  }

  lemma LoadedEmptyIff(entries: seq<Entry>, lo: int, hi: int)
    requires 0 <= lo && hi <= |entries|
    ensures LoadedIn(entries, lo, hi) == [] <==> forall i :: lo <= i < hi ==> entries[i].Empty?
  {
    if forall i :: lo <= i < hi ==> entries[i].Empty? {
      LoadedNone(entries, lo, hi);
    } else {
      var i :| lo <= i < hi && entries[i].Loaded?;
      LoadedMember(entries, lo, hi, i);
    }
  }

  /** The second loop, if it runs, visits what is loaded from staticmax on. */
  lemma SecondLoop(t: Table)
    requires Loose(t)
    ensures LoadedIn(t.entries, t.staticmax, t.maxindex + 1) == LoadedIn(t.entries, t.staticmax, |t.entries|)
  {
    var n, m, e := |t.entries|, t.staticmax, t.maxindex + 1;
    if m <= e {
      LoadedSplit(t.entries, m, e, n);
      LoadedNone(t.entries, e, n);
    } else {
      LoadedNone(t.entries, m, n);
    }
  }

  /** Registration gets as far as the search for a place. */
  ghost predicate Admitted(t: Table, conf: Conf) {
    && !(t.late && conf.notLate)
    && !NameTaken(Grown(t), conf.name)
    && (conf.wantsSlot ==> LowestSlot(t.slotsFree, 0) < |t.slotsFree|)
  }

  /**
   In every such table the search for a place fails exactly when there are free places, but all of
   them below staticmax.
   */
  lemma NoPlaceIff(t: Table, conf: Conf)
    requires Loose(t) && Admitted(t, conf)
    ensures Register(t, conf).1 == Undefined
            <==> t.numloaded < t.max && forall i :: t.staticmax <= i < t.max ==> t.entries[i].Loaded?
  {
    GrownLoose(t);
    if t.numloaded < t.max {
      var h := FirstFree(t.entries, t.freehint);
      assert h < t.max ==> t.entries[h].Empty?;
    } else {
      assert Grown(t).entries[t.max].Empty?;
    }
  }

  /** A step of a run in which any policy may be unloaded, but not handle 0 as the highest one. */
  ghost predicate IsFreeStep(t: Table, op: Op, t': Table) {
    LooseInv(t) ==>
      match op
      case Load(conf) => Register(t, conf).1 != Undefined && t' == Register(t, conf).0
      case EndBoot => t' == t.(late := true)
      case Unload(h) =>
        && h < |t.entries| && t.entries[h].Loaded? && !(h == 0 && t.maxindex == 0) && t.max < WORD
        && t' == Unregister(t, h).0
  }

  ghost predicate IsFreeRun(run: seq<Table>, ops: seq<Op>) {
    IsRunOf(IsFreeStep, run, ops) && run[0] == InitialTable()
  }

  /** Every table of such a run is one that the two lemmas speak of. */
  lemma FreeRunKeeps(run: seq<Table>, ops: seq<Op>, i: nat)
    requires IsFreeRun(run, ops) && i < |run|
    ensures LooseInv(run[i])
  {
    InitialInv();
    forall t, op, t' | IsFreeStep(t, op, t') && LooseInv(t) ensures LooseInv(t') {
      FreeStepKeeps(t, op, t');
    }
    KeptByRun(IsFreeStep, Always, LooseInv, run, ops, i);
  }

  lemma FreeStepKeeps(t: Table, op: Op, t': Table)
    requires IsFreeStep(t, op, t') && LooseInv(t)
    ensures LooseInv(t')
  {
    match op
    case Load(conf) => RegisterKeepsLoose(t, conf);
    case EndBoot => SlotsOnly(t, t');
    case Unload(h) => if t.entries[h].conf.unloadOk { UnregisterKeepsLooseIff(t, h); }
  }

  // ---- The first policy below staticmax -----------------------------------------------------------

  /**
   From a table with all static policies: after one of them is unloaded, a dynamic policy is still
   visited exactly when at least one more is loaded.
   */
  lemma StaticUnloadMisses(t: Table, h: nat, d: nat)
    requires Inv(t) && h < t.staticmax <= d < t.max && t.entries[h].Loaded? && t.entries[h].conf.unloadOk
    requires t.entries[d].Loaded?
    ensures var t' := Unregister(t, h).0;
            t'.entries[d] == t.entries[d] && Walkable(t') && (d in Visited(t') <==> t.numloaded > t.staticmax + 1)
  {
    var t' := Unregister(t, h).0;
    assert t.maxindex >= d && t'.maxindex == t.maxindex;
    WalkMember(t', d);
  }

  /** What the two loops visit at or above staticmax. */
  lemma WalkMember(t: Table, d: nat)
    requires Walkable(t) && t.staticmax <= d <= t.maxindex && t.entries[d].Loaded?
    ensures d in Visited(t) <==> t.numloaded > t.staticmax
  {
    LoadedMember(t.entries, 0, t.staticmax, d);
    LoadedMember(t.entries, t.staticmax, t.maxindex + 1, d);
  }

  /** And the search for a place fails exactly when the table was full. */
  lemma StaticUnloadHidesPlace(t: Table, h: nat, conf: Conf)
    requires Inv(t) && h < t.staticmax && t.entries[h].Loaded? && t.entries[h].conf.unloadOk
    requires Admitted(Unregister(t, h).0, conf)
    ensures Register(Unregister(t, h).0, conf).1 == Undefined <==> t.numloaded == t.max
  {
    var t' := Unregister(t, h).0;
    CountAll(t.entries);
    var f := FirstFree(t'.entries, t'.freehint);
    if t.numloaded == t.max {
      assert forall i :: t'.freehint <= i < |t'.entries| ==> t'.entries[i].Loaded?;
    } else {
      var i :| 0 <= i < |t.entries| && t.entries[i].Empty?;
      assert t'.entries[i].Empty? && t'.freehint <= i;
    }
  }

  // ---- Handle 0 -------------------------------------------------------------------------------------

  /** The loop that compares names (lines 678-688) finds none in the table and goes on past its end. */
  ghost predicate SearchOverruns(t: Table, name: string) { !NameTaken(t, name) && t.maxindex >= |t.entries| }

  /**
   After a removal the next search for a name overruns, whatever the name, exactly when handle 0 was
   removed as the highest one; the walk over the policies then stays inside.
   */
  lemma HandleZeroWraps(t: Table, h: nat, name: string)
    requires Loose(t) && t.max < WORD && h < t.max && t.entries[h].Loaded? && t.entries[h].conf.unloadOk
    ensures var t' := Unregister(t, h).0;
            && (SearchOverruns(Grown(t'), name) <==> h == 0 && t.maxindex == 0)
            && (t'.numloaded > t'.staticmax ==> t'.maxindex < |t'.entries|)
  {
    var t' := Unregister(t, h).0;
    if h == 0 && t.maxindex == 0 {
      assert forall i :: 0 <= i < |t'.entries| ==> t'.entries[i].Empty?;
      EmptyTable(t'.entries);
      CountUpdate(t.entries, 0, Empty);
    }
  }

  // ---- Runs that get there ------------------------------------------------------------------------

  /** A policy with a name of n letters, which may be unloaded. */
  function Numbered(n: nat): Conf { Conf(seq(n, _ => 'x'), false, true, false) }

  /** The first n places hold the first n such policies, and nothing else is loaded. */
  ghost predicate Filled(t: Table, n: nat) {
    && Inv(t) && t.max == CHUNK && n <= CHUNK && t.numloaded == n && t.maxindex == (if n == 0 then 0 else n - 1)
    && forall i :: 0 <= i < n ==> t.entries[i].Loaded? && t.entries[i].conf == Numbered(i)
  }

  lemma FillOne(t: Table, n: nat)
    requires Filled(t, n) && n < CHUNK
    ensures Register(t, Numbered(n)) == (Placed(t, Numbered(n), n), Done(n))
    ensures Filled(Placed(t, Numbered(n), n), n + 1)
  {
    forall i | 0 <= i < n ensures Numbered(i).name != Numbered(n).name {
      assert |Numbered(i).name| == i;
    }
    CountPrefix(t.entries, n);
    var h := FirstFree(t.entries, t.freehint);
    assert t.entries[n].Empty? && t.freehint <= n && h == n;
    RegisterKeeps(t, Numbered(n));
  }

  lemma LongerRun(run: seq<Table>, ops: seq<Op>, op: Op, t: Table)
    requires IsFreeRun(run, ops) && IsFreeStep(run[|ops|], op, t)
    ensures IsFreeRun(run + [t], ops + [op])
  {
    LongerRunOf(IsFreeStep, run, ops, op, t);
  }

  /** A run with one more such policy. */
  lemma LoadMore(run: seq<Table>, ops: seq<Op>, n: nat) returns (run': seq<Table>, ops': seq<Op>)
    requires IsFreeRun(run, ops) && Filled(run[|ops|], n) && n < CHUNK
    ensures IsFreeRun(run', ops')
    ensures var t, t' := run[|ops|], run'[|ops'|];
            Filled(t', n + 1) && t'.late == t.late && t'.staticmax == t.staticmax + if t.late then 0 else 1
  {
    var t, conf := run[|ops|], Numbered(n);
    FillOne(t, n);
    LongerRun(run, ops, Load(conf), Placed(t, conf, n));
    run', ops' := run + [Placed(t, conf, n)], ops + [Load(conf)];
  }

  /** A run that loads n policies, the first `boot` of them during boot. */
  lemma {:induction false} LoadedRun(boot: nat, n: nat) returns (run: seq<Table>, ops: seq<Op>)
    requires boot <= n <= CHUNK
    ensures IsFreeRun(run, ops)
    ensures var t := run[|ops|];
            Filled(t, n) && t.staticmax == boot && t.late == (n > boot)
    decreases n
  {
    if n == 0 {
      run, ops := [InitialTable()], [];
      InitialInv();
    } else {
      run, ops := LoadedRun(if boot < n then boot else n - 1, n - 1);
      if n - 1 == boot {
        run, ops := BootEnded(run, ops, n - 1);
      }
      run, ops := LoadMore(run, ops, n - 1);
    }
  }

  lemma BootEnded(run: seq<Table>, ops: seq<Op>, n: nat) returns (run': seq<Table>, ops': seq<Op>)
    requires IsFreeRun(run, ops) && Filled(run[|ops|], n)
    ensures IsFreeRun(run', ops') && run'[|ops'|] == run[|ops|].(late := true) && Filled(run'[|ops'|], n)
  {
    var t := run[|ops|];
    var e := t.(late := true);
    SlotsOnly(t, e);
    LongerRun(run, ops, EndBoot, e);
    run', ops' := run + [e], ops + [EndBoot];
  }

  /** One static and one dynamic policy, the static one unloaded: the walk misses the other. */
  lemma StaticUnloadExample() returns (run: seq<Table>, ops: seq<Op>)
    ensures IsFreeRun(run, ops) && LooseInv(run[|ops|])
    ensures var t := run[|ops|]; t.entries[1].Loaded? && 1 !in Visited(t)
  {
    run, ops := LoadedRun(1, 2);
    var t := run[|ops|];
    var t' := Unregister(t, 0).0;
    StaticUnloadMisses(t, 0, 1);
    LongerRun(run, ops, Unload(0), t');
    run, ops := run + [t'], ops + [Unload(0)];
    FreeRunKeeps(run, ops, |ops|);
  }

  /** Two static and two dynamic policies, both static ones unloaded: the walk misses both others. */
  lemma TwoUnloadsExample() returns (run: seq<Table>, ops: seq<Op>)
    ensures IsFreeRun(run, ops) && LooseInv(run[|ops|])
    ensures var t := run[|ops|];
            t.entries[2].Loaded? && t.entries[3].Loaded? && 2 !in Visited(t) && 3 !in Visited(t)
  {
    run, ops := LoadedRun(2, 4);
    var t := run[|ops|];
    var t' := Unregister(t, 0).0;
    var t'' := Unregister(t', 1).0;
    LongerRun(run, ops, Unload(0), t');
    run, ops := run + [t'], ops + [Unload(0)];
    LongerRun(run, ops, Unload(1), t'');
    run, ops := run + [t''], ops + [Unload(1)];
    FreeRunKeeps(run, ops, |ops|);
    LoadedMember(t''.entries, 0, 2, 2);
    LoadedMember(t''.entries, 0, 2, 3);
  }

  /** Eight static policies, the first one unloaded: the next registration finds no place. */
  lemma StaticUnloadFullExample() returns (run: seq<Table>, ops: seq<Op>)
    ensures IsFreeRun(run, ops) && LooseInv(run[|ops|])
    ensures run[|ops|].numloaded < run[|ops|].max && Register(run[|ops|], Numbered(CHUNK)).1 == Undefined
  {
    run, ops := LoadedRun(CHUNK, CHUNK);
    var t := run[|ops|];
    var t' := Unregister(t, 0).0;
    LongerRun(run, ops, Unload(0), t');
    run, ops := run + [t'], ops + [Unload(0)];
    FreeRunKeeps(run, ops, |ops|);
    forall i | 0 <= i < CHUNK ensures Numbered(i).name != Numbered(CHUNK).name {
      assert |Numbered(i).name| == i;
    }
    NoPlaceIff(t', Numbered(CHUNK));
  }

  /** Handle 0 is the highest one after the first registration. */
  lemma HandleZeroExample(name: string) returns (run: seq<Table>, ops: seq<Op>)
    ensures IsFreeRun(run, ops) && Inv(run[|ops|]) && run[|ops|].entries[0].Loaded?
    ensures SearchOverruns(Grown(Unregister(run[|ops|], 0).0), name)
  {
    run, ops := LoadedRun(1, 1);
    var t := run[|ops|];
    CountPrefix(t.entries, 1);
    HandleZeroWraps(t, 0, name);
  }
}
