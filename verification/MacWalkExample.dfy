/** Two walks that miss a policy, from the first registration on. */
module MacWalkExample {
  import opened MacPolicyTable
  import opened MacChange
  import opened MacWalk
  import B = MacBusy
  import U = MacUnload
  import opened Runs

  const LATE_STATIC := Conf("new", false, false, false)

  /** One static policy, at 0, and one dynamic policy, at 2; handle 1 is free. */
  ghost predicate Start(t: Table) {
    && Inv(t) && t.late && t.max == CHUNK && t.numloaded == 2 && t.staticmax == 1 && t.maxindex == 2
    && t.entries[0].Loaded? && t.entries[1].Empty? && t.entries[2].Loaded?
    && CanPlace(t, LATE_STATIC, 1)
  }

  /** Three policies are loaded, the first one during boot, and the second one is unloaded. */
  lemma StartRun() returns (run: seq<Table>, ops: seq<Op>)
    ensures U.IsFreeRun(run, ops) && Start(run[|ops|])
  {
    run, ops := U.LoadedRun(1, 3);
    var t := run[|ops|];
    var t' := Removed(t, 1);
    RemovedKeeps(t, 1);
    StartPlace(t);
    U.LongerRun(run, ops, Unload(1), t');
    run, ops := run + [t'], ops + [Unload(1)];
  }

  lemma StartPlace(t: Table)
    requires U.Filled(t, 3) && t.staticmax == 1 && t.late
    ensures CanPlace(Removed(t, 1), LATE_STATIC, 1) && Removed(t, 1).maxindex == 2
  {
    forall i | 0 <= i < 3 ensures U.Numbered(i).name != LATE_STATIC.name {
      assert |LATE_STATIC.name| == 3 && |U.Numbered(i).name| == i;
    }
  }

  /** A walk of thread 0 from the initial state to x, during which the policy at 2 stays loaded. */
  ghost predicate Leads(run: seq<World>, moves: seq<Move>, t: Table, x: World) {
    && IsWalk(run, moves, 0) && Stays(run, |run|, 2)
    && B.Initial(run[0].s) && run[0].s.list == PolicyList(t, Quiet) && run[|moves|] == x
  }

  ghost predicate Reached(t: Table, x: World) { exists run, moves :: Leads(run, moves, t, x) }

  lemma Longer(run: seq<World>, moves: seq<Move>, t: Table, x: World, move: Move, x': World)
    requires Leads(run, moves, t, x) && WorldStep(x, 0, move, x') && HasPolicy(x'.s.list, 2)
    ensures Leads(run + [x'], moves + [move], t, x')
  {
    LongerRunOf(StepOf(0), run, moves, move, x');
  }

  lemma Next(t: Table, x: World, move: Move, x': World)
    requires Reached(t, x) && WorldStep(x, 0, move, x') && HasPolicy(x'.s.list, 2)
    ensures Reached(t, x')
  {
    var run, moves :| Leads(run, moves, t, x);
    Longer(run, moves, t, x, move, x');
  }

  /** Thread 0 is on its walk w, at `mine`; thread 1 is at `pc`, with the mutex from GrabTest on. */
  function Both(l: PolicyList, mine: B.Pc, w: Walk, pc: B.Pc): World {
    World(B.State(0, if B.Holds(pc) then B.Owner(1) else B.Nobody, [B.Thread(mine, 0), B.Thread(pc, 0)], l, false), w)
  }

  const FRESH := Walk(Test1, 0, [], Untested, false)

  lemma Begin(t: Table)
    requires Start(t)
    ensures Reached(t, Both(PolicyList(t, Quiet), B.Idle, FRESH, B.Idle))
  {
    var x := Both(PolicyList(t, Quiet), B.Idle, FRESH, B.Idle);
    B.InitialInv(x.s);
    assert Leads([x], [], t, x);
  }

  // ---- The other thread -------------------------------------------------------------------------------

  lemma Locking(l: PolicyList, mine: B.Pc, w: Walk, pc: B.Pc, pc': B.Pc)
    requires l.phase == Quiet
    requires (pc, pc') in {(B.Idle, B.GrabLock), (B.GrabLock, B.GrabTest), (B.GrabTest, B.Exclusive)}
    ensures WorldStep(Both(l, mine, w, pc), 0, Runs(1), Both(l, mine, w, pc'))
  {
  }

  /** Thread 1 gets exclusive access. */
  lemma Locked(t: Table, mine: B.Pc, w: Walk)
    requires Start(t) && Reached(t, Both(PolicyList(t, Quiet), mine, w, B.Idle))
    ensures Reached(t, Both(PolicyList(t, Quiet), mine, w, B.Exclusive))
  {
    var l := PolicyList(t, Quiet);
    Locking(l, mine, w, B.Idle, B.GrabLock);
    Next(t, Both(l, mine, w, B.Idle), Runs(1), Both(l, mine, w, B.GrabLock));
    Locking(l, mine, w, B.GrabLock, B.GrabTest);
    Next(t, Both(l, mine, w, B.GrabLock), Runs(1), Both(l, mine, w, B.GrabTest));
    Locking(l, mine, w, B.GrabTest, B.Exclusive);
    Next(t, Both(l, mine, w, B.GrabTest), Runs(1), Both(l, mine, w, B.Exclusive));
  }

  /** The list when k fields of the registration have been written. */
  ghost function Registering(t: Table, k: nat): PolicyList
    requires Start(t) && k <= 6
  {
    if k == 0 then PolicyList(t, Quiet) else Midway(Placing(t, LATE_STATIC, 1, k))
  }

  lemma Writing(t: Table, k: nat) returns (a: Action)
    requires Start(t) && k < 6
    ensures Can(Registering(t, k), a) && Changed(Registering(t, k), a) == Registering(t, k + 1)
    ensures HasPolicy(Registering(t, k + 1), 2)
  {
    a := if k == 0 then Place(LATE_STATIC, 1) else Continue;
  }

  /** And writes k fields of the registration. */
  lemma {:induction false} Written(t: Table, mine: B.Pc, w: Walk, k: nat)
    requires Start(t) && k <= 6 && Reached(t, Both(PolicyList(t, Quiet), mine, w, B.Exclusive))
    ensures Reached(t, Both(Registering(t, k), mine, w, B.Exclusive))
    decreases k
  {
    if k > 0 {
      Written(t, mine, w, k - 1);
      var a := Writing(t, k - 1);
      var l, l' := Registering(t, k - 1), Registering(t, k);
      Next(t, Both(l, mine, w, B.Exclusive), Edits(1, a), Both(l', mine, w, B.Exclusive));
    }
  }

  // ---- The walk -----------------------------------------------------------------------------------------

  /** The first loop reads the place at i. */
  lemma ReadOne(t: Table, l: PolicyList, w: Walk, pc: B.Pc)
    requires Reached(t, Both(l, B.Idle, w, pc)) && HasPolicy(l, 2) && w.at == Test1 && w.i < l.table.staticmax
    ensures Reached(t, Both(l, B.Idle, Read(w, l, Test1), pc))
  {
    var x, y := Both(l, B.Idle, w, pc), Both(l, B.Idle, w.(at := Read1), pc);
    Next(t, x, Walks, y);
    Next(t, y, Walks, Both(l, B.Idle, Read(w, l, Test1), pc));
  }

  /** The first loop ends, and the test loads numloaded. */
  lemma Counted(t: Table, l: PolicyList, w: Walk, pc: B.Pc)
    requires Reached(t, Both(l, B.Idle, w, pc)) && HasPolicy(l, 2) && w.at == Test1 && w.i >= l.table.staticmax
    ensures Reached(t, Both(l, B.CondHasNum(l.table.numloaded), w.(at := Ask, test := NumSeen(l)), pc))
  {
    var x, y := Both(l, B.Idle, w, pc), Both(l, B.CondPeek, w.(at := Ask), pc);
    Next(t, x, Walks, y);
    Next(t, y, Walks, Both(l, B.CondHasNum(l.table.numloaded), w.(at := Ask, test := NumSeen(l)), pc));
  }

  /** The test loads staticmax, finds no dynamic policies, and the walk is over. */
  lemma Ended(t: Table, l: PolicyList, n: int, w: Walk, pc: B.Pc)
    requires Reached(t, Both(l, B.CondHasNum(n), w, pc)) && HasPolicy(l, 2)
    requires w.at == Ask && w.test.NumSeen? && n == w.test.nums.table.numloaded <= l.table.staticmax
    ensures Reached(t, Both(l, B.Idle, w.(at := Over, test := Tested(w.test.nums, l)), pc))
  {
    Next(t, Both(l, B.CondHasNum(n), w, pc), Walks,
         Both(l, B.Idle, w.(at := Over, test := Tested(w.test.nums, l)), pc));
  }

  // ---- Together -------------------------------------------------------------------------------------------

  /** The walk is over, the policy at 2 was not visited, and these are the lists of the test. */
  predicate Misses(w: Walk, nums: PolicyList, stats: PolicyList) {
    w.at == Over && 2 !in w.visited && w.test == Tested(nums, stats)
  }

  /** The first loop goes over both static places while the registration is between its counters. */
  lemma FirstLoop(t: Table)
    requires Start(t)
    ensures Reached(t, Both(Registering(t, 3), B.Idle, Walk(Test1, 2, [0], Untested, false), B.Exclusive))
  {
    var l := Registering(t, 3);
    Begin(t);
    Locked(t, B.Idle, FRESH);
    Written(t, B.Idle, FRESH, 3);
    ReadOne(t, l, FRESH, B.Exclusive);
    assert Read(FRESH, l, Test1) == Walk(Test1, 1, [0], Untested, false);
    ReadOne(t, l, Walk(Test1, 1, [0], Untested, false), B.Exclusive);
  }

  /** And so the whole test falls between them. */
  lemma BetweenCounters(t: Table) returns (x: World)
    requires Start(t)
    ensures Reached(t, x) && Misses(x.w, Registering(t, 3), Registering(t, 3))
  {
    var l := Registering(t, 3);
    FirstLoop(t);
    Counted(t, l, Walk(Test1, 2, [0], Untested, false), B.Exclusive);
    Ended(t, l, 2, Walk(Ask, 2, [0], NumSeen(l), false), B.Exclusive);
    x := Both(l, B.Idle, Walk(Over, 2, [0], Tested(l, l), false), B.Exclusive);
  }

  /** A whole registration falls between the two loads of the test, and no change is under way at either. */
  lemma BetweenLoads(t: Table) returns (x: World)
    requires Start(t)
    ensures Reached(t, x) && Misses(x.w, Registering(t, 0), Registering(t, 6))
  {
    var l, l' := Registering(t, 0), Registering(t, 6);
    var w := Walk(Ask, 1, [0], NumSeen(l), false);
    Begin(t);
    ReadOne(t, l, FRESH, B.Idle);
    assert Read(FRESH, l, Test1) == Walk(Test1, 1, [0], Untested, false);
    Counted(t, l, Walk(Test1, 1, [0], Untested, false), B.Idle);
    Locked(t, B.CondHasNum(2), w);
    Written(t, B.CondHasNum(2), w, 6);
    Ended(t, l', 2, w, B.Exclusive);
    x := Both(l', B.Idle, Walk(Over, 1, [0], Tested(l, l'), false), B.Exclusive);
  }

  /**
   From the first registration on: two walks that miss a loaded policy, one with its test between the
   counters of a registration and one with a whole registration between the loads of its test.
   */
  lemma MissExamples() returns (tables: seq<Table>, ops: seq<Op>, x: World, y: World)
    ensures U.IsFreeRun(tables, ops) && Reached(tables[|ops|], x) && Reached(tables[|ops|], y)
    ensures x.w.test.Tested? && Misses(x.w, x.w.test.nums, x.w.test.nums) && RaisingStatic(x.w.test.nums)
    ensures y.w.test.Tested? && Misses(y.w, y.w.test.nums, y.w.test.stats)
    ensures y.w.test.nums.phase == Quiet && y.w.test.stats.phase == Quiet
  {
    tables, ops := StartRun();
    x := BetweenCounters(tables[|ops|]);
    y := BetweenLoads(tables[|ops|]);
  }
}
