/**
 MAC_POLICY_ITERATE while other threads register and unregister policies.  The first loop of the walk
 holds nothing and reads a list that may be changing, and so does the test that follows it; the second
 loop holds a reference.
 */
module MacWalk {
  import MacPolicyList
  import opened MacChange
  import opened MacBusy
  import opened Runs

  /** Where the walk stands: testing the bound of a loop, reading an entry, or asking for a reference. */
  datatype Point = Test1 | Read1 | Ask | Test2 | Read2 | Over

  /** The lists from which the unlocked test has loaded numloaded and staticmax. */
  datatype Test = Untested | NumSeen(nums: PolicyList) | StaticSeen(stats: PolicyList)
                | Tested(nums: PolicyList, stats: PolicyList)
  {
    predicate HasNums() { NumSeen? || Tested? }

    predicate HasStats() { StaticSeen? || Tested? }
  }

  /** `skip` is the answer of the test under the mutex. */
  datatype Walk = Walk(at: Point, i: nat, visited: seq<int>, test: Test, skip: bool)

  datatype World = World(s: State, w: Walk)

  /** One entry is read, and its policy visited. */
  function Read(w: Walk, l: PolicyList, next: Point): Walk {
    var found := w.i < |l.table.entries| && l.table.entries[w.i].Loaded?;
    w.(at := next, i := w.i + 1, visited := if found then w.visited + [w.i] else w.visited)
  }

  predicate HasDynamic(l: PolicyList) { l.table.numloaded > l.table.staticmax }

  /** The unlocked test finds no dynamic policies. */
  predicate Denies(nums: PolicyList, stats: PolicyList) { nums.table.numloaded <= stats.table.staticmax }

  /** Both counters are loaded: the walk ends or goes on to take the mutex. */
  function Judged(w: Walk, nums: PolicyList, stats: PolicyList): Walk {
    w.(test := Tested(nums, stats), at := if Denies(nums, stats) then Over else Ask)
  }

  /** A step of mac_policy_list_conditional_busy, which is that of `MacBusy`. */
  ghost predicate Asking(x: World, t: nat, x': World)
    requires t < |x.s.threads|
  {
    var s, w, l := x.s, x.w, x.s.list;
    match x.s.threads[t].pc
    case CondPeek =>
      || x' == World(At(s, t, CondHasNum(l.table.numloaded)), w.(test := NumSeen(l)))
      || x' == World(At(s, t, CondHasStatic(l.table.staticmax)), w.(test := StaticSeen(l)))
    case CondHasNum(_) => w.test.NumSeen? && x' == World(Act(s, t), Judged(w, w.test.nums, l))
    case CondHasStatic(_) => w.test.StaticSeen? && x' == World(Act(s, t), Judged(w, l, w.test.stats))
    case CondLock => s.mutex == Nobody && x' == World(Act(s, t), w)
    case CondTest => x' == World(Act(s, t), w.(skip := !HasDynamic(l)))
    case CondUnlock => x' == World(Act(s, t), w.(at := if w.skip then Over else Test2))
    case _ => false
  }

  /** The next step of thread t on its walk. */
  ghost predicate Mine(x: World, t: nat, x': World)
    requires t < |x.s.threads|
  {
    var w, l := x.w, x.s.list;
    match w.at
    case Test1 =>
      if w.i < l.table.staticmax then x' == x.(w := w.(at := Read1))
      else x' == World(At(x.s, t, CondPeek), w.(at := Ask))
    case Read1 => x' == x.(w := Read(w, l, Test1))
    case Ask => Asking(x, t, x')
    case Test2 => x' == x.(w := w.(at := if w.i <= l.table.maxindex then Read2 else Over))
    case Read2 => x' == x.(w := Read(w, l, Test2))
    case Over => false
  }

  /** Thread t walks; thread u takes a step of the protocol, or changes the list while it is exclusive. */
  datatype Move = Walks | Runs(u: nat) | Edits(u: nat, action: Action)

  ghost predicate WorldStep(x: World, t: nat, move: Move, x': World) {
    && t < |x.s.threads| && !x.s.panicked
    && match move
       case Walks => Mine(x, t, x')
       case Runs(u) =>
         && u != t && Step(x.s, u, x'.s) && x'.s.list == x.s.list && x'.w == x.w
         // A change is finished before the list is released.
         && (x.s.threads[u].pc == Exclusive ==> x.s.list.phase == Quiet)
       case Edits(u, action) =>
         && u != t && u < |x.s.threads| && x.s.threads[u].pc == Exclusive && Can(x.s.list, action)
         && x' == x.(s := x.s.(list := Changed(x.s.list, action)))
  }

  // ---- The invariant --------------------------------------------------------------------------------

  /** Only the owner of the mutex, being exclusive, is in the middle of a change. */
  ghost predicate EditorExclusive(s: State, t: nat) {
    s.list.phase != Quiet ==>
      && s.mutex.Owner? && s.mutex.thread < |s.threads| && s.mutex.thread != t
      && s.threads[s.mutex.thread].pc == Exclusive
  }

  /** The unlocked test did not end the walk. */
  predicate Passed(w: Walk) { w.test.Tested? && !Denies(w.test.nums, w.test.stats) }

  /** The walking thread is inside mac_policy_list_conditional_busy. */
  predicate AskOk(w: Walk, th: Thread) {
    match th.pc
    case CondPeek => w.test == Untested && !w.skip
    case CondHasNum(n) => w.test.NumSeen? && n == w.test.nums.table.numloaded && !w.skip
    case CondHasStatic(m) =>
      w.test.StaticSeen? && m == w.test.stats.table.staticmax && w.i <= m && !w.skip
    case CondLock => Passed(w) && !w.skip
    case CondTest => Passed(w) && !w.skip
    case CondUnlock => Passed(w) && (!w.skip ==> th.refs > 0)
    case _ => false
  }

  /** The walking thread is where its walk is, and has its reference in the second loop. */
  predicate WalkerOk(x: World, t: nat)
    requires t < |x.s.threads|
  {
    var th, w := x.s.threads[t], x.w;
    match w.at
    case Test1 => th.pc == Idle && w.test == Untested && !w.skip && w.i <= x.s.list.table.staticmax
    case Read1 => th.pc == Idle && w.test == Untested && !w.skip && w.i < x.s.list.table.staticmax
    case Ask => AskOk(w, th) && w.i <= x.s.list.table.staticmax
    case Test2 => th.pc == Idle && th.refs > 0 && Passed(w)
    case Read2 => th.pc == Idle && th.refs > 0 && Passed(w) && w.i <= x.s.list.table.maxindex
    case Over => w.test.Tested?
  }

  /** The walk's own record of what it has visited, and of the list it has counted. */
  ghost predicate Recorded(w: Walk) {
    && MacPolicyList.Rising(w.visited) && (forall v :: v in w.visited ==> v < w.i)
    && (w.test.HasNums() ==> ListInv(w.test.nums))
  }

  ghost predicate WorldInv(x: World, t: nat) {
    && Inv(x.s) && ListInv(x.s.list)
    && t < |x.s.threads| && EditorExclusive(x.s, t) && WalkerOk(x, t) && Recorded(x.w)
  }

  lemma NobodyExclusive(s: State, t: nat, u: nat)
    requires Inv(s) && t < |s.threads| && u < |s.threads| && s.threads[u].pc == Exclusive
    ensures s.threads[t].refs == 0
  {
    assert ThreadOk(s, u);
    RefsAtLeast(s.threads, t);
  }

  /** While a thread holds a reference, the list is not being changed. */
  lemma ReferenceMeansQuiet(s: State, t: nat)
    requires Inv(s) && t < |s.threads| && s.threads[t].refs > 0 && EditorExclusive(s, t)
    ensures s.list.phase == Quiet
  {
    if s.list.phase != Quiet {
      NobodyExclusive(s, t, s.mutex.thread);
    }
  }

  /** Nor while the walking thread holds the mutex. */
  lemma MutexMeansQuiet(s: State, t: nat)
    requires Inv(s) && t < |s.threads| && Holds(s.threads[t].pc) && EditorExclusive(s, t)
    ensures s.list.phase == Quiet
  {
    assert ThreadOk(s, t);
  }

  /** A change of the list by a thread that is exclusive. */
  lemma EditKeeps(x: World, t: nat, u: nat, a: Action, x': World)
    requires WorldInv(x, t) && WorldStep(x, t, Edits(u, a), x')
    ensures EditorExclusive(x'.s, t) && WalkerOk(x', t)
  {
    StaticGrows(x.s.list, a);
    NobodyExclusive(x.s, t, u);
    assert ThreadOk(x.s, u);
  }

  /** Nobody takes the mutex from the thread that is changing the list. */
  lemma EditorStays(x: World, t: nat, u: nat, s': State)
    requires WorldInv(x, t) && Step(x.s, u, s') && s'.list == x.s.list && |s'.threads| == |x.s.threads|
    requires x.s.list.phase != Quiet ==> x.s.mutex != Owner(u)
    ensures EditorExclusive(s', t)
  {
    if x.s.list.phase != Quiet {
      MutexProtects(x.s, u, s');
      OtherThread(x.s, u, s', x.s.mutex.thread);
    }
  }

  lemma OthersKeep(x: World, t: nat, u: nat, x': World)
    requires WorldInv(x, t) && WorldStep(x, t, Runs(u), x') && |x'.s.threads| == |x.s.threads|
    ensures EditorExclusive(x'.s, t) && WalkerOk(x', t)
  {
    OtherThread(x.s, u, x'.s, t);
    EditorStays(x, t, u, x'.s);
  }

  lemma ReadKeeps(w: Walk, l: PolicyList, next: Point)
    requires Recorded(w)
    ensures Recorded(Read(w, l, next))
  {
    forall k | 0 <= k < |w.visited| ensures w.visited[k] < w.i {
      assert w.visited[k] in w.visited;
    }
  }

  /** A step of the walk calls mac_policy_list_conditional_busy or is part of it. */
  predicate Asks(x: World, x': World) { x.w.at == Ask || (x.w.at == Test1 && x'.w.at == Ask) }

  /** A step inside one of the two loops. */
  lemma LoopKeeps(x: World, t: nat, x': World)
    requires WorldInv(x, t) && WorldStep(x, t, Walks, x') && !Asks(x, x')
    ensures x'.s == x.s && WalkerOk(x', t) && Recorded(x'.w)
  {
    ReadKeeps(x.w, x.s.list, x'.w.at);
  }

  lemma AskIsStep(x: World, t: nat, x': World)
    requires t < |x.s.threads| && !x.s.panicked && WalkerOk(x, t) && Mine(x, t, x') && Asks(x, x')
    ensures Step(x.s, t, x'.s)
  {
    var pc := x.s.threads[t].pc;
    if x.w.at == Test1 {
      assert x'.s == At(x.s, t, CondPeek);
    } else if pc != CondPeek {
      assert x'.s == Act(x.s, t) && (Waits(pc) ==> x.s.mutex == Nobody);
    }
  }

  lemma AskKeepsList(x: World, t: nat, x': World)
    requires t < |x.s.threads| && Mine(x, t, x') && Asks(x, x')
    ensures x'.s.list == x.s.list && |x'.s.threads| == |x.s.threads|
  {
  }

  /** What a step of the walker inside the call needs to know. */
  ghost predicate Within(x: World, t: nat, x': World) {
    t < |x.s.threads| == |x'.s.threads| && x.w.at == Ask && WalkerOk(x, t) && Asking(x, t, x')
  }

  lemma LoadKeeps(x: World, t: nat, x': World)
    requires Within(x, t, x')
    requires x.s.threads[t].pc == CondPeek || x.s.threads[t].pc.CondHasNum? || x.s.threads[t].pc.CondHasStatic?
    ensures WalkerOk(x', t)
  {
  }

  lemma LockKeeps(x: World, t: nat, x': World)
    requires Within(x, t, x') && x.s.threads[t].pc in {CondLock, CondTest}
    ensures WalkerOk(x', t)
  {
  }

  lemma UnlockKeeps(x: World, t: nat, x': World)
    requires Within(x, t, x') && x.s.threads[t].pc == CondUnlock
    ensures WalkerOk(x', t)
  {
  }

  lemma AskKeeps(x: World, t: nat, x': World)
    requires t < |x.s.threads| == |x'.s.threads| && WalkerOk(x, t) && Mine(x, t, x') && Asks(x, x')
    ensures WalkerOk(x', t)
  {
    if x.w.at == Ask {
      match x.s.threads[t].pc
      case CondLock => LockKeeps(x, t, x');
      case CondTest => LockKeeps(x, t, x');
      case CondUnlock => UnlockKeeps(x, t, x');
      case _ => LoadKeeps(x, t, x');
    }
  }

  /** The test loads from the list as it is. */
  lemma TestLoads(x: World, t: nat, move: Move, x': World)
    requires WorldStep(x, t, move, x')
    ensures var test, test' := x.w.test, x'.w.test;
            && (test'.HasNums() ==> test'.nums == x.s.list || (test.HasNums() && test'.nums == test.nums))
            && (test'.HasStats() ==> test'.stats == x.s.list || (test.HasStats() && test'.stats == test.stats))
  {
  }

  lemma AskRecords(x: World, t: nat, x': World)
    requires ListInv(x.s.list) && Recorded(x.w) && WorldStep(x, t, Walks, x') && Asks(x, x')
    ensures Recorded(x'.w)
  {
    TestLoads(x, t, Walks, x');
    assert x'.w.visited == x.w.visited && x'.w.i == x.w.i;
  }

  /** Every step of the walk, of the protocol and of a change keeps the invariant. */
  lemma WorldStepInv(x: World, t: nat, move: Move, x': World)
    requires WorldInv(x, t) && WorldStep(x, t, move, x')
    ensures WorldInv(x', t)
  {
    match move
    case Edits(u, a) =>
      ChangeKeeps(x.s.list, a);
      StepInv(x.s, u, x'.s);
      EditKeeps(x, t, u, a, x');
    case Runs(u) =>
      StepInv(x.s, u, x'.s);
      StepBounds(x.s, u, x'.s);
      OthersKeep(x, t, u, x');
    case Walks =>
      if Asks(x, x') {
        AskIsStep(x, t, x');
        AskKeepsList(x, t, x');
        StepInv(x.s, t, x'.s);
        AskKeeps(x, t, x');
        AskRecords(x, t, x');
        EditorStays(x, t, t, x'.s);
      } else {
        LoopKeeps(x, t, x');
      }
  }

  // ---- One policy on the walk -------------------------------------------------------------------------

  /** The unlocked test ended the walk before it came to h. */
  predicate Missed(test: Test, h: nat) {
    test.Tested? && test.stats.table.staticmax <= h && Denies(test.nums, test.stats)
  }

  /** The policy at h is in the list that was counted, and is dynamic if the walk has not come to it. */
  predicate TestSees(w: Walk, h: nat) {
    && (w.test.HasNums() ==> HasPolicy(w.test.nums, h))
    && (w.test.HasStats() && w.i <= h ==> w.test.stats.table.staticmax <= h)
  }

  /**
   What the walk has to do with the policy at h: it has visited it once it has come past it, and after
   the first loop a policy it has not come to is not a static one.
   */
  predicate Sees(x: World, h: nat) {
    var w := x.w;
    && TestSees(w, h)
    && (w.at != Over ==> (h in w.visited <==> h < w.i))
    && (w.at in {Ask, Test2, Read2} && w.i <= h ==> x.s.list.table.staticmax <= h)
    && (w.at == Ask && w.i <= h ==> !w.skip)
    && (w.at == Over ==> (h !in w.visited <==> Missed(w.test, h)))
  }

  lemma SeesEdit(x: World, t: nat, u: nat, a: Action, x': World, h: nat)
    requires WorldInv(x, t) && WorldStep(x, t, Edits(u, a), x') && Sees(x, h) && HasPolicy(x.s.list, h)
    ensures Sees(x', h)
  {
    if x.s.list.table.staticmax <= h {
      StaticPassesNone(x.s.list, a, h);
    }
  }

  /** Both loops read inside the table, the first one also while it is being changed. */
  lemma ReadsInside(x: World, t: nat)
    requires WorldInv(x, t) && x.w.at in {Read1, Read2}
    ensures x.w.i < |x.s.list.table.entries|
  {
    BoundsKept(x.s.list);
  }

  /** The second loop comes past every policy. */
  lemma LoopsReachAll(s: State, t: nat, h: nat)
    requires Inv(s) && ListInv(s.list) && t < |s.threads| && s.threads[t].refs > 0 && EditorExclusive(s, t)
    requires HasPolicy(s.list, h)
    ensures h <= s.list.table.maxindex
  {
    ReferenceMeansQuiet(s, t);
  }

  /** The test under the mutex does not deny a dynamic policy. */
  lemma LockedTest(s: State, t: nat, h: nat)
    requires Inv(s) && ListInv(s.list) && t < |s.threads| && s.threads[t].pc == CondTest && EditorExclusive(s, t)
    requires HasPolicy(s.list, h) && s.list.table.staticmax <= h
    ensures HasDynamic(s.list)
  {
    MutexMeansQuiet(s, t);
    assert h in Dynamic(s.list);
    CountersMislead(s.list, h);
  }

  lemma SeesRead(w: Walk, l: PolicyList, next: Point, h: nat)
    requires HasPolicy(l, h) && (h in w.visited <==> h < w.i)
    ensures h in Read(w, l, next).visited <==> h < w.i + 1
  {
  }

  lemma SeesLoop(x: World, t: nat, x': World, h: nat)
    requires t < |x.s.threads| && WalkerOk(x, t) && Sees(x, h) && HasPolicy(x.s.list, h)
    requires x.w.at in {Test2, Read2} ==> h <= x.s.list.table.maxindex
    requires Mine(x, t, x') && !Asks(x, x')
    ensures Sees(x', h)
  {
    SeesRead(x.w, x.s.list, x'.w.at, h);
  }

  lemma SeesAsk(x: World, t: nat, x': World, h: nat)
    requires t < |x.s.threads| && WalkerOk(x, t) && Sees(x, h) && HasPolicy(x.s.list, h)
    requires x.w.at == Ask && x.s.threads[t].pc == CondTest && x.w.i <= h ==> HasDynamic(x.s.list)
    requires Mine(x, t, x') && Asks(x, x') && x'.s.list == x.s.list
    ensures Sees(x', h)
  {
  }

  lemma SeesStep(x: World, t: nat, move: Move, x': World, h: nat)
    requires WorldInv(x, t) && WorldStep(x, t, move, x') && Sees(x, h) && HasPolicy(x.s.list, h)
    ensures Sees(x', h)
  {
    match move
    case Edits(u, a) => SeesEdit(x, t, u, a, x', h);
    case Runs(u) =>
    case Walks =>
      if Asks(x, x') {
        AskKeepsList(x, t, x');
        if x.w.at == Ask && x.s.threads[t].pc == CondTest && x.w.i <= h {
          LockedTest(x.s, t, h);
        }
        SeesAsk(x, t, x', h);
      } else {
        if x.w.at in {Test2, Read2} {
          LoopsReachAll(x.s, t, h);
        }
        SeesLoop(x, t, x', h);
      }
  }

  // ---- Whole walks ----------------------------------------------------------------------------------

  /** A walk of thread t begins, in any state that the protocol and the changes lead to. */
  ghost predicate Begins(x: World, t: nat) {
    WorldInv(x, t) && x.w == Walk(Test1, 0, [], Untested, false)
  }

  ghost function StepOf(t: nat): (World, Move, World) -> bool {
    (x, move, x') => WorldStep(x, t, move, x')
  }

  ghost predicate IsWalk(run: seq<World>, moves: seq<Move>, t: nat) {
    IsRunOf(StepOf(t), run, moves) && Begins(run[0], t)
  }

  /** A walk that has come to its end. */
  ghost predicate IsWholeWalk(run: seq<World>, moves: seq<Move>, t: nat) {
    IsWalk(run, moves, t) && run[|moves|].w.at == Over
  }

  /** The policy at h is there before every step. */
  ghost predicate Stays(run: seq<World>, n: nat, h: nat)
    requires n <= |run|
  {
    var given := LoadedAt(h);
    forall j :: 0 <= j < n ==> given(run[j])
  }

  function LoadedAt(h: nat): World -> bool { (x: World) => HasPolicy(x.s.list, h) }

  /** The invariant, with what the walk has to do with the policy at h. */
  ghost function InvAt(t: nat, h: nat): World -> bool { x => WorldInv(x, t) && Sees(x, h) }

  lemma StepsKeep(t: nat, h: nat)
    ensures Keeps(StepOf(t), LoadedAt(h), InvAt(t, h))
  {
    forall x, move, x' | WorldStep(x, t, move, x') && HasPolicy(x.s.list, h) && WorldInv(x, t) && Sees(x, h)
      ensures WorldInv(x', t) && Sees(x', h)
    {
      WorldStepInv(x, t, move, x');
      SeesStep(x, t, move, x', h);
    }
  }

  /**
   Every walk, whatever other threads do meanwhile, visits no policy twice.  It misses a policy that
   stays loaded from its beginning to its end exactly when the policy is not below staticmax at the load
   of staticmax by the unlocked test, and staticmax has risen, from the load of numloaded to that of
   staticmax, by at least the number of dynamic policies that numloaded counted.
   */
  lemma WalkVisits(run: seq<World>, moves: seq<Move>, t: nat, h: nat)
    requires IsWholeWalk(run, moves, t) && Stays(run, |moves|, h)
    ensures var w := run[|moves|].w;
            && MacPolicyList.Rising(w.visited) && w.test.Tested? && HasPolicy(w.test.nums, h)
            && var nums, stats := w.test.nums, w.test.stats;
               (h !in w.visited <==>
                  && stats.table.staticmax <= h
                  && |Dynamic(nums)| + Skew(nums) <= stats.table.staticmax - nums.table.staticmax)
  {
    StepsKeep(t, h);
    KeptByRun(StepOf(t), LoadedAt(h), InvAt(t, h), run, moves, |moves|);
    WalkEnds(run[|moves|], t, h);
  }

  lemma WalkEnds(x: World, t: nat, h: nat)
    requires WorldInv(x, t) && Sees(x, h) && x.w.at == Over
    ensures MacPolicyList.Rising(x.w.visited) && x.w.test.Tested? && HasPolicy(x.w.test.nums, h)
    ensures var nums, stats := x.w.test.nums, x.w.test.stats;
            (h !in x.w.visited <==>
               && stats.table.staticmax <= h
               && |Dynamic(nums)| + Skew(nums) <= stats.table.staticmax - nums.table.staticmax)
  {
    CountersTell(x.w.test.nums);
  }

  /** When nothing happens between the two loads: a registration is between the counters, and h is alone. */
  lemma WalkUninterrupted(run: seq<World>, moves: seq<Move>, t: nat, h: nat)
    requires IsWholeWalk(run, moves, t) && Stays(run, |moves|, h)
    ensures var w := run[|moves|].w;
            w.test.Tested? && (w.test.nums == w.test.stats ==>
              (h !in w.visited <==> RaisingStatic(w.test.nums) && Dynamic(w.test.nums) == {h}))
  {
    WalkVisits(run, moves, t, h);
    KeptByWalk(run, moves, t);
    var l := run[|moves|].w.test.nums;
    CountersTell(l);
    if h in Dynamic(l) {
      CountersMislead(l, h);
    }
  }

  ghost function InvOf(t: nat): World -> bool { x => WorldInv(x, t) }

  lemma KeptByWalk(run: seq<World>, moves: seq<Move>, t: nat)
    requires IsWalk(run, moves, t)
    ensures WorldInv(run[|moves|], t)
  {
    forall x, move, x' | WorldStep(x, t, move, x') && WorldInv(x, t) ensures WorldInv(x', t) {
      WorldStepInv(x, t, move, x');
    }
    KeptByRun(StepOf(t), Always, InvOf(t), run, moves, |moves|);
  }

  // ---- Without a rise of staticmax --------------------------------------------------------------------

  /** No registration is between the two counters. */
  ghost function NotRaising(): World -> bool { (x: World) => !RaisingStatic(x.s.list) }

  /** staticmax is c, and so it was at the two loads. */
  ghost function StaticIs(c: int): World -> bool {
    (x: World) =>
      var test := x.w.test;
      && (x.s.list.table.staticmax == c || RaisingStatic(x.s.list))
      && (test.HasNums() ==> test.nums.table.staticmax == c && !RaisingStatic(test.nums))
      && (test.HasStats() ==> test.stats.table.staticmax == c)
  }

  /** staticmax stays, or a registration is between the counters. */
  lemma StaticMoves(x: World, t: nat, move: Move, x': World)
    requires WorldStep(x, t, move, x') && !RaisingStatic(x.s.list)
    ensures x'.s.list.table.staticmax == x.s.list.table.staticmax || RaisingStatic(x'.s.list)
  {
    if move.Edits? {
      RaiseShows(x.s.list, move.action);
    } else if move.Walks? && Asks(x, x') {
      AskKeepsList(x, t, x');
    }
  }

  lemma StaticKeeps(t: nat, c: int)
    ensures Keeps(StepOf(t), NotRaising(), StaticIs(c))
  {
    forall x, move, x' | WorldStep(x, t, move, x') && NotRaising()(x) && StaticIs(c)(x) ensures StaticIs(c)(x') {
      TestLoads(x, t, move, x');
      StaticMoves(x, t, move, x');
    }
  }

  /** A walk visits every policy that stays loaded, if no registration is between the counters meanwhile. */
  lemma WalkVisitsAll(run: seq<World>, moves: seq<Move>, t: nat, h: nat)
    requires IsWholeWalk(run, moves, t) && Stays(run, |moves|, h)
    requires forall j :: 0 <= j < |moves| ==> NotRaising()(run[j])
    ensures h in run[|moves|].w.visited
  {
    var c := run[0].s.list.table.staticmax;
    WalkVisits(run, moves, t, h);
    StaticKeeps(t, c);
    KeptByRun(StepOf(t), NotRaising(), StaticIs(c), run, moves, |moves|);
    var l := run[|moves|].w.test.nums;
    assert l.table.staticmax <= h ==> h in Dynamic(l);
  }
}
