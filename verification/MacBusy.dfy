/**
 The busy count and the exclusive lock of the MAC policy list, as a state machine over any
 number of threads.  Every step below is one access of the code to the shared state: taking or dropping
 the mutex, one load without it, reading or writing the count, sleeping on it or waking its sleepers.
 Loads and stores that a thread does under the mutex are one step, since nobody comes between them
 (`MutexProtects`).
 */
module MacBusy {
  import opened MacChange
  import opened Runs

  /** Where a thread stands.  A name ending in Lock is about to take the mutex. */
  datatype Pc =
    | Idle
    // mac_policy_grab_exclusive
    | GrabLock | GrabTest | Asleep
    // between grab and release
    | Exclusive
    // mac_policy_release_exclusive
    | ReleaseAssert | ReleaseUnlock | ReleaseWake
    // mac_policy_list_busy
    | BusyLock | BusyIncrement | BusyUnlock
    // mac_policy_list_conditional_busy
    | CondPeek | CondHasNum(numloaded: int) | CondHasStatic(staticmax: int) | CondLock | CondTest | CondUnlock
    // mac_policy_list_unbusy
    | UnbusyLock | UnbusyDecrement | UnbusyTest | UnbusyUnlock

  /** `refs` counts the references to the list that the thread has taken and not given back. */
  datatype Thread = Thread(pc: Pc, refs: nat)

  datatype Owner = Nobody | Owner(thread: nat)

  datatype State = State(
    busy: int,
    mutex: Owner,
    threads: seq<Thread>,
    list: PolicyList,
    panicked: bool)

  function At(s: State, t: nat, pc: Pc): State
    requires t < |s.threads|
  {
    s.(threads := s.threads[t := s.threads[t].(pc := pc)])
  }

  function WithRefs(s: State, t: nat, pc: Pc, refs: nat): State
    requires t < |s.threads|
  {
    s.(threads := s.threads[t := Thread(pc, refs)])
  }

  /** thread_wakeup: every sleeper goes on to take the mutex again. */
  function WakeAll(threads: seq<Thread>): (r: seq<Thread>)
    ensures |r| == |threads|
  {
    seq(|threads|, i requires 0 <= i < |threads| =>
      if threads[i].pc == Asleep then threads[i].(pc := GrabLock) else threads[i])
  }

  /** The points of the code at which a thread is about to take the mutex. */
  predicate Waits(pc: Pc) { pc.GrabLock? || pc.BusyLock? || pc.CondLock? || pc.UnbusyLock? }

  /** What the next action of thread t does, inside a call. */
  function Act(s: State, t: nat): State
    requires t < |s.threads| && s.threads[t].pc != Idle && s.threads[t].pc != Asleep
  {
    var refs := s.threads[t].refs;
    match s.threads[t].pc
    case GrabLock => At(s, t, GrabTest).(mutex := Owner(t))
    case GrabTest => if s.busy != 0 then At(s, t, Asleep).(mutex := Nobody) else At(s, t, Exclusive)
    case Exclusive => At(s, t, ReleaseAssert)
    case ReleaseAssert => if s.busy == 0 then At(s, t, ReleaseUnlock) else s.(panicked := true)
    case ReleaseUnlock => At(s, t, ReleaseWake).(mutex := Nobody)
    case ReleaseWake => At(s.(threads := WakeAll(s.threads)), t, Idle)
    case BusyLock => At(s, t, BusyIncrement).(mutex := Owner(t))
    case BusyIncrement => WithRefs(s, t, BusyUnlock, refs + 1).(busy := s.busy + 1)
    case BusyUnlock => At(s, t, Idle).(mutex := Nobody)
    case CondPeek => At(s, t, CondHasNum(s.list.table.numloaded))
    case CondHasNum(n) => At(s, t, if n <= s.list.table.staticmax then Idle else CondLock)
    case CondHasStatic(m) => At(s, t, if s.list.table.numloaded <= m then Idle else CondLock)
    case CondLock => At(s, t, CondTest).(mutex := Owner(t))
    case CondTest =>
      if s.list.table.numloaded > s.list.table.staticmax
      then WithRefs(s, t, CondUnlock, refs + 1).(busy := s.busy + 1)
      else At(s, t, CondUnlock)
    case CondUnlock => At(s, t, Idle).(mutex := Nobody)
    case UnbusyLock => At(s, t, UnbusyDecrement).(mutex := Owner(t))
    case UnbusyDecrement =>
      WithRefs(s, t, UnbusyTest, if refs == 0 then 0 else refs - 1).(busy := s.busy - 1)
    case UnbusyTest =>
      if s.busy < 0 then s.(panicked := true)
      else if s.busy == 0 then At(s.(threads := WakeAll(s.threads)), t, UnbusyUnlock)
      else At(s, t, UnbusyUnlock)
    case UnbusyUnlock => At(s, t, Idle).(mutex := Nobody)
  }

  /** An idle thread calls one of the four functions; it may only give back what it has taken. */
  ghost predicate Call(s: State, t: nat, s': State)
    requires t < |s.threads|
  {
    || s' == At(s, t, GrabLock)
    || s' == At(s, t, BusyLock)
    || s' == At(s, t, CondPeek)
    || (s.threads[t].refs > 0 && s' == At(s, t, UnbusyLock))
  }

  /**
   One step of thread t.  Whoever is exclusive may also change the list in any way, and the two loads
   of the unlocked test come in either order.
   */
  ghost predicate Step(s: State, t: nat, s': State) {
    && t < |s.threads|
    && !s.panicked
    && var pc := s.threads[t].pc;
       if pc == Idle then Call(s, t, s')
       else
         && pc != Asleep
         && ((s' == Act(s, t) && (Waits(pc) ==> s.mutex == Nobody))
             || (pc == CondPeek && s' == At(s, t, CondHasStatic(s.list.table.staticmax)))
             || (pc == Exclusive && s' == s.(list := s'.list)))
  }

  ghost predicate Initial(s: State) {
    && s.busy == 0 && s.mutex == Nobody && !s.panicked
    && forall t :: 0 <= t < |s.threads| ==> s.threads[t] == Thread(Idle, 0)
  }

  // ---- The invariant -------------------------------------------------------------------------

  function Refs(threads: seq<Thread>): (n: nat) {
    if threads == [] then 0 else Refs(threads[..|threads| - 1]) + threads[|threads| - 1].refs
  }

  /** The points of the code at which the mutex is held. */
  predicate Holds(pc: Pc) {
    || pc.GrabTest? || pc.Exclusive? || pc.ReleaseAssert? || pc.ReleaseUnlock?
    || pc.BusyIncrement? || pc.BusyUnlock? || pc.CondTest? || pc.CondUnlock?
    || pc.UnbusyDecrement? || pc.UnbusyTest? || pc.UnbusyUnlock?
  }

  predicate InExclusive(pc: Pc) { pc.Exclusive? || pc.ReleaseAssert? || pc.ReleaseUnlock? }

  /** The mutex belongs to the thread exactly where the code holds it. */
  ghost predicate OwnerOk(s: State, t: nat)
    requires t < |s.threads|
  {
    Holds(s.threads[t].pc) <==> s.mutex == Owner(t)
  }

  ghost predicate CountOk(s: State, t: nat)
    requires t < |s.threads|
  {
    var th := s.threads[t];
    && (InExclusive(th.pc) ==> s.busy == 0)
    && (th.pc.UnbusyLock? || th.pc.UnbusyDecrement? ==> th.refs > 0)
    // A sleeper waits for a count above zero, or for a wakeup that the owner is about to send.
    && (th.pc == Asleep && s.busy == 0 ==>
          s.mutex.Owner? && s.mutex.thread < |s.threads| && s.threads[s.mutex.thread].pc == UnbusyTest)
  }

  ghost predicate ThreadOk(s: State, t: nat)
    requires t < |s.threads|
  {
    OwnerOk(s, t) && CountOk(s, t)
  }

  ghost predicate Inv(s: State) {
    && !s.panicked
    && s.busy == Refs(s.threads)
    && (s.mutex.Owner? ==> s.mutex.thread < |s.threads|)
    && forall t :: 0 <= t < |s.threads| ==> ThreadOk(s, t)
  }

  lemma {:induction false} RefsUpdate(threads: seq<Thread>, t: nat, th: Thread)
    requires t < |threads|
    ensures Refs(threads[t := th]) == Refs(threads) - threads[t].refs + th.refs
    decreases |threads|
  {
    var n := |threads| - 1;
    var init := threads[..n];
    if t < n {
      RefsUpdate(init, t, th);
      assert threads[t := th][..n] == init[t := th];
    } else {
      assert threads[t := th][..n] == init;
    }
  }

  lemma {:induction false} RefsWake(threads: seq<Thread>)
    ensures Refs(WakeAll(threads)) == Refs(threads)
    decreases |threads|
  {
    if threads != [] {
      var n := |threads| - 1;
      RefsWake(threads[..n]);
      assert WakeAll(threads)[..n] == WakeAll(threads[..n]);
    }
  }

  lemma {:induction false} RefsAtLeast(threads: seq<Thread>, t: nat)
    requires t < |threads|
    ensures threads[t].refs <= Refs(threads)
    decreases |threads|
  {
    if t < |threads| - 1 {
      RefsAtLeast(threads[..|threads| - 1], t);
    }
  }

  lemma {:induction false} RefsZero(threads: seq<Thread>)
    requires forall t :: 0 <= t < |threads| ==> threads[t].refs == 0
    ensures Refs(threads) == 0
    decreases |threads|
  {
    if threads != [] {
      RefsZero(threads[..|threads| - 1]);
    }
  }

  lemma InitialInv(s: State)
    requires Initial(s)
    ensures Inv(s)
  {
    RefsZero(s.threads);
  }

  /** No assertion fails, and the mutex goes to a thread that is there. */
  lemma StepBounds(s: State, t: nat, s': State)
    requires Inv(s) && Step(s, t, s')
    ensures !s'.panicked && |s'.threads| == |s.threads|
    ensures s'.mutex.Owner? ==> s'.mutex.thread < |s'.threads|
  {
    assert ThreadOk(s, t);
  }

  /** A step of another thread leaves a thread alone, or wakes it. */
  lemma OtherThread(s: State, u: nat, s': State, t: nat)
    requires Step(s, u, s') && |s'.threads| == |s.threads| && t < |s.threads| && t != u
    ensures || s'.threads[t] == s.threads[t]
            || (s.threads[t].pc == Asleep && s'.threads[t] == s.threads[t].(pc := GrabLock))
  {
  }

  /** A step changes the thread's own references only, and perhaps wakes the others. */
  lemma StepThreads(s: State, t: nat, s': State)
    requires Step(s, t, s') && |s'.threads| == |s.threads|
    ensures s'.threads == s.threads[t := s'.threads[t]] || s'.threads == WakeAll(s.threads)[t := s'.threads[t]]
  {
  }

  lemma StepRefs(s: State, t: nat, s': State)
    requires Inv(s) && Step(s, t, s') && |s'.threads| == |s.threads|
    ensures s'.busy - s.busy == s'.threads[t].refs - s.threads[t].refs
  {
    assert ThreadOk(s, t);
  }

  /** The count is the number of references, and no assertion fails. */
  lemma StepCount(s: State, t: nat, s': State)
    requires Inv(s) && Step(s, t, s')
    ensures s'.busy == Refs(s'.threads) && !s'.panicked
    ensures |s'.threads| == |s.threads|
    ensures s'.mutex.Owner? ==> s'.mutex.thread < |s'.threads|
  {
    StepBounds(s, t, s');
    StepRefs(s, t, s');
    StepThreads(s, t, s');
    RefsUpdate(s.threads, t, s'.threads[t]);
    RefsWake(s.threads);
    RefsUpdate(WakeAll(s.threads), t, s'.threads[t]);
  }

  lemma StepOwner(s: State, t: nat, s': State, u: nat)
    requires Inv(s) && Step(s, t, s') && u < |s.threads| == |s'.threads|
    ensures OwnerOk(s', u)
  {
    assert ThreadOk(s, t) && ThreadOk(s, u);
  }

  lemma StepSelf(s: State, t: nat, s': State)
    requires Inv(s) && Step(s, t, s') && |s.threads| == |s'.threads|
    ensures CountOk(s', t)
  {
    assert ThreadOk(s, t);
    RefsAtLeast(s.threads, t);
  }

  lemma StepOther(s: State, t: nat, s': State, u: nat)
    requires Inv(s) && Step(s, t, s') && u < |s.threads| == |s'.threads| && u != t
    ensures CountOk(s', u)
  {
    assert ThreadOk(s, t) && ThreadOk(s, u);
    var th, th' := s.threads[u], s'.threads[u];
    assert th' == th || (th.pc == Asleep && th' == th.(pc := GrabLock));
    RefsAtLeast(s.threads, t);
  }

  /** Every step of every thread keeps the invariant. */
  lemma StepInv(s: State, t: nat, s': State)
    requires Inv(s) && Step(s, t, s')
    ensures Inv(s')
  {
    StepCount(s, t, s');
    forall u | 0 <= u < |s'.threads| ensures ThreadOk(s', u) {
      StepOwner(s, t, s', u);
      if u == t {
        StepSelf(s, t, s');
      } else {
        StepOther(s, t, s', u);
      }
    }
  }

  // ---- Runs ----------------------------------------------------------------------------------

  /** Thread who[i] takes the step from run[i]. */
  ghost predicate IsRun(run: seq<State>, who: seq<nat>) {
    IsRunOf(Step, run, who) && Initial(run[0])
  }

  lemma RunInv(run: seq<State>, who: seq<nat>, i: nat)
    requires IsRun(run, who) && i < |run|
    ensures Inv(run[i])
  {
    InitialInv(run[0]);
    forall s, t, s' | Step(s, t, s') && Inv(s) ensures Inv(s') {
      StepInv(s, t, s');
    }
    KeptByRun(Step, Always, Inv, run, who, i);
  }

  /**
   In every reachable state: no assertion has failed, the count is the number of references,
   at most one thread is exclusive, and then no thread has a reference.
   */
  lemma Safety(run: seq<State>, who: seq<nat>, i: nat)
    requires IsRun(run, who) && i < |run|
    ensures !run[i].panicked && run[i].busy == Refs(run[i].threads)
    ensures forall t, u ::
              0 <= t < |run[i].threads| && 0 <= u < |run[i].threads| && InExclusive(run[i].threads[t].pc) ==>
              run[i].threads[u].refs == 0 && (InExclusive(run[i].threads[u].pc) ==> t == u)
  {
    RunInv(run, who, i);
    var s := run[i];
    forall t, u | 0 <= t < |s.threads| && 0 <= u < |s.threads| && InExclusive(s.threads[t].pc)
      ensures s.threads[u].refs == 0 && (InExclusive(s.threads[u].pc) ==> t == u)
    {
      assert ThreadOk(s, t) && ThreadOk(s, u);
      RefsAtLeast(s.threads, u);
    }
  }

  /** No lost wakeup: with the count at zero and the mutex free, nobody sleeps. */
  lemma NoLostWakeup(run: seq<State>, who: seq<nat>, i: nat, t: nat)
    requires IsRun(run, who) && i < |run| && t < |run[i].threads|
    requires run[i].busy == 0 && run[i].mutex == Nobody
    ensures run[i].threads[t].pc != Asleep
  {
    RunInv(run, who, i);
    assert ThreadOk(run[i], t);
  }

  /** What the mutex protects changes only by a step of its owner. */
  lemma MutexProtects(s: State, t: nat, s': State)
    requires Inv(s) && Step(s, t, s') && s.mutex.Owner? && s.mutex.thread != t
    ensures s'.mutex == s.mutex && s'.busy == s.busy && s'.list == s.list
  {
    assert ThreadOk(s, t);
  }

  lemma StepKeepsList(s: State, t: nat, s': State, u: nat)
    requires Inv(s) && Step(s, t, s') && u < |s.threads| && s.threads[u].refs > 0
    ensures s'.list == s.list
  {
    assert ThreadOk(s, t);
    RefsAtLeast(s.threads, u);
  }

  /** While a thread keeps a reference, from run[i] to run[j], the list does not change. */
  lemma {:induction false} BusySectionIsStable(run: seq<State>, who: seq<nat>, i: nat, j: nat, t: nat)
    requires IsRun(run, who) && i <= j < |run|
    requires forall k :: i <= k <= j ==> t < |run[k].threads| && run[k].threads[t].refs > 0
    ensures run[i].list == run[j].list
    decreases j
  {
    if i < j {
      var k := j - 1;
      BusySectionIsStable(run, who, i, k, t);
      RunInv(run, who, k);
      assert Step(run[k], who[k], run[k + 1]);
      StepKeepsList(run[k], who[k], run[k + 1], t);
    }
  }

  /** Whether thread t can take a step. */
  ghost predicate Enabled(s: State, t: nat) { exists s' :: Step(s, t, s') }

  lemma {:induction false} SomeRefs(threads: seq<Thread>) returns (t: nat)
    requires Refs(threads) > 0
    ensures t < |threads| && threads[t].refs > 0
    decreases |threads|
  {
    var n := |threads| - 1;
    if threads[n].refs > 0 {
      t := n;
    } else {
      t := SomeRefs(threads[..n]);
    }
  }

  /** A thread inside a call is stopped only by sleep or by a mutex that another one holds. */
  lemma CanStep(s: State, t: nat)
    requires !s.panicked && t < |s.threads|
    requires s.threads[t].pc !in {Idle, Asleep}
    requires s.mutex == Nobody || Holds(s.threads[t].pc)
    ensures Enabled(s, t)
  {
    assert Step(s, t, Act(s, t));
  }

  /**
   No deadlock: if some thread is inside a call, then a thread inside a call can step, or some
   thread outside of its calls still has a reference to give back, or a thread went to sleep for
   exclusive access while it held a reference itself.
   */
  lemma NoDeadlock(run: seq<State>, who: seq<nat>, i: nat, t: nat)
    requires IsRun(run, who) && i < |run| && t < |run[i].threads| && run[i].threads[t].pc != Idle
    ensures exists u :: 0 <= u < |run[i].threads| &&
              ((run[i].threads[u].pc != Idle && Enabled(run[i], u))
               || (run[i].threads[u].pc in {Idle, Asleep} && run[i].threads[u].refs > 0))
  {
    RunInv(run, who, i);
    var s := run[i];
    if s.mutex.Owner? {
      assert ThreadOk(s, s.mutex.thread);
      CanStep(s, s.mutex.thread);
    } else if s.threads[t].pc != Asleep {
      CanStep(s, t);
    } else {
      assert ThreadOk(s, t);
      var u := SomeRefs(s.threads);
      if s.threads[u].pc !in {Idle, Asleep} {
        CanStep(s, u);
      }
    }
  }
}
