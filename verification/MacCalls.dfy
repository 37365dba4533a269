/** What each call of the busy and exclusive protocol has done when it returns, in every interleaving. */
module MacCalls {
  import opened MacBusy
  import opened Runs

  /** Thread t is inside a call from state i on, and idle again at j. */
  ghost predicate ReturnsAt(run: seq<State>, t: nat, i: nat, j: nat) {
    && i < j < |run|
    && (forall k :: i <= k < j ==> t < |run[k].threads| && run[k].threads[t].pc != Idle)
    && t < |run[j].threads| && run[j].threads[t].pc == Idle
  }

  /** How far a call of thread t has come, for each of the calls; `r` is the thread's references before it. */
  predicate Takes(th: Thread, r: nat) {
    || (th.pc in {BusyLock, BusyIncrement} && th.refs == r)
    || (th.pc in {BusyUnlock, Idle} && th.refs == r + 1)
  }

  predicate Gives(th: Thread, r: nat) {
    || (th.pc in {UnbusyLock, UnbusyDecrement} && th.refs == r)
    || (th.pc in {UnbusyTest, UnbusyUnlock, Idle} && th.refs == r - 1)
  }

  predicate Grabs(th: Thread, r: nat) { th.pc in {GrabLock, GrabTest, Asleep, Exclusive} && th.refs == r }

  predicate Releases(th: Thread, r: nat) {
    th.pc in {ReleaseAssert, ReleaseUnlock, ReleaseWake, Idle} && th.refs == r
  }

  /** One step of the thread itself inside a call. */
  lemma TakesStep(s: State, t: nat, s': State, r: nat)
    requires Inv(s) && Step(s, t, s') && s.threads[t].pc != Idle && Takes(s.threads[t], r)
    ensures |s'.threads| == |s.threads| && Takes(s'.threads[t], r)
  {
  }

  lemma GivesStep(s: State, t: nat, s': State, r: nat)
    requires Inv(s) && Step(s, t, s') && s.threads[t].pc != Idle && Gives(s.threads[t], r)
    ensures |s'.threads| == |s.threads| && Gives(s'.threads[t], r)
  {
    assert ThreadOk(s, t);
  }

  lemma GrabsStep(s: State, t: nat, s': State, r: nat)
    requires Inv(s) && Step(s, t, s') && s.threads[t].pc != Exclusive && Grabs(s.threads[t], r)
    ensures |s'.threads| == |s.threads| && Grabs(s'.threads[t], r)
  {
  }

  lemma ReleasesStep(s: State, t: nat, s': State, r: nat)
    requires Inv(s) && Step(s, t, s') && s.threads[t].pc != Idle && Releases(s.threads[t], r)
    ensures |s'.threads| == |s.threads| && Releases(s'.threads[t], r)
  {
    assert ThreadOk(s, t);
  }

  // ---- Whole calls ------------------------------------------------------------------------------------

  ghost function Busy(t: nat): State -> bool { (s: State) => t < |s.threads| && s.threads[t].pc != Idle }

  ghost function Waiting(t: nat): State -> bool { (s: State) => t < |s.threads| && s.threads[t].pc != Exclusive }

  ghost function Taking(t: nat, r: nat): State -> bool {
    (s: State) => Inv(s) && t < |s.threads| && Takes(s.threads[t], r)
  }

  ghost function Giving(t: nat, r: nat): State -> bool {
    (s: State) => Inv(s) && t < |s.threads| && Gives(s.threads[t], r)
  }

  ghost function Grabbing(t: nat, r: nat): State -> bool {
    (s: State) => Inv(s) && t < |s.threads| && Grabs(s.threads[t], r)
  }

  ghost function Releasing(t: nat, r: nat): State -> bool {
    (s: State) =>
      Inv(s) && t < |s.threads| && Releases(s.threads[t], r) && (s.threads[t].pc == Idle ==> NobodySleeps(s))
  }

  ghost predicate NobodySleeps(s: State) { forall v :: 0 <= v < |s.threads| ==> s.threads[v].pc != Asleep }

  /** A step of another thread changes nothing in a thread that does not sleep. */
  lemma OthersLeave(s: State, u: nat, s': State, t: nat)
    requires Inv(s) && Step(s, u, s') && t < |s.threads| && t != u
    ensures Inv(s') && |s'.threads| == |s.threads|
    ensures || s'.threads[t] == s.threads[t]
            || (s.threads[t].pc == Asleep && s'.threads[t] == s.threads[t].(pc := GrabLock))
  {
    StepInv(s, u, s');
    StepBounds(s, u, s');
    OtherThread(s, u, s', t);
  }

  /** mac_policy_list_busy takes one reference. */
  lemma BusyTakesOne(run: seq<State>, who: seq<nat>, t: nat, i: nat, j: nat)
    requires IsRun(run, who) && ReturnsAt(run, t, i, j) && run[i].threads[t].pc == BusyLock
    ensures run[j].threads[t].refs == run[i].threads[t].refs + 1
  {
    var r := run[i].threads[t].refs;
    RunInv(run, who, i);
    forall s, u, s' | Step(s, u, s') && Busy(t)(s) && Taking(t, r)(s) ensures Taking(t, r)(s') {
      StepInv(s, u, s');
      if u == t {
        TakesStep(s, t, s', r);
      } else {
        OthersLeave(s, u, s', t);
      }
    }
    KeptFrom(Step, Busy(t), Taking(t, r), run, who, i, j);
  }

  /** mac_policy_list_unbusy gives one back. */
  lemma UnbusyGivesOne(run: seq<State>, who: seq<nat>, t: nat, i: nat, j: nat)
    requires IsRun(run, who) && ReturnsAt(run, t, i, j) && run[i].threads[t].pc == UnbusyLock
    ensures run[j].threads[t].refs == run[i].threads[t].refs - 1
  {
    var r := run[i].threads[t].refs;
    RunInv(run, who, i);
    forall s, u, s' | Step(s, u, s') && Busy(t)(s) && Giving(t, r)(s) ensures Giving(t, r)(s') {
      StepInv(s, u, s');
      if u == t {
        GivesStep(s, t, s', r);
      } else {
        OthersLeave(s, u, s', t);
      }
    }
    KeptFrom(Step, Busy(t), Giving(t, r), run, who, i, j);
  }

  /** The last step of a release wakes everybody. */
  lemma ReleaseWakes(s: State, t: nat, s': State, r: nat)
    requires Inv(s) && Step(s, t, s') && Releases(s.threads[t], r) && s.threads[t].pc != Idle
    requires |s'.threads| == |s.threads| && s'.threads[t].pc == Idle
    ensures NobodySleeps(s')
  {
  }

  /** mac_policy_release_exclusive takes and gives none, leaves the mutex to others, and nobody asleep. */
  lemma ReleaseReturns(run: seq<State>, who: seq<nat>, t: nat, i: nat, j: nat)
    requires IsRun(run, who) && ReturnsAt(run, t, i, j) && run[i].threads[t].pc == ReleaseAssert
    ensures run[j].threads[t].refs == run[i].threads[t].refs && run[j].mutex != Owner(t) && NobodySleeps(run[j])
  {
    var r := run[i].threads[t].refs;
    RunInv(run, who, i);
    forall s, u, s' | Step(s, u, s') && Busy(t)(s) && Releasing(t, r)(s) ensures Releasing(t, r)(s') {
      StepInv(s, u, s');
      if u == t {
        ReleasesStep(s, t, s', r);
        if s'.threads[t].pc == Idle {
          ReleaseWakes(s, t, s', r);
        }
      } else {
        OthersLeave(s, u, s', t);
      }
    }
    KeptFrom(Step, Busy(t), Releasing(t, r), run, who, i, j);
    assert ThreadOk(run[j], t);
  }

  /** Until a grab leaves its loop it is in it, and then it has the list to itself, with the mutex. */
  lemma GrabReturns(run: seq<State>, who: seq<nat>, t: nat, i: nat, j: nat)
    requires IsRun(run, who) && i <= j < |run| && t < |run[i].threads| && run[i].threads[t].pc == GrabLock
    requires forall k :: i <= k < j ==> t < |run[k].threads| && run[k].threads[t].pc != Exclusive
    ensures t < |run[j].threads| && run[j].threads[t].refs == run[i].threads[t].refs
    ensures run[j].threads[t].pc in {GrabLock, GrabTest, Asleep, Exclusive}
    ensures run[j].threads[t].pc == Exclusive ==>
              run[j].mutex == Owner(t) && run[j].busy == 0
              && forall u :: 0 <= u < |run[j].threads| ==> run[j].threads[u].refs == 0
  {
    var r := run[i].threads[t].refs;
    RunInv(run, who, i);
    forall s, u, s' | Step(s, u, s') && Waiting(t)(s) && Grabbing(t, r)(s) ensures Grabbing(t, r)(s') {
      StepInv(s, u, s');
      if u == t {
        GrabsStep(s, t, s', r);
      } else {
        OthersLeave(s, u, s', t);
      }
    }
    KeptFrom(Step, Waiting(t), Grabbing(t, r), run, who, i, j);
    assert ThreadOk(run[j], t);
    if run[j].threads[t].pc == Exclusive {
      forall u | 0 <= u < |run[j].threads| ensures run[j].threads[u].refs == 0 {
        RefsAtLeast(run[j].threads, u);
      }
    }
  }

  // ---- The conditional call -----------------------------------------------------------------------------

  /** At state m thread t takes its step of the test under the mutex, and finds dynamic policies. */
  ghost predicate TestsTrue(run: seq<State>, who: seq<nat>, t: nat, m: nat) {
    && m < |run| && m < |who| && who[m] == t && t < |run[m].threads| && run[m].threads[t].pc == CondTest
    && run[m].list.table.numloaded > run[m].list.table.staticmax
  }

  ghost predicate Found(run: seq<State>, who: seq<nat>, t: nat, i: nat, k: nat) {
    exists m :: i <= m < k && TestsTrue(run, who, t, m)
  }

  /** Before the test, after a test that found none, and after one that found some. */
  predicate Asks(th: Thread, r: nat, found: bool) {
    if th.pc in {CondUnlock, Idle} then th.refs == r + if found then 1 else 0
    else
      && !found && th.refs == r
      && (th.pc in {CondPeek, CondLock, CondTest} || th.pc.CondHasNum? || th.pc.CondHasStatic?)
  }

  lemma AsksStep(s: State, t: nat, s': State, r: nat, found: bool)
    requires Inv(s) && Step(s, t, s') && s.threads[t].pc != Idle && Asks(s.threads[t], r, found)
    ensures |s'.threads| == |s.threads|
    ensures Asks(s'.threads[t], r,
                 found || (s.threads[t].pc == CondTest && s.list.table.numloaded > s.list.table.staticmax))
  {
  }

  lemma {:induction false} AskProgress(run: seq<State>, who: seq<nat>, t: nat, i: nat, k: nat)
    requires IsRun(run, who) && i <= k < |run| && t < |run[i].threads| && run[i].threads[t].pc == CondPeek
    requires forall n :: i <= n < k ==> t < |run[n].threads| && run[n].threads[t].pc != Idle
    ensures t < |run[k].threads| && Asks(run[k].threads[t], run[i].threads[t].refs, Found(run, who, t, i, k))
    decreases k
  {
    if k > i {
      var m, r := k - 1, run[i].threads[t].refs;
      AskProgress(run, who, t, i, m);
      RunInv(run, who, m);
      assert Step(run[m], who[m], run[m + 1]);
      FoundNext(run, who, t, i, m);
      if who[m] == t {
        AsksStep(run[m], t, run[k], r, Found(run, who, t, i, m));
      } else {
        OthersLeave(run[m], who[m], run[k], t);
      }
    }
  }

  lemma FoundNext(run: seq<State>, who: seq<nat>, t: nat, i: nat, m: nat)
    requires i <= m
    ensures Found(run, who, t, i, m + 1) <==> Found(run, who, t, i, m) || TestsTrue(run, who, t, m)
  {
    if Found(run, who, t, i, m + 1) {
      var n :| i <= n < m + 1 && TestsTrue(run, who, t, n);
      assert n == m || n < m;
    }
  }

  /** mac_policy_list_conditional_busy takes a reference exactly when it finds dynamic policies under the mutex. */
  lemma ConditionalTakes(run: seq<State>, who: seq<nat>, t: nat, i: nat, j: nat)
    requires IsRun(run, who) && ReturnsAt(run, t, i, j) && run[i].threads[t].pc == CondPeek
    ensures run[j].threads[t].refs == run[i].threads[t].refs + if Found(run, who, t, i, j) then 1 else 0
  {
    AskProgress(run, who, t, i, j);
  }
}
