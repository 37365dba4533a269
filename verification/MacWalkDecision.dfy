/** What MAC_CHECK and MAC_GRANT decide while other threads register and unregister policies. */
module MacWalkDecision {
  import opened MacErrno
  import opened MacDecision
  import opened MacPolicyList
  import opened MacWalk
  import opened Runs
  import C = MacChange

  // ---- Where the walk's knowledge comes from --------------------------------------------------------

  /** Handle v holds a policy, perhaps one that is just being registered. */
  predicate HoldsPolicy(l: C.PolicyList, v: int) {
    0 <= v < |l.table.entries| && l.table.entries[v].Loaded?
  }

  /** What has been visited was loaded in one of these lists, and the test was made on two of them. */
  ghost predicate ComesFrom(w: Walk, lists: iset<C.PolicyList>) {
    && (forall v :: v in w.visited ==> exists l :: l in lists && HoldsPolicy(l, v))
    && (w.test.HasNums() ==> w.test.nums in lists)
    && (w.test.HasStats() ==> w.test.stats in lists)
  }

  /** The lists of the first n states. */
  ghost function ListsOf(run: seq<World>, n: nat): iset<C.PolicyList>
    requires n <= |run|
  {
    iset j | 0 <= j < n :: run[j].s.list
  }

  lemma VisitLoads(x: World, t: nat, move: Move, x': World, v: int)
    requires WorldStep(x, t, move, x') && v in x'.w.visited
    ensures v in x.w.visited || HoldsPolicy(x.s.list, v)
  {
  }

  ghost function ListIn(lists: iset<C.PolicyList>): World -> bool { (x: World) => x.s.list in lists }

  ghost function WalkFrom(lists: iset<C.PolicyList>): World -> bool { (x: World) => ComesFrom(x.w, lists) }

  lemma SourcesKeep(t: nat, lists: iset<C.PolicyList>)
    ensures Keeps(StepOf(t), ListIn(lists), WalkFrom(lists))
  {
    forall x, move, x' | WorldStep(x, t, move, x') && x.s.list in lists && ComesFrom(x.w, lists)
      ensures ComesFrom(x'.w, lists)
    {
      TestLoads(x, t, move, x');
      forall v | v in x'.w.visited ensures exists l :: l in lists && HoldsPolicy(l, v) {
        VisitLoads(x, t, move, x', v);
      }
    }
  }

  /** A walk visits only what is loaded at some time, and tests only what the counters say at some time. */
  lemma WalkSources(run: seq<World>, moves: seq<Move>, t: nat)
    requires IsWalk(run, moves, t)
    ensures ComesFrom(run[|moves|].w, ListsOf(run, |moves|))
  {
    var lists := ListsOf(run, |moves|);
    SourcesKeep(t, lists);
    KeptByRun(StepOf(t), ListIn(lists), WalkFrom(lists), run, moves, |moves|);
  }

  // ---- Decisions ------------------------------------------------------------------------------------

  /**
   The answers that a walk collects.  It visits no handle twice, so answers[g] is what the policy that
   it met at g answered.
   */
  ghost function Collected(run: seq<World>, answers: seq<Answer>): seq<int>
    requires run != []
  {
    Consulted(run[|run| - 1].w.visited, answers)
  }

  /**
   Under every interleaving: a policy that stays loaded and is not missed is heard.  If it denies, the
   check fails with an error of at least its rank, and if it grants, the grant is given.
   */
  lemma WalkDecides(run: seq<World>, moves: seq<Move>, t: nat, h: nat, answers: seq<Answer>, e: int)
    requires IsWholeWalk(run, moves, t) && Stays(run, |moves|, h) && !Missed(run[|moves|].w.test, h)
    requires h < |answers| && answers[h] == Returns(e)
    ensures e != 0 ==> Check(Collected(run, answers)) != 0
    ensures Rank(e) <= Rank(Check(Collected(run, answers)))
    ensures e == 0 ==> Grant(Collected(run, answers)) == 0
  {
    var w, cs := run[|moves|].w, Collected(run, answers);
    assert h in w.visited by { MissedIff(run, moves, t, h); }
    ConsultedMember(w.visited, answers, e);
    CheckResult(cs);
    GrantResult(cs);
    var i :| 0 <= i < |cs| && cs[i] == e;
  }

  /** `Missed` is what `WalkVisits` says of the policies that are not visited. */
  lemma MissedIff(run: seq<World>, moves: seq<Move>, t: nat, h: nat)
    requires IsWholeWalk(run, moves, t) && Stays(run, |moves|, h)
    ensures h !in run[|moves|].w.visited <==> Missed(run[|moves|].w.test, h)
  {
    WalkVisits(run, moves, t, h);
    KeptByWalk(run, moves, t);
    C.CountersTell(run[|moves|].w.test.nums);
  }

  /** Some policy that was loaded during the walk gave this answer. */
  ghost predicate GivenBy(run: seq<World>, n: nat, answers: seq<Answer>, g: int, e: int)
    requires n <= |run|
  {
    && 0 <= g < |answers| && answers[g] == Returns(e)
    && exists l :: l in ListsOf(run, n) && HoldsPolicy(l, g)
  }

  /** And nobody else is heard: an error, or a grant, is the answer of a policy loaded during the walk. */
  lemma WalkDecidesOnly(run: seq<World>, moves: seq<Move>, t: nat, answers: seq<Answer>)
    requires IsWholeWalk(run, moves, t)
    ensures var error := Check(Collected(run, answers));
            error != 0 ==> exists g :: GivenBy(run, |moves|, answers, g, error)
    ensures Grant(Collected(run, answers)) == 0 ==> exists g :: GivenBy(run, |moves|, answers, g, 0)
    ensures Grant(Collected(run, answers)) in {0, EPERM}
  {
    var cs := Collected(run, answers);
    WalkSources(run, moves, t);
    CheckResult(cs);
    GrantResult(cs);
    HeardWasLoaded(run, moves, answers, Check(cs));
    HeardWasLoaded(run, moves, answers, 0);
  }

  lemma HeardWasLoaded(run: seq<World>, moves: seq<Move>, answers: seq<Answer>, e: int)
    requires |run| == |moves| + 1 && ComesFrom(run[|moves|].w, ListsOf(run, |moves|))
    ensures e in Collected(run, answers) ==> exists g :: GivenBy(run, |moves|, answers, g, e)
  {
    var visited := run[|moves|].w.visited;
    ConsultedMember(visited, answers, e);
    if e in Collected(run, answers) {
      var g :| g in visited && 0 <= g < |answers| && answers[g] == Returns(e);
      assert GivenBy(run, |moves|, answers, g, e);
    }
  }
}
