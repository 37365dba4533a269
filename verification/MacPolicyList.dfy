/**
 The policy list as the framework keeps it, with the loops that search it, change it and
 walk over it.
 */
module MacPolicyList {
  import opened Bytes
  import opened MacErrno
  import opened MacPolicyTable
  import opened MacDecision

  // ---- Walking over the policies --------------------------------------------------------------

  /** The loaded handles from lo up to, not including, hi, in order. */
  function LoadedIn(entries: seq<Entry>, lo: int, hi: int): (s: seq<int>)
    requires 0 <= lo && hi <= |entries|
    decreases hi - lo
  {
    if hi <= lo then [] else LoadedIn(entries, lo, hi - 1) + if entries[hi - 1].Loaded? then [hi - 1] else []
  }

  predicate Walkable(t: Table) {
    0 <= t.staticmax <= |t.entries| && t.maxindex < |t.entries|
  }

  /** Both loops stay within the table, and the second one starts where the first one ends. */
  ghost predicate InBounds(t: Table) {
    Walkable(t) && (t.numloaded > t.staticmax ==> t.staticmax <= t.maxindex + 1)
  }

  /** The handles that MAC_POLICY_ITERATE visits. */
  function Visited(t: Table): seq<int>
    requires Walkable(t)
  {
    LoadedIn(t.entries, 0, t.staticmax) +
    if t.numloaded > t.staticmax then LoadedIn(t.entries, t.staticmax, t.maxindex + 1) else []
  }

  lemma {:induction false} LoadedSplit(entries: seq<Entry>, lo: int, mid: int, hi: int)
    requires 0 <= lo <= mid <= hi <= |entries|
    ensures LoadedIn(entries, lo, hi) == LoadedIn(entries, lo, mid) + LoadedIn(entries, mid, hi)
    decreases hi
  {
    if mid < hi {
      LoadedSplit(entries, lo, mid, hi - 1);
    }
  }

  lemma {:induction false} LoadedNone(entries: seq<Entry>, lo: int, hi: int)
    requires 0 <= lo && hi <= |entries| && forall i :: lo <= i < hi ==> entries[i].Empty?
    ensures LoadedIn(entries, lo, hi) == []
    decreases hi
  {
    if lo < hi {
      LoadedNone(entries, lo, hi - 1);
    }
  }

  ghost predicate Rising(s: seq<int>) { forall i, j :: 0 <= i < j < |s| ==> s[i] < s[j] }

  lemma {:induction false} LoadedMember(entries: seq<Entry>, lo: int, hi: int, h: int)
    requires 0 <= lo && hi <= |entries|
    ensures h in LoadedIn(entries, lo, hi) <==> lo <= h < hi && entries[h].Loaded?
    decreases hi
  {
    if lo < hi {
      LoadedMember(entries, lo, hi - 1, h);
    }
  }

  /** Each loaded handle once, in ascending order, and no other. */
  lemma {:induction false} LoadedMeaning(entries: seq<Entry>, lo: int, hi: int)
    requires 0 <= lo && hi <= |entries|
    ensures Rising(LoadedIn(entries, lo, hi))
    ensures forall h :: h in LoadedIn(entries, lo, hi) <==> lo <= h < hi && entries[h].Loaded?
    decreases hi
  {
    forall h ensures h in LoadedIn(entries, lo, hi) <==> lo <= h < hi && entries[h].Loaded? {
      LoadedMember(entries, lo, hi, h);
    }
    if lo < hi {
      LoadedMeaning(entries, lo, hi - 1);
      var s := LoadedIn(entries, lo, hi - 1);
      forall i | 0 <= i < |s| ensures s[i] < hi - 1 {
        LoadedMember(entries, lo, hi - 1, s[i]);
      }
    }
  }

  /** The loops together go from 0 to the end of the last one that runs. */
  lemma VisitedEnd(t: Table)
    requires InBounds(t)
    ensures Visited(t) == LoadedIn(t.entries, 0, if t.numloaded > t.staticmax then t.maxindex + 1 else t.staticmax)
  {
    if t.numloaded > t.staticmax {
      LoadedSplit(t.entries, 0, t.staticmax, t.maxindex + 1);
    }
  }

  /** The two loops visit every loaded policy exactly once: skipping the second one misses nothing. */
  lemma VisitsAll(t: Table)
    requires Inv(t)
    ensures InBounds(t) && Visited(t) == LoadedIn(t.entries, 0, |t.entries|)
  {
    ValidInBounds(t);
    VisitedEnd(t);
    CountPrefix(t.entries, t.staticmax);
    var end := if t.numloaded > t.staticmax then t.maxindex + 1 else t.staticmax;
    LoadedSplit(t.entries, 0, end, |t.entries|);
    LoadedNone(t.entries, end, |t.entries|);
  }

  // ---- The list itself --------------------------------------------------------------------------

  /** What a policy's operation answers, or that it has none. */
  datatype Answer = NoOperation | Returns(errno: int)

  /** The answers of the visited policies that have the operation. */
  function Consulted(visited: seq<int>, answers: seq<Answer>): seq<int> {
    if visited == [] then []
    else
      var h := visited[|visited| - 1];
      Consulted(visited[..|visited| - 1], answers) +
      if 0 <= h < |answers| && answers[h].Returns? then [answers[h].errno] else []
  }

  /** The answers of the loaded policies from handle 0 up to, not including, `hi`. */
  function ConsultedTo(entries: seq<Entry>, hi: int, answers: seq<Answer>): seq<int>
    requires hi <= |entries|
  {
    Consulted(LoadedIn(entries, 0, hi), answers)
  }

  class PolicyList {
    var entries: seq<Entry>
    var numloaded: int
    var max: int
    var maxindex: int
    var staticmax: int
    var chunks: int
    var freehint: int
    var slotsFree: seq<bool>
    var late: bool

    ghost function View(): Table
      reads this
    {
      Table(entries, numloaded, max, maxindex, staticmax, chunks, freehint, slotsFree, late)
    }

    ghost predicate Valid()
      reads this
    {
      Inv(View())
    }

    /** mac_policy_init. */
    constructor ()
      ensures View() == InitialTable() && Valid()
    {
      numloaded, max, maxindex, staticmax, freehint, chunks := 0, CHUNK, 0, 0, 0, 1;
      entries, slotsFree, late := Blank(CHUNK), seq(MAX_SLOTS, _ => true), false;
      new;
      InitialInv();
    }

    /** Lines 678-688: whether a policy of this name is loaded. */
    method FindName(name: string) returns (found: bool)
      requires Valid()
      ensures found <==> NameTaken(View(), name)
    {
      var i := 0;
      while i <= maxindex
        invariant 0 <= i <= maxindex + 1
        invariant forall j :: 0 <= j < i && entries[j].Loaded? ==> entries[j].conf.name != name
      {
        if entries[i].Loaded? && entries[i].conf.name == name {
          return true;
        }
        i := i + 1;
      }
      return false;
    }

    /** ffs on the free slots, less one. */
    method FindSlot() returns (slot: int)
      ensures slot == LowestSlot(slotsFree, 0)
    {
      slot := 0;
      while slot < |slotsFree| && !slotsFree[slot]
        invariant 0 <= slot <= |slotsFree| && LowestSlot(slotsFree, slot) == LowestSlot(slotsFree, 0)
      {
        slot := slot + 1;
      }
    }

    /** Lines 716-722: the first free handle from the hint on. */
    static method FindHandle(entries: seq<Entry>, hint: int, max: int) returns (h: int)
      requires 0 <= hint <= max == |entries|
      ensures h == FirstFree(entries, hint)
    {
      h := hint;
      while h < max && entries[h].Loaded?
        invariant hint <= h <= max && FirstFree(entries, h) == FirstFree(entries, hint)
      {
        h := h + 1;
      }
    }

    /** Lines 648-675. */
    method Grow()
      modifies this
      ensures View() == Grown(old(View()))
    {
      if numloaded >= max {
        entries := entries + Blank(CHUNK);
        max := max + CHUNK;
        chunks := chunks + 1;
      }
    }

    /** Lines 697-698 and 716-744. */
    method Place(conf: Conf, slot: int) returns (handle: int)
      requires Valid() && numloaded < max
      requires if conf.wantsSlot then slot == LowestSlot(slotsFree, 0) < |slotsFree| else slot == NO_SLOT
      modifies this
      ensures handle == FirstFree(old(entries), old(freehint)) < old(max)
      ensures View() == Placed(old(View()), conf, handle)
    {
      FreePlace(View());
      handle := FindHandle(entries, freehint, max);
      Fill(conf, slot, handle);
    }

    /** Takes the slot, and enters the policy at its handle. */
    method Fill(conf: Conf, slot: int, handle: nat)
      requires handle < |entries|
      requires if conf.wantsSlot then slot == LowestSlot(slotsFree, 0) < |slotsFree| else slot == NO_SLOT
      modifies this
      ensures View() == Placed(old(View()), conf, handle)
    {
      if conf.wantsSlot {
        slotsFree := slotsFree[slot := false];
      }
      freehint := handle + 1;
      if !late || (!conf.unloadOk && handle == staticmax) {
        staticmax := staticmax + 1;
      }
      entries := entries[handle := Loaded(conf, slot, true)];
      if handle > maxindex {
        maxindex := handle;
      }
      numloaded := numloaded + 1;
    }

    /** mac_policy_register, under the exclusive lock. */
    method RegisterPolicy(conf: Conf) returns (error: int, handle: int)
      requires Valid()
      modifies this
      ensures Valid() && View() == Register(old(View()), conf).0
      ensures Register(old(View()), conf).1 == if error == 0 then Done(handle) else Error(error)
    {
      RegisterKeeps(View(), conf);
      handle := -1;
      if late && conf.notLate {
        return EPERM, handle;
      }
      GrownKeeps(View());
      Grow();
      var taken := FindName(conf.name);
      if taken {
        return EEXIST, handle;
      }
      var slot := NO_SLOT;
      if conf.wantsSlot {
        slot := FindSlot();
        if slot == |slotsFree| {
          return ENOMEM, handle;
        }
      }
      handle := Place(conf, slot);
      error := 0;
    }

    /** Lines 815-829: takes the policy out. */
    method Vacate(handle: nat)
      requires Valid() && handle < max && entries[handle].Loaded?
      modifies this
      ensures View() == Removed(old(View()), handle)
    {
      var mpc := entries[handle];
      entries := entries[handle := Empty];
      if handle < freehint && handle >= staticmax {
        freehint := handle;
      }
      if handle == maxindex {
        maxindex := Decremented(maxindex);
      }
      numloaded := numloaded - 1;
      if mpc.conf.wantsSlot {
        slotsFree := slotsFree[mpc.slot := true];
      }
    }

    /** mac_policy_unregister, under the exclusive lock. */
    method UnregisterPolicy(handle: nat) returns (error: int)
      requires Valid() && max < WORD && handle < max && entries[handle].Loaded?
      modifies this
      ensures (View(), error) == Unregister(old(View()), handle)
      ensures error == if old(Refuses(entries[handle])) then EBUSY else 0
      ensures error != 0 ==> View() == old(View())
      ensures error == 0 && old(entries[handle].registered) ==> Vacated(old(View()), handle, View())
      ensures old(staticmax) <= handle && !(handle == 0 && old(maxindex) == 0) ==> Valid()
    {
      UnregisterOutcome(View(), handle);
      var mpc := entries[handle];
      if !mpc.registered {
        return 0;
      }
      if !mpc.conf.unloadOk {
        return EBUSY;
      }
      UnregisterKeepsIff(View(), handle);
      Vacate(handle);
      return 0;
    }

    /** mac_policy_list_conditional_busy, apart from the count: whether there are dynamic policies. */
    predicate HasDynamic()
      reads this
    {
      numloaded > staticmax
    }

    /** MAC_POLICY_ITERATE with a body that only notes the handle. */
    method Iterate() returns (visited: seq<int>)
      requires InBounds(View())
      ensures visited == Visited(View())
    {
      visited := [];
      var i := 0;
      while i < staticmax
        invariant 0 <= i <= staticmax && visited == LoadedIn(entries, 0, i)
      {
        if entries[i].Loaded? {
          visited := visited + [i];
        }
        i := i + 1;
      }
      if HasDynamic() {
        while i <= maxindex
          invariant staticmax <= i <= maxindex + 1 && visited == LoadedIn(entries, 0, i)
        {
          if entries[i].Loaded? {
            visited := visited + [i];
          }
          i := i + 1;
        }
      }
      VisitedEnd(View());
    }

    /** One of the two loops of MAC_CHECK, from handle lo up to, not including, hi. */
    method CheckLoop(lo: int, hi: int, answers: seq<Answer>, first: int) returns (error: int)
      requires 0 <= lo <= hi <= |entries| == |answers| && first == Check(ConsultedTo(entries, lo, answers))
      ensures error == Check(ConsultedTo(entries, hi, answers))
    {
      error := first;
      for i := lo to hi
        invariant error == Check(ConsultedTo(entries, i, answers))
      {
        ConsultNext(entries, i, answers);
        if entries[i].Loaded? && answers[i].Returns? {
          error := ErrorSelect(answers[i].errno, error);
        }
      }
    }

    /** MAC_CHECK. */
    method MacCheck(answers: seq<Answer>) returns (error: int)
      requires InBounds(View()) && |answers| == |entries|
      ensures error == Check(Consulted(Visited(View()), answers))
    {
      VisitedEnd(View());
      error := CheckLoop(0, staticmax, answers, 0);
      if HasDynamic() {
        error := CheckLoop(staticmax, maxindex + 1, answers, error);
      }
    }

    /** One of the two loops of MAC_GRANT. */
    method GrantLoop(lo: int, hi: int, answers: seq<Answer>, first: int) returns (error: int)
      requires 0 <= lo <= hi <= |entries| == |answers| && first == Grant(ConsultedTo(entries, lo, answers))
      ensures error == Grant(ConsultedTo(entries, hi, answers))
    {
      error := first;
      for i := lo to hi
        invariant error == Grant(ConsultedTo(entries, i, answers))
      {
        ConsultNext(entries, i, answers);
        if entries[i].Loaded? && answers[i].Returns? && answers[i].errno == 0 {
          error := 0;
        }
      }
    }

    /** MAC_GRANT. */
    method MacGrant(answers: seq<Answer>) returns (error: int)
      requires InBounds(View()) && |answers| == |entries|
      ensures error == Grant(Consulted(Visited(View()), answers))
    {
      VisitedEnd(View());
      error := GrantLoop(0, staticmax, answers, EPERM);
      if HasDynamic() {
        error := GrantLoop(staticmax, maxindex + 1, answers, error);
      }
    }
  }

  lemma ValidInBounds(t: Table)
    requires Inv(t)
    ensures InBounds(t)
  {
    CountPrefix(t.entries, t.staticmax);
  }

  /** What one more entry does to the answers, and to the decisions taken from them. */
  lemma ConsultNext(entries: seq<Entry>, i: nat, answers: seq<Answer>)
    requires i < |entries| == |answers|
    ensures var cs, cs' := ConsultedTo(entries, i, answers), ConsultedTo(entries, i + 1, answers);
            if entries[i].Loaded? && answers[i].Returns?
            then Check(cs') == ErrorSelect(answers[i].errno, Check(cs))
                 && Grant(cs') == if answers[i].errno == 0 then 0 else Grant(cs)
            else cs' == cs
  {
    var seen, seen' := LoadedIn(entries, 0, i), LoadedIn(entries, 0, i + 1);
    if entries[i].Loaded? {
      assert seen'[..|seen'| - 1] == seen;
      var cs := Consulted(seen, answers);
      if answers[i].Returns? {
        assert (cs + [answers[i].errno])[..|cs|] == cs;
      }
    } else {
      assert seen' == seen;
    }
  }

  /** A policy is consulted when it is loaded and has the operation. */
  ghost predicate Answers(t: Table, answers: seq<Answer>, h: int, e: int) {
    0 <= h < |t.entries| && h < |answers| && t.entries[h].Loaded? && answers[h] == Returns(e)
  }

  lemma {:induction false} ConsultedMember(visited: seq<int>, answers: seq<Answer>, e: int)
    ensures e in Consulted(visited, answers)
            <==> exists h :: h in visited && 0 <= h < |answers| && answers[h] == Returns(e)
    decreases |visited|
  {
    if visited != [] {
      var n := |visited| - 1;
      ConsultedMember(visited[..n], answers, e);
      assert visited == visited[..n] + [visited[n]];
    }
  }

  lemma ConsultedAll(t: Table, answers: seq<Answer>, e: int)
    requires Inv(t) && |answers| == |t.entries|
    ensures e in Consulted(Visited(t), answers) <==> exists h :: Answers(t, answers, h, e)
  {
    VisitsAll(t);
    LoadedMeaning(t.entries, 0, |t.entries|);
    ConsultedMember(Visited(t), answers, e);
    if exists h :: Answers(t, answers, h, e) {
      var h :| Answers(t, answers, h, e);
      assert h in Visited(t);
    }
    if e in Consulted(Visited(t), answers) {
      var h :| h in Visited(t) && 0 <= h < |answers| && answers[h] == Returns(e);
      assert Answers(t, answers, h, e);
    }
  }

  /**
   The whole of MAC_CHECK over the whole list: it passes exactly when every loaded policy with
   the operation answers 0, and otherwise its answer is that of some such policy, with no other
   policy's answer of higher precedence.
   */
  lemma CheckDecides(t: Table, answers: seq<Answer>)
    requires Inv(t) && |answers| == |t.entries|
    ensures var error := Check(Consulted(Visited(t), answers));
            && (error == 0 <==> forall h, e :: Answers(t, answers, h, e) ==> e == 0)
            && (error != 0 ==> exists h :: Answers(t, answers, h, error))
            && (forall h, e :: Answers(t, answers, h, e) ==> Rank(e) <= Rank(error))
  {
    var cs := Consulted(Visited(t), answers);
    CheckResult(cs);
    ConsultedAll(t, answers, Check(cs));
    forall h, e | Answers(t, answers, h, e)
      ensures Rank(e) <= Rank(Check(cs)) && (Check(cs) == 0 ==> e == 0)
    {
      ConsultedAll(t, answers, e);
      var i :| 0 <= i < |cs| && cs[i] == e;
    }
    if forall h, e :: Answers(t, answers, h, e) ==> e == 0 {
      forall i | 0 <= i < |cs| ensures cs[i] == 0 {
        ConsultedAll(t, answers, cs[i]);
        var h :| Answers(t, answers, h, cs[i]);
      }
    }
  }

  /** MAC_GRANT over the whole list: granted exactly when some loaded policy grants, else EPERM. */
  lemma GrantDecides(t: Table, answers: seq<Answer>)
    requires Inv(t) && |answers| == |t.entries|
    ensures Grant(Consulted(Visited(t), answers)) == if exists h :: Answers(t, answers, h, 0) then 0 else EPERM
  {
    GrantResult(Consulted(Visited(t), answers));
    ConsultedAll(t, answers, 0);
  }
}
