/**
 Labels: one word for each label slot.  A word of ~0 stands for "nothing stored", so that a
 label reads as 0 in every slot until a policy stores something.
 */
module MacLabel {
  import opened MacPolicyTable

  /** MAC_LABEL_NULL_SLOT, ~0 as a signed word. */
  const NULL_SLOT := -1

  /** mac_label_slot_encode. */
  function Encode(p: int): int { if p != 0 then p else NULL_SLOT }

  /** mac_label_slot_decode. */
  function Decode(p: int): int {
    if p == 0 then NULL_SLOT else if p == NULL_SLOT then 0 else p
  }

  /** Decoding undoes encoding exactly for the values that mac_label_set accepts. */
  lemma DecodeEncode(v: int)
    ensures Decode(Encode(v)) == v <==> v != NULL_SLOT
  {
  }

  /** Decoding swaps 0 and ~0, so that no two words read as the same value. */
  lemma DecodeTwice(p: int, q: int)
    ensures Decode(Decode(p)) == p && (Decode(p) == Decode(q) <==> p == q)
  {
  }

  /** A stored word is never 0, which decodes to the value that cannot be stored. */
  lemma StoredIsNotZero(v: int)
    ensures Encode(v) != 0 && (v != NULL_SLOT ==> Decode(Encode(v)) != NULL_SLOT)
  {
  }

  class Label {
    var perpolicy: seq<int>

    ghost predicate Valid()
      reads this
    {
      |perpolicy| == MAX_SLOTS && forall s :: 0 <= s < MAX_SLOTS ==> perpolicy[s] != 0
    }

    /** What a slot reads as. */
    ghost function Value(s: int): int
      requires 0 <= s < |perpolicy|
      reads this
    {
      Decode(perpolicy[s])
    }

    /** mac_labelzone_alloc: empty_label. */
    constructor ()
      ensures Valid() && forall s :: 0 <= s < MAX_SLOTS ==> Value(s) == 0
    {
      perpolicy := seq(MAX_SLOTS, _ => NULL_SLOT);
    }

    /** mac_label_get. */
    method Get(slot: int) returns (v: int)
      requires Valid() && 0 <= slot < MAX_SLOTS
      ensures v == Value(slot) && v != NULL_SLOT
    {
      v := Decode(perpolicy[slot]);
    }

    /** mac_label_set, which panics on ~0. */
    method Set(slot: int, v: int)
      requires Valid() && 0 <= slot < MAX_SLOTS && v != NULL_SLOT
      modifies this
      ensures Valid() && Value(slot) == v
      ensures forall s :: 0 <= s < MAX_SLOTS && s != slot ==> Value(s) == old(Value(s))
    {
      StoredIsNotZero(v);
      perpolicy := perpolicy[slot := Encode(v)];
    }
  }

  /** The slots of two loaded policies are different. */
  lemma SlotsAreDistinct(t: Table, p: nat, q: nat)
    requires Inv(t) && p < |t.entries| && q < |t.entries| && p != q
    requires t.entries[p].Loaded? && t.entries[p].conf.wantsSlot
    requires t.entries[q].Loaded? && t.entries[q].conf.wantsSlot
    ensures 0 <= t.entries[p].slot < MAX_SLOTS && 0 <= t.entries[q].slot < MAX_SLOTS
    ensures t.entries[p].slot != t.entries[q].slot
  {
    var s := t.entries[p].slot;
    assert Owns(t.entries[p], s);
    if t.entries[q].slot == s {
      assert Owns(t.entries[q], s);
    }
  }

  /** What policy p stores under its slot, no other loaded policy reads. */
  method SetAs(lab: Label, ghost t: Table, ghost p: nat, slot: int, v: int)
    requires lab.Valid() && Inv(t) && p < |t.entries| && t.entries[p].Loaded? && t.entries[p].conf.wantsSlot
    requires slot == t.entries[p].slot && v != NULL_SLOT
    modifies lab
    ensures lab.Valid()
    ensures 0 <= slot < MAX_SLOTS && lab.Value(slot) == v
    ensures forall q :: 0 <= q < |t.entries| && q != p && t.entries[q].Loaded? && t.entries[q].conf.wantsSlot ==>
              0 <= t.entries[q].slot < MAX_SLOTS && lab.Value(t.entries[q].slot) == old(lab.Value(t.entries[q].slot))
  {
    lab.Set(slot, v);
    forall q | 0 <= q < |t.entries| && q != p && t.entries[q].Loaded? && t.entries[q].conf.wantsSlot
      ensures t.entries[q].slot != slot && 0 <= t.entries[q].slot < MAX_SLOTS
    {
      SlotsAreDistinct(t, p, q);
    }
  }
}
