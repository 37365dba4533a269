/**
 The kcdata reader: item headers, iterators over a chunk of memory, and the size and array
 rules that turn a padded item back into what was stored.
 */
module Kcdata {
  import opened Bytes

  /** sizeof(struct kcdata_item). */
  const HEADER := 16

  const BUFFER_END := 0xF19158ED
  const ARRAY := 0x11
  const CONTAINER_BEGIN := 0x13
  const CONTAINER_END := 0x14
  const ARRAY_PAD0 := 0x20
  const THREAD_SNAPSHOT := 0x906
  const SHAREDCACHE_LOADINFO := 0x908
  const HAS_PADDING := 0x80

  /** sizeof(struct thread_snapshot_v2) and sizeof(struct dyld_uuid_info_64). */
  const LEGACY_THREAD_SNAPSHOT := 104
  const LEGACY_LOADINFO := 24

  /** struct kcdata_item, without the data that follows it. */
  datatype Item = Item(itype: nat, size: nat, flags: nat)

  /** struct kcdata_iter: two addresses. */
  datatype Iter = Iter(item: nat, end: nat)

  /** kcdata_invalid_iter. */
  const INVALID := Iter(0, 0)

  /** The 32-bit little-endian word at an address. */
  function Word(mem: seq<Byte>, p: nat): (w: nat)
    requires p + 4 <= |mem|
    ensures w < WORD
  {
    mem[p] as int + 0x100 * mem[p + 1] as int + 0x1_0000 * mem[p + 2] as int + 0x100_0000 * mem[p + 3] as int
  }

  function HeaderAt(mem: seq<Byte>, p: nat): (h: Item)
    requires p + HEADER <= |mem|
    ensures h.itype < WORD && h.size < WORD && h.flags < WORD * WORD
  {
    Item(Word(mem, p), Word(mem, p + 4), Word(mem, p + 8) + WORD * Word(mem, p + 12))
  }

  /** kcdata_iter_valid. */
  predicate Valid(mem: seq<Byte>, it: Iter)
    requires it.end <= |mem|
  {
    it.item + HEADER <= it.end && it.item + HEADER + HeaderAt(mem, it.item).size <= it.end
  }

  /** kcdata_iter_next. */
  function Next(mem: seq<Byte>, it: Iter): Iter
    requires it.item + HEADER <= it.end <= |mem|
  {
    Iter(it.item + HEADER + HeaderAt(mem, it.item).size, it.end)
  }

  /** kcdata_iter_type. */
  function TypeOf(h: Item): nat {
    if h.itype / 16 == ARRAY_PAD0 / 16 then ARRAY else h.itype
  }

  /** An iterator takes the sixteen types of padded arrays for arrays, and every other type for itself. */
  lemma TypeOfIff(h: Item, t: nat)
    ensures TypeOf(h) == t <==> if ARRAY_PAD0 <= h.itype < ARRAY_PAD0 + 16 then t == ARRAY else t == h.itype
  {
  }

  /** The guard of KCDATA_ITER_FOREACH. */
  predicate More(mem: seq<Byte>, it: Iter)
    requires it.end <= |mem|
  {
    Valid(mem, it) && HeaderAt(mem, it.item).itype != BUFFER_END
  }

  /** KCDATA_ITER_FOREACH_FAILED. */
  predicate Failed(mem: seq<Byte>, it: Iter)
    requires it.end <= |mem|
  {
    !Valid(mem, it) || HeaderAt(mem, it.item).itype != BUFFER_END
  }

  /** The addresses at which KCDATA_ITER_FOREACH runs its body. */
  function Visited(mem: seq<Byte>, it: Iter): seq<nat>
    requires it.end <= |mem|
    decreases it.end - it.item
  {
    if More(mem, it) then [it.item] + Visited(mem, Next(mem, it)) else []
  }

  /** The iterator that KCDATA_ITER_FOREACH leaves behind. */
  function Final(mem: seq<Byte>, it: Iter): (r: Iter)
    requires it.end <= |mem|
    ensures r.end == it.end && !More(mem, r)
    decreases it.end - it.item
  {
    if More(mem, it) then Final(mem, Next(mem, it)) else it
  }

  /** The header and the payload of the item at `p` lie in `[from..end]`. */
  ghost predicate Inside(mem: seq<Byte>, from: nat, end: nat, p: nat) {
    from <= p && p + HEADER <= end <= |mem| && p + HEADER + HeaderAt(mem, p).size <= end
  }

  /** Each item begins where the one before it ends. */
  ghost predicate Adjacent(mem: seq<Byte>, from: nat, end: nat, ps: seq<nat>) {
    && (forall k :: 0 <= k < |ps| ==> Inside(mem, from, end, ps[k]))
    && (forall k :: 0 < k < |ps| ==> ps[k] == ps[k - 1] + HEADER + HeaderAt(mem, ps[k - 1]).size)
  }

  /**
   Whatever the memory holds, a walk stays inside the bounds it was given, visits adjacent items,
   takes at most one step for every 16 bytes, and stops at an end marker or at an item that does
   not fit.
   */
  lemma {:induction false} WalkStaysInside(mem: seq<Byte>, it: Iter)
    requires it.item <= it.end <= |mem|
    ensures var ps := Visited(mem, it);
            && |ps| <= (it.end - it.item) / 16
            && Adjacent(mem, it.item, it.end, ps)
            && (ps != [] ==> ps[0] == it.item)
    decreases it.end - it.item
  {
    if More(mem, it) {
      var next := Next(mem, it);
      WalkStaysInside(mem, next);
      var ps, qs := Visited(mem, it), Visited(mem, next);
      assert ps[0] == it.item && ps[1..] == qs;
      forall k | 0 <= k < |ps| ensures Inside(mem, it.item, it.end, ps[k]) {
        if k > 0 { assert ps[k] == qs[k - 1] && Inside(mem, next.item, next.end, qs[k - 1]); }
      }
      forall k | 0 < k < |ps| ensures ps[k] == ps[k - 1] + HEADER + HeaderAt(mem, ps[k - 1]).size {
        assert ps[k] == qs[k - 1];
        if k > 1 { assert ps[k - 1] == qs[k - 2]; }
      }
    }
  }

  /** The item at `ps[k]` is the first of type `t` among the items at `ps`. */
  ghost predicate FirstOfType(mem: seq<Byte>, ps: seq<nat>, t: nat, k: nat) {
    && k < |ps|
    && (forall j :: 0 <= j <= k ==> ps[j] + HEADER <= |mem|)
    && TypeOf(HeaderAt(mem, ps[k])) == t
    && (forall j :: 0 <= j < k ==> TypeOf(HeaderAt(mem, ps[j])) != t)
  }

  ghost predicate NoneOfType(mem: seq<Byte>, ps: seq<nat>, t: nat) {
    forall j :: 0 <= j < |ps| ==> ps[j] + HEADER <= |mem| && TypeOf(HeaderAt(mem, ps[j])) != t
  }

  /** kcdata_iter_find_type. */
  method FindType(mem: seq<Byte>, start: Iter, t: nat) returns (r: Iter)
    requires start.end <= |mem|
    ensures var ps := Visited(mem, start);
            || (NoneOfType(mem, ps, t) && r == INVALID)
            || (exists k: nat :: FirstOfType(mem, ps, t, k) && r == Iter(ps[k], start.end))
  {
    var it := start;
    ghost var ps := Visited(mem, start);
    ghost var n := 0;
    while More(mem, it)
      invariant it.end == start.end && n <= |ps|
      invariant ps[n..] == Visited(mem, it)
      invariant NoneOfType(mem, ps[..n], t)
      decreases it.end - it.item
    {
      assert ps[n] == ps[n..][0] == it.item;
      if TypeOf(HeaderAt(mem, it.item)) == t {
        assert forall j :: 0 <= j < n ==> ps[j] == ps[..n][j];
        assert FirstOfType(mem, ps, t, n);
        return it;
      }
      assert ps[n + 1..] == ps[n..][1..];
      assert ps[..n + 1] == ps[..n] + [it.item];
      it := Next(mem, it);
      n := n + 1;
    }
    assert ps[..n] == ps;
    r := INVALID;
  }

  /** kcdata_calc_padding: what rounds a size up to a multiple of 16. */
  function CalcPadding(size: nat): (pad: nat)
    ensures pad < 16 && (size + pad) % 16 == 0
  {
    (-(size as int)) % 16
  }

  /** kcdata_iter_is_legacy_item. */
  predicate IsLegacy(h: Item, legacySize: nat) {
    h.size == legacySize + CalcPadding(legacySize) && h.flags % 16 == 0 && h.flags / HAS_PADDING % 2 == 0
  }

  /** kcdata_iter_size. */
  function SizeOf(h: Item): nat {
    if TypeOf(h) == ARRAY || TypeOf(h) == CONTAINER_BEGIN then h.size
    else if TypeOf(h) == THREAD_SNAPSHOT && IsLegacy(h, LEGACY_THREAD_SNAPSHOT) then LEGACY_THREAD_SNAPSHOT
    else if TypeOf(h) == SHAREDCACHE_LOADINFO && IsLegacy(h, LEGACY_LOADINFO) then LEGACY_LOADINFO
    else if h.size < h.flags % 16 then 0
    else h.size - h.flags % 16
  }

  /**
   The size an iterator reports never exceeds the stored one and drops fewer than 16 bytes: for arrays
   and containers none, for others what the flags say or all there is, legacy structures apart.
   */
  lemma SizeDropsPaddingOnly(h: Item)
    ensures SizeOf(h) <= h.size < SizeOf(h) + 16
    ensures TypeOf(h) in {ARRAY, CONTAINER_BEGIN} ==> SizeOf(h) == h.size
    ensures TypeOf(h) !in {ARRAY, CONTAINER_BEGIN} && (h.flags % 16 != 0 || h.flags / HAS_PADDING % 2 == 1) ==>
              h.size - SizeOf(h) == if h.size < h.flags % 16 then h.size else h.flags % 16
    ensures TypeOf(h) !in {ARRAY, CONTAINER_BEGIN, THREAD_SNAPSHOT, SHAREDCACHE_LOADINFO} && h.flags % 16 == 0 ==>
              SizeOf(h) == h.size
  {
  }

  /** The flags that kcdata_get_memory_addr stores with a structure. */
  function StructFlags(size: nat): nat { CalcPadding(size) + HAS_PADDING }

  /**
   A structure reads back with the size it was stored with, for every type that is not an array or
   the beginning of a container, the two legacy types included; those others read back the padded
   size.
   */
  lemma StructSizeReadBack(t: nat, size: nat)
    ensures SizeOf(Item(t, size + CalcPadding(size), StructFlags(size))) == size
            <==> (t != ARRAY && t / 16 != 2 && t != CONTAINER_BEGIN) || size % 16 == 0
  {
  }

  /** What an old kernel stored, a legacy structure without the padding flag, reads back too. */
  lemma LegacySizeReadBack(t: nat, size: nat)
    requires || (t == THREAD_SNAPSHOT && size == LEGACY_THREAD_SNAPSHOT)
             || (t == SHAREDCACHE_LOADINFO && size == LEGACY_LOADINFO)
    ensures SizeOf(Item(t, size + CalcPadding(size), 0)) == size
  {
  }

  /** kcdata_iter_array_elem_type and kcdata_iter_array_elem_count. */
  function ElemType(h: Item): nat { h.flags / WORD % WORD }
  function ElemCount(h: Item): nat { h.flags % WORD }

  /** kcdata_iter_array_size_switch: element sizes in arrays of old kernels. */
  function OldElemSize(elemType: nat): nat {
    if elemType == 0x30 then 20
    else if elemType == 0x31 then 24
    else if elemType == 0x90A || elemType == 0x90C then 8
    else if elemType == 0x90B || elemType == 0x90D then 16
    else if elemType == 0x907 then 4
    else if elemType == 0x941 then 48
    else if elemType == 0x81A then 8
    else 0
  }

  /** kcdata_iter_array_valid, after the check that the iterator is valid. */
  predicate ArrayShape(h: Item) {
    if TypeOf(h) != ARRAY then false
    else if ElemCount(h) == 0 then h.size == 0
    else if h.itype == ARRAY then
      var elem := OldElemSize(ElemType(h));
      elem != 0 && ElemCount(h) <= h.size / elem && h.size % ElemCount(h) < 16
    else
      && h.itype % 16 <= h.size
      && ElemCount(h) <= h.size - h.itype % 16
      && (h.size - h.itype % 16) % ElemCount(h) == 0
  }

  /** kcdata_iter_array_valid. */
  predicate ArrayValid(mem: seq<Byte>, it: Iter)
    requires it.end <= |mem|
  {
    Valid(mem, it) && ArrayShape(HeaderAt(mem, it.item))
  }

  /** kcdata_iter_array_elem_size, with the wrap-around of its 32-bit subtraction. */
  function ElemSize(h: Item): nat {
    if h.itype == ARRAY then OldElemSize(ElemType(h))
    else if ElemCount(h) == 0 then 0
    else (h.size - h.itype % 16) % WORD / ElemCount(h)
  }

  lemma DivTimes(a: nat, b: nat)
    requires b > 0
    ensures a / b * b <= a
    ensures a % b == 0 <==> a / b * b == a
  {
  }

  lemma TimesMonotone(a: nat, b: nat, c: nat)
    requires a <= b
    ensures a * c <= b * c
  {
  }

  /** The elements of a well-shaped array, and for a padded array its padding, make up its payload. */
  lemma ArrayFits(h: Item)
    requires h.size < WORD && ArrayShape(h)
    ensures ElemCount(h) * ElemSize(h) <= h.size
    ensures h.itype != ARRAY && ElemCount(h) > 0 ==> ElemCount(h) * ElemSize(h) + h.itype % 16 == h.size
  {
    var count, elem := ElemCount(h), ElemSize(h);
    if count == 0 {
      assert count * elem == 0;
    } else if h.itype == ARRAY {
      DivTimes(h.size, elem);
      TimesMonotone(count, h.size / elem, elem);
    } else {
      var body := h.size - h.itype % 16;
      assert body % WORD == body;
      DivTimes(body, count);
    }
  }

  /** The elements of an array that passes the check lie inside the memory that was given. */
  lemma ArrayInside(mem: seq<Byte>, it: Iter)
    requires it.end <= |mem| && ArrayValid(mem, it)
    ensures var h := HeaderAt(mem, it.item);
            it.item + HEADER + ElemCount(h) * ElemSize(h) <= it.end
  {
    ArrayFits(HeaderAt(mem, it.item));
  }

  /** The header of an array, as kcdata_get_memory_addr_for_array has it stored. */
  function ArrayHeader(elemType: nat, elemSize: nat, count: nat): Item {
    var total := count * elemSize % WORD;
    Item(ARRAY_PAD0 + CalcPadding(total), total + CalcPadding(total), elemType * WORD + count)
  }

  /** An array header reads back its element type and count, and its padding is found in its type. */
  lemma ArrayHeaderReadBack(elemType: nat, elemSize: nat, count: nat)
    requires elemType < WORD && elemSize < WORD && count < WORD
    ensures var h := ArrayHeader(elemType, elemSize, count);
            var total := count * elemSize % WORD;
            && ElemType(h) == elemType && ElemCount(h) == count && TypeOf(h) == ARRAY && h.itype != ARRAY
            && h.itype % 16 == CalcPadding(total) && h.size - h.itype % 16 == total
  {
  }

  lemma ExactQuotient(count: nat, elemSize: nat, total: nat)
    requires count > 0
    ensures total == count * elemSize ==> total % count == 0 && total / count == elemSize
    ensures total % count == 0 && total / count == elemSize ==> total == count * elemSize
  {
    DivTimes(total, count);
    if total == count * elemSize {
      var q := total / count;
      assert total == q * count + total % count;
      assert (elemSize - q) * count == total % count;
      if elemSize > q { TimesMonotone(1, elemSize - q, count); }
      if elemSize < q { TimesMonotone(1, q - elemSize, count); }
    }
  }

  /**
   An array of at least one element reads back valid and with its element size exactly when the
   elements are not empty and their sizes add up below 2^32.
   */
  lemma ArrayReadBack(elemType: nat, elemSize: nat, count: nat)
    requires elemType < WORD && elemSize < WORD && 0 < count < WORD
    ensures var h := ArrayHeader(elemType, elemSize, count);
            ArrayShape(h) && ElemSize(h) == elemSize <==> elemSize > 0 && count * elemSize < WORD
  {
    var h := ArrayHeader(elemType, elemSize, count);
    var total := count * elemSize % WORD;
    ArrayHeaderReadBack(elemType, elemSize, count);
    ExactQuotient(count, elemSize, total);
    assert total % WORD == total;
    if elemSize == 0 {
      assert total == 0;
    } else {
      TimesMonotone(1, elemSize, count);
    }
  }

  /** The header of an array as old kernels stored it, padded and without a word about the padding. */
  function OldArrayHeader(elemType: nat, count: nat): Item {
    var total := count * OldElemSize(elemType);
    Item(ARRAY, total + CalcPadding(total), elemType * WORD + count)
  }

  lemma OldTypeAndCount(elemType: nat, count: nat)
    requires elemType < WORD && count < WORD
    ensures var h := OldArrayHeader(elemType, count);
            ElemType(h) == elemType && ElemCount(h) == count && TypeOf(h) == ARRAY
  {
  }

  /** The remainder of the padded size is that of the padding. */
  lemma PaddedRemainder(count: nat, e: nat, pad: nat)
    requires count > 0
    ensures (count * e + pad) % count == pad % count <= pad
  {
    var n := count * e + pad;
    var q, r := pad / count, pad % count;
    DivTimes(n, count);
    assert n == (e + q) * count + r;
    var d := n / count - (e + q);
    assert d * count == r - n % count;
    if d > 0 { TimesMonotone(1, d, count); }
    if d < 0 { TimesMonotone(1, -d, count); }
  }

  lemma AtLeastQuotient(count: nat, e: nat, size: nat)
    requires e > 0 && count * e <= size
    ensures count <= size / e
  {
    DivTimes(size, e);
    if count > size / e {
      TimesMonotone(size / e + 1, count, e);
    }
  }

  /** An old array of at least one element is valid and reads back, exactly when its element type is a known one. */
  lemma OldArrayReadBack(elemType: nat, count: nat)
    requires elemType < WORD && 0 < count < WORD
    ensures var h, e := OldArrayHeader(elemType, count), OldElemSize(elemType);
            && ElemType(h) == elemType && ElemCount(h) == count && ElemSize(h) == e
            && (ArrayShape(h) <==> e > 0)
            && h.size % count == CalcPadding(count * e) % count
  {
    var e := OldElemSize(elemType);
    OldTypeAndCount(elemType, count);
    PaddedRemainder(count, e, CalcPadding(count * e));
    if e > 0 {
      AtLeastQuotient(count, e, count * e + CalcPadding(count * e));
    }
  }

  /** The element types of old arrays. */
  lemma OldTypes(elemType: nat)
    ensures OldElemSize(elemType) > 0
            <==> elemType in {0x30, 0x31, 0x81A, 0x907, 0x90A, 0x90B, 0x90C, 0x90D, 0x941}
  {
  }

  /** An array whose element type is not one of them is not valid, unless it is empty. */
  lemma UnknownOldArray(h: Item)
    requires h.itype == ARRAY && OldElemSize(ElemType(h)) == 0
    ensures ArrayShape(h) <==> ElemCount(h) == 0 && h.size == 0
  {
  }

  /** Three pids of four bytes, padded to sixteen. */
  lemma OldArrayExample()
    ensures OldArrayHeader(0x907, 3) == Item(ARRAY, 16, 0x907 * WORD + 3) && ArrayShape(OldArrayHeader(0x907, 3))
  {
    OldArrayReadBack(0x907, 3);
  }

  /** An array of no elements is stored with no payload and reads back valid. */
  lemma EmptyArrayReadBack(elemType: nat, elemSize: nat)
    requires elemType < WORD && elemSize < WORD
    ensures var h := ArrayHeader(elemType, elemSize, 0);
            h.size == 0 && ArrayShape(h) && ElemCount(h) == 0 && ElemType(h) == elemType
  {
  }
}
