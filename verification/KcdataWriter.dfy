/**
 The kernel's kcdata writer without compression and without an allocation callback: a descriptor of
 a buffer to which items are appended.
 */
module KcdataWriter {
  import opened Bytes
  import opened Kcdata
  import opened KcdataLayout

  datatype KernReturn = Success | InvalidArgument | InsufficientBufferSize

  /** The memory after `bytes` were copied to `p`. */
  function Splice(mem: seq<Byte>, p: nat, bytes: seq<Byte>): (r: seq<Byte>)
    requires p + |bytes| <= |mem|
    ensures |r| == |mem|
  {
    mem[..p] + bytes + mem[p + |bytes|..]
  }

  lemma SpliceHas(mem: seq<Byte>, p: nat, bytes: seq<Byte>)
    requires p + |bytes| <= |mem|
    ensures At(Splice(mem, p, bytes), p, bytes)
  {
  }

  lemma SpliceKeeps(mem: seq<Byte>, p: nat, bytes: seq<Byte>, q: nat, kept: seq<Byte>)
    requires p + |bytes| <= |mem| && At(mem, q, kept)
    requires q + |kept| <= p || p + |bytes| <= q
    ensures At(Splice(mem, p, bytes), q, kept)
  {
  }

  /** Both memories agree outside `[from..to]`. */
  ghost predicate SameOutside(mem: seq<Byte>, r: seq<Byte>, from: nat, to: nat) {
    from <= to <= |mem| == |r| && r[..from] == mem[..from] && r[to..] == mem[to..]
  }

  lemma SpliceOutside(mem: seq<Byte>, p: nat, bytes: seq<Byte>, from: nat, to: nat)
    requires from <= p && p + |bytes| <= to <= |mem|
    ensures SameOutside(mem, Splice(mem, p, bytes), from, to)
  {
  }

  /** Two changes, one behind the other. */
  lemma OutsideBoth(a: seq<Byte>, b: seq<Byte>, c: seq<Byte>, from: nat, mid: nat, to: nat)
    requires SameOutside(a, b, from, mid) && SameOutside(b, c, mid, to)
    ensures SameOutside(a, c, from, to)
  {
  }

  /** The header and the padding of a record around data that is there already. */
  function Framed(mem: seq<Byte>, p: nat, h: Item, padding: nat): (r: seq<Byte>)
    requires Fits(h) && padding <= h.size && p + HEADER + h.size <= |mem|
    ensures |r| == |mem|
  {
    Splice(Splice(mem, p, HeaderBytes(h)), p + HEADER + h.size - padding, Repeat(0, padding))
  }

  lemma FramedRecord(mem: seq<Byte>, p: nat, r: Record)
    requires Fits(HeaderOf(r)) && p + HEADER + Padded(r) <= |mem| && At(mem, p + HEADER, r.data)
    ensures RecordAt(Framed(mem, p, HeaderOf(r), CalcPadding(|r.data|)), p, r)
  {
    var h, pad := HeaderBytes(HeaderOf(r)), Repeat(0, CalcPadding(|r.data|));
    var m1, z := Splice(mem, p, h), p + HEADER + |r.data|;
    SpliceHas(mem, p, h);
    SpliceKeeps(mem, p, h, p + HEADER, r.data);
    SpliceHas(m1, z, pad);
    SpliceKeeps(m1, z, pad, p, h);
    SpliceKeeps(m1, z, pad, p + HEADER, r.data);
    HeaderReadBack(Splice(m1, z, pad), p, HeaderOf(r));
  }

  lemma FramedOutside(mem: seq<Byte>, p: nat, h: Item, padding: nat)
    requires Fits(h) && padding <= h.size && p + HEADER + h.size <= |mem|
    ensures SameOutside(mem, Framed(mem, p, h, padding), p, p + HEADER + h.size)
  {
  }

  /** A record before the part that changes stays. */
  lemma RecordKept(mem: seq<Byte>, r: seq<Byte>, from: nat, to: nat, p: nat, rec: Record)
    requires SameOutside(mem, r, from, to) && RecordAt(mem, p, rec) && p + HEADER + Padded(rec) <= from
    ensures RecordAt(r, p, rec)
  {
    assert forall k :: 0 <= k < from ==> r[k] == r[..from][k] == mem[..from][k] == mem[k];
    assert HeaderAt(r, p) == HeaderAt(mem, p);
    var d, z := p + HEADER, p + HEADER + |rec.data|;
    assert r[d..z] == mem[d..z];
    assert r[z..z + CalcPadding(|rec.data|)] == mem[z..z + CalcPadding(|rec.data|)];
  }

  lemma InPlaceKept(mem: seq<Byte>, r: seq<Byte>, begin: nat, rs: seq<Record>, to: nat)
    requires SameOutside(mem, r, Place(begin, rs, |rs|), to) && InPlace(mem, begin, rs)
    ensures InPlace(r, begin, rs)
  {
    forall k | 0 <= k < |rs| ensures RecordAt(r, Place(begin, rs, k), rs[k]) {
      PlaceOrder(begin, rs, k, |rs|);
      assert RecordAt(mem, Place(begin, rs, k), rs[k]);
      RecordKept(mem, r, Place(begin, rs, |rs|), to, Place(begin, rs, k), rs[k]);
    }
  }

  lemma InPlaceSnoc(mem: seq<Byte>, begin: nat, rs: seq<Record>, r: Record)
    requires InPlace(mem, begin, rs) && RecordAt(mem, Place(begin, rs, |rs|), r)
    ensures InPlace(mem, begin, rs + [r])
    ensures Place(begin, rs + [r], |rs| + 1) == Place(begin, rs, |rs|) + HEADER + Padded(r)
  {
    var all := rs + [r];
    SamePlace(begin, rs, all, |rs|);
    forall k | 0 <= k < |all| ensures RecordAt(mem, Place(begin, all, k), all[k]) {
      if k < |rs| {
        SamePlace(begin, rs, all, k);
        assert RecordAt(mem, Place(begin, rs, k), rs[k]);
      }
    }
  }

  lemma LastAt(mem: seq<Byte>, begin: nat, rs: seq<Record>, r: Record)
    requires InPlace(mem, begin, rs + [r])
    ensures InPlace(mem, begin, rs) && RecordAt(mem, Place(begin, rs, |rs|), r)
    ensures Place(begin, rs + [r], |rs| + 1) == Place(begin, rs, |rs|) + HEADER + Padded(r)
  {
    var all := rs + [r];
    SamePlace(begin, rs, all, |rs|);
    assert RecordAt(mem, Place(begin, all, |rs|), all[|rs|]);
    forall k | 0 <= k < |rs| ensures RecordAt(mem, Place(begin, rs, k), rs[k]) {
      SamePlace(begin, rs, all, k);
      assert RecordAt(mem, Place(begin, all, k), all[k]);
    }
  }

  /** An end marker behind the part that changes stays. */
  lemma EndKept(mem: seq<Byte>, r: seq<Byte>, from: nat, to: nat, p: nat)
    requires SameOutside(mem, r, from, to) && EndAt(mem, p) && to <= p
    ensures EndAt(r, p)
  {
  }

  /** Copying data of the same size over a record's data replaces it. */
  lemma DataReplaced(mem: seq<Byte>, p: nat, r: Record, data: seq<Byte>)
    requires RecordAt(mem, p, r) && |data| == |r.data|
    ensures RecordAt(Splice(mem, p + HEADER, data), p, r.(data := data))
  {
  }

  /** The memory holds the records up to `end`. */
  ghost predicate Filled(mem: seq<Byte>, begin: nat, rs: seq<Record>, end: nat) {
    InPlace(mem, begin, rs) && end == Place(begin, rs, |rs|)
  }

  /** A record behind the others, when nothing before it has changed. */
  lemma FilledSnoc(mem: seq<Byte>, m: seq<Byte>, begin: nat, rs: seq<Record>, r: Record, p: nat, to: nat)
    requires Filled(mem, begin, rs, p) && SameOutside(mem, m, p, to) && RecordAt(m, p, r)
    ensures Filled(m, begin, rs + [r], p + HEADER + Padded(r))
  {
    InPlaceKept(mem, m, begin, rs, to);
    InPlaceSnoc(m, begin, rs, r);
  }

  /** Framing the next record appends it. */
  lemma Appended(mem: seq<Byte>, begin: nat, rs: seq<Record>, r: Record, end: nat)
    requires Filled(mem, begin, rs, end)
    requires Fits(HeaderOf(r)) && end + HEADER + Padded(r) <= |mem| && At(mem, end + HEADER, r.data)
    ensures Filled(Framed(mem, end, HeaderOf(r), CalcPadding(|r.data|)), begin, rs + [r], end + HEADER + Padded(r))
  {
    var m := Framed(mem, end, HeaderOf(r), CalcPadding(|r.data|));
    FramedRecord(mem, end, r);
    FramedOutside(mem, end, HeaderOf(r), CalcPadding(|r.data|));
    FilledSnoc(mem, m, begin, rs, r, end, end + HEADER + Padded(r));
  }

  /** Copying in its data replaces the data of the last record. */
  lemma Replaced(mem: seq<Byte>, begin: nat, rs: seq<Record>, r: Record, data: seq<Byte>, p: nat, end: nat)
    requires Filled(mem, begin, rs + [r], end) && |data| == |r.data| && p == Place(begin, rs, |rs|)
    ensures p + HEADER + |data| <= end <= |mem|
    ensures Filled(Splice(mem, p + HEADER, data), begin, rs + [r.(data := data)], end)
  {
    LastAt(mem, begin, rs, r);
    DataReplaced(mem, p, r, data);
    SpliceOutside(mem, p + HEADER, data, p, p + HEADER + |data|);
    FilledSnoc(mem, Splice(mem, p + HEADER, data), begin, rs, r.(data := data), p, p + HEADER + |data|);
  }

  /** What kcdata_get_memory_addr, kcdata_push_array and kcdata_add_container_marker put in. */
  function StructRecord(itype: nat, data: seq<Byte>): Record {
    Record(itype, StructFlags(|data|), data)
  }

  function ArrayRecord(elemType: nat, count: nat, data: seq<Byte>): Record {
    Record(ARRAY_PAD0 + CalcPadding(|data|), elemType * WORD + count, data)
  }

  function MarkerRecord(headerType: nat, containerType: nat, identifier: nat): Record
    requires containerType < WORD
  {
    Record(headerType, identifier, if headerType == CONTAINER_BEGIN then WordBytes(containerType) else [])
  }

  /**
   The overflow check of the writer: with every sum cut to 32 bits, the total comes out below the
   requested size exactly when the padded size and its header do not fit in 32 bits.
   */
  lemma OverflowCheck(size: nat)
    requires size < WORD
    ensures var padded := Add32(size, CalcPadding(size));
            var total := Add32(padded, HEADER);
            && (total + HEADER < size <==> size + CalcPadding(size) + HEADER >= WORD)
            && (total + HEADER >= size ==> padded == size + CalcPadding(size) && total == padded + HEADER)
  {
  }

  class Descriptor {
    /** The memory that holds the buffer, the buffer's place in it, and the end of its items. */
    var mem: seq<Byte>
    var addrBegin: nat
    var addrEnd: nat
    var length: nat
    /** Unless KCFLAG_NO_AUTO_ENDBUFFER is set, an end marker follows the last item. */
    var autoEnd: bool
    /** What has been put in. */
    ghost var records: seq<Record>

    /** The buffer lies in the memory, and its items are the records. */
    ghost predicate Valid()
      reads this
    {
      && Filled(mem, addrBegin, records, addrEnd)
      && addrBegin <= addrEnd <= addrBegin + length <= |mem| && length < WORD
      && (autoEnd && records != [] ==> addrEnd + HEADER <= addrBegin + length && EndAt(mem, addrEnd))
    }

    /** The memory has changed only where new items and an end marker behind them are. */
    twostate predicate OnlyNewWritten()
      reads this
    {
      SameOutside(old(mem), mem, old(addrEnd), addrEnd + HEADER)
    }

    /** An item with `size` bytes of data and an end marker fit behind the items. */
    predicate Room(size: nat)
      reads this
    {
      addrEnd + HEADER + size + CalcPadding(size) + HEADER <= addrBegin + length
    }

    /** kcdata_write_buffer_end: does not advance the end of the items. */
    method WriteBufferEnd()
      requires addrEnd + HEADER <= |mem|
      modifies this`mem
      ensures EndAt(mem, addrEnd) && SameOutside(old(mem), mem, addrEnd, addrEnd + HEADER)
    {
      SpliceHas(mem, addrEnd, HeaderBytes(END_ITEM));
      SpliceOutside(mem, addrEnd, HeaderBytes(END_ITEM), addrEnd, addrEnd + HEADER);
      mem := Splice(mem, addrEnd, HeaderBytes(END_ITEM));
      HeaderReadBack(mem, addrEnd, END_ITEM);
    }

    /** The record that an item of this size would be, with the data that the memory holds there. */
    ghost function NextRecord(itype: nat, size: nat, flags: nat): (r: Record)
      requires addrEnd + HEADER + size <= |mem|
      reads this
      ensures |r.data| == size && At(mem, addrEnd + HEADER, r.data)
    {
      Record(itype, flags, mem[addrEnd + HEADER..addrEnd + HEADER + size])
    }

    /** Stores the header and the padding of an item and moves past it. */
    method StoreItem(h: Item, padding: nat, ghost r: Record) returns (addr: nat)
      requires Fits(h) && h == HeaderOf(r) && padding == CalcPadding(|r.data|)
      requires addrEnd + HEADER + h.size <= |mem| && At(mem, addrEnd + HEADER, r.data)
      requires Filled(mem, addrBegin, records, addrEnd)
      modifies this`mem, this`addrEnd, this`records
      ensures records == old(records) + [r] && Filled(mem, addrBegin, records, addrEnd)
      ensures addr == old(addrEnd) + HEADER && addrEnd == addr + h.size
      ensures SameOutside(old(mem), mem, old(addrEnd), addrEnd)
    {
      ghost var m := Framed(mem, addrEnd, h, padding);
      FramedOutside(mem, addrEnd, h, padding);
      Appended(mem, addrBegin, records, r, addrEnd);
      mem := Splice(mem, addrEnd, HeaderBytes(h));
      addrEnd := addrEnd + HEADER;
      mem := Splice(mem, addrEnd + h.size - padding, Repeat(0, padding));
      addr := addrEnd;
      addrEnd := addrEnd + h.size;
      assert mem == m;
      records := records + [r];
    }

    /** The checks of kcdata_get_memory_addr_with_flavor. */
    method CheckRoom(size: nat) returns (kr: KernReturn)
      requires size < WORD && addrBegin <= addrEnd <= addrBegin + length
      ensures kr == InvalidArgument <==> size + CalcPadding(size) + HEADER >= WORD
      ensures kr == Success <==> size + CalcPadding(size) + HEADER < WORD && Room(size)
    {
      var padded := Add32(size, CalcPadding(size));
      var total := Add32(padded, HEADER);
      OverflowCheck(size);
      if total + HEADER < size {
        kr := InvalidArgument;
      } else if total + HEADER > length || length - (total + HEADER) < addrEnd - addrBegin {
        kr := InsufficientBufferSize;
      } else {
        kr := Success;
      }
    }

    /** Appends an item and, unless that is switched off, an end marker behind it. */
    method AppendItem(itype: nat, size: nat, flags: nat) returns (addr: nat)
      requires Valid() && itype < WORD && flags < WORD * WORD
      requires size + CalcPadding(size) + HEADER < WORD && Room(size)
      modifies this`mem, this`addrEnd, this`records
      ensures Valid() && OnlyNewWritten()
      ensures addr == old(addrEnd) + HEADER
      ensures records == old(records) + [old(NextRecord(itype, size, flags))]
    {
      var padding := CalcPadding(size);
      ghost var r := NextRecord(itype, size, flags);
      addr := StoreItem(Item(itype, size + padding, flags), padding, r);
      if autoEnd {
        ghost var mid := mem;
        WriteBufferEnd();
        InPlaceKept(mid, mem, addrBegin, records, addrEnd + HEADER);
        OutsideBoth(old(mem), mid, mem, old(addrEnd), addrEnd, addrEnd + HEADER);
      } else {
        OutsideBoth(old(mem), mem, mem, old(addrEnd), addrEnd, addrEnd + HEADER);
      }
    }

    /** kcdata_get_memory_addr_with_flavor. */
    method GetMemoryAddrWithFlavor(itype: nat, size: nat, flags: nat) returns (kr: KernReturn, addr: nat)
      requires Valid() && itype < WORD && size < WORD && flags < WORD * WORD
      modifies this`mem, this`addrEnd, this`records
      ensures Valid()
      ensures kr == InvalidArgument <==> size + CalcPadding(size) + HEADER >= WORD
      ensures kr == Success <==> size + CalcPadding(size) + HEADER < WORD && old(Room(size))
      ensures kr != Success ==> unchanged(this)
      ensures kr == Success ==>
                && addr == old(addrEnd) + HEADER && addr + size <= |old(mem)|
                && records == old(records) + [old(NextRecord(itype, size, flags))]
                && OnlyNewWritten()
    {
      addr := 0;
      kr := CheckRoom(size);
      if kr == Success {
        addr := AppendItem(itype, size, flags);
      }
    }

    /** kcdata_memcpy of an item's data to the place that was handed out for it. */
    method CopyIn(addr: nat, data: seq<Byte>, ghost rs: seq<Record>, ghost r: Record)
      requires Valid() && records == rs + [r] && |data| == |r.data|
      requires addr == Place(addrBegin, rs, |rs|) + HEADER
      modifies this`mem, this`records
      ensures Valid() && records == rs + [r.(data := data)]
      ensures SameOutside(old(mem), mem, addr, addr + |data|)
    {
      ghost var was := mem;
      Replaced(mem, addrBegin, rs, r, data, addr - HEADER, addrEnd);
      SpliceOutside(mem, addr, data, addr, addr + |data|);
      mem := Splice(mem, addr, data);
      records := rs + [r.(data := data)];
      if autoEnd {
        EndKept(was, mem, addr, addr + |data|, addrEnd);
      }
    }

    /** Appends an item and copies its data in. */
    method Push(itype: nat, data: seq<Byte>, flags: nat) returns (kr: KernReturn)
      requires Valid() && itype < WORD && |data| < WORD && flags < WORD * WORD
      modifies this`mem, this`addrEnd, this`records
      ensures Valid()
      ensures kr == InvalidArgument <==> |data| + CalcPadding(|data|) + HEADER >= WORD
      ensures kr == Success <==> |data| + CalcPadding(|data|) + HEADER < WORD && old(Room(|data|))
      ensures kr != Success ==> unchanged(this)
      ensures kr == Success ==> records == old(records) + [Record(itype, flags, data)]
    {
      var addr;
      ghost var was := records;
      kr, addr := GetMemoryAddrWithFlavor(itype, |data|, flags);
      if kr == Success {
        CopyIn(addr, data, was, records[|was|]);
      }
    }

    /** kcdata_push_data, by way of kcdata_get_memory_addr. */
    method PushData(itype: nat, data: seq<Byte>) returns (kr: KernReturn)
      requires Valid() && itype < WORD && |data| < WORD
      modifies this`mem, this`addrEnd, this`records
      ensures Valid()
      ensures kr == InvalidArgument <==> |data| + CalcPadding(|data|) + HEADER >= WORD
      ensures kr == Success <==> |data| + CalcPadding(|data|) + HEADER < WORD && old(Room(|data|))
      ensures kr != Success ==> unchanged(this)
      ensures kr == Success ==> records == old(records) + [StructRecord(itype, data)]
    {
      kr := Push(itype, data, StructFlags(|data|));
    }

    /** kcdata_push_array; the caller supplies as many bytes as the 32-bit product says. */
    method PushArray(elemType: nat, elemSize: nat, count: nat, data: seq<Byte>) returns (kr: KernReturn)
      requires Valid() && elemType < WORD && elemSize < WORD && count < WORD
      requires |data| == count * elemSize % WORD
      modifies this`mem, this`addrEnd, this`records
      ensures Valid()
      ensures kr == InvalidArgument <==> |data| + CalcPadding(|data|) + HEADER >= WORD
      ensures kr == Success <==> |data| + CalcPadding(|data|) + HEADER < WORD && old(Room(|data|))
      ensures kr != Success ==> unchanged(this)
      ensures kr == Success ==> records == old(records) + [ArrayRecord(elemType, count, data)]
    {
      assert ArrayRecord(elemType, count, data).flags < WORD * WORD;
      kr := Push(ARRAY_PAD0 + CalcPadding(|data|), data, elemType * WORD + count);
    }

    /** kcdata_add_container_marker. */
    method AddContainerMarker(headerType: nat, containerType: nat, identifier: nat) returns (kr: KernReturn)
      requires Valid() && containerType < WORD && identifier < WORD * WORD
      requires headerType == CONTAINER_BEGIN || headerType == CONTAINER_END
      modifies this`mem, this`addrEnd, this`records
      ensures Valid()
      ensures kr == Success <==> old(Room(if headerType == CONTAINER_BEGIN then 4 else 0))
      ensures kr != Success ==> unchanged(this)
      ensures kr == Success ==> records == old(records) + [MarkerRecord(headerType, containerType, identifier)]
    {
      kr := Push(headerType, if headerType == CONTAINER_BEGIN then WordBytes(containerType) else [], identifier);
    }

    /** kcdata_memory_static_init: an empty buffer, then the header that begins it. */
    method StaticInit(addr: nat, dataType: nat, size: nat, auto: bool) returns (kr: KernReturn)
      requires addr + size <= |mem| && size < WORD && dataType < WORD
      modifies this
      ensures Valid() && addrBegin == addr && length == size && autoEnd == auto
      ensures kr == Success <==> size >= 2 * HEADER
      ensures records == if kr == Success then [StructRecord(dataType, [])] else []
    {
      addrBegin, addrEnd, length, autoEnd := addr, addr, size, auto;
      records := [];
      kr := PushData(dataType, []);
    }
  }
  /** A descriptor that has been initialised describes a laid-out buffer. */
  lemma BufferHolds(d: Descriptor)
    requires d.Valid() && d.autoEnd && d.records != []
    ensures Holds(d.mem, d.addrBegin, d.addrBegin + d.length, d.records)
  {
  }

  /** What was put into a descriptor is what a walk over its buffer reads. */
  lemma BufferReadsBack(d: Descriptor, mem: seq<Byte>, begin: nat, end: nat, rs: seq<Record>)
    requires d.Valid() && d.autoEnd && d.records != []
    requires mem == d.mem && begin == d.addrBegin && end == d.addrBegin + d.length && rs == d.records
    ensures ReadsBack(mem, begin, end, rs)
  {
    BufferHolds(d);
    WalkReadsRecords(mem, begin, end, rs);
  }

  /** A structure is read with its size and its data, unless its type is an array's or a container's. */
  lemma StructReadsBack(mem: seq<Byte>, p: nat, itype: nat, data: seq<Byte>)
    requires RecordAt(mem, p, StructRecord(itype, data))
    ensures SizeOf(HeaderAt(mem, p)) == |data|
            <==> (itype != ARRAY && itype / 16 != 2 && itype != CONTAINER_BEGIN) || |data| % 16 == 0
    ensures At(mem, p + HEADER, data)
  {
    StructSizeReadBack(itype, |data|);
  }

  /** An array is read as it was put in exactly when its size did not wrap around. */
  lemma ArrayReadsBack(mem: seq<Byte>, p: nat, end: nat, elemType: nat, elemSize: nat, count: nat, data: seq<Byte>)
    requires elemType < WORD && elemSize < WORD && 0 < count < WORD && |data| == count * elemSize % WORD
    requires RecordAt(mem, p, ArrayRecord(elemType, count, data))
    requires p + HEADER + Padded(ArrayRecord(elemType, count, data)) <= end <= |mem|
    ensures var h := HeaderAt(mem, p);
            && ElemType(h) == elemType && ElemCount(h) == count
            && (ArrayValid(mem, Iter(p, end)) && ElemSize(h) == elemSize <==> elemSize > 0 && count * elemSize < WORD)
    ensures At(mem, p + HEADER, data)
  {
    ArrayHeaderReadBack(elemType, elemSize, count);
    ArrayReadBack(elemType, elemSize, count);
    assert HeaderAt(mem, p) == ArrayHeader(elemType, elemSize, count);
  }

  /** The end of a container is read with its identifier, and nothing else. */
  lemma ContainerEndReadsBack(mem: seq<Byte>, p: nat, containerType: nat, identifier: nat)
    requires containerType < WORD
    requires RecordAt(mem, p, MarkerRecord(CONTAINER_END, containerType, identifier))
    ensures var h := HeaderAt(mem, p);
            TypeOf(h) == CONTAINER_END && h.size == 0 && SizeOf(h) == 0 && h.flags == identifier
  {
  }

  /** The beginning of a container is valid and read with its type and its identifier. */
  lemma ContainerReadsBack(mem: seq<Byte>, p: nat, containerType: nat, identifier: nat)
    requires containerType < WORD
    requires RecordAt(mem, p, MarkerRecord(CONTAINER_BEGIN, containerType, identifier))
    ensures var h := HeaderAt(mem, p);
            && TypeOf(h) == CONTAINER_BEGIN && h.size >= 4 && h.flags == identifier
            && Word(mem, p + HEADER) == containerType
  {
    WordReadBack(mem, p + HEADER, containerType);
  }
}
