/** mac_externalize: printing the entries of a label into a buffer of fixed size. */
module MacExternalize {
  import opened MacErrno
  import opened Sequences
  import opened MacNamespaces
  import opened MacLabelText

  /** What a policy's externalize operation does: it appends `text` and returns `err`. */
  datatype Reply = NoOperation | Reply(err: int, text: string)

  /** The policy with this handle is asked about the namespace stored under this name. */
  datatype Visit = Visit(handle: int, stored: string)

  type Operation = (int, string) -> Reply

  /** An sbuf call that does not fit returns -1. */
  const OVERFLOW := -1

  // ---- Which policies are asked ------------------------------------------------------------------

  predicate Matches(e: Element, element: string, all: bool) {
    if all then !(e.name != "" && e.name[0] == '?') else Strip(e.name) == element
  }

  function VisitsOf(e: Element): seq<Visit> {
    seq(|e.listeners|, i requires 0 <= i < |e.listeners| => Visit(e.listeners[i], e.name))
  }

  function Visits(list: seq<Element>, element: string, all: bool): seq<Visit> {
    if list == [] then []
    else
      var e := list[|list| - 1];
      Visits(list[..|list| - 1], element, all) + if Matches(e, element, all) then VisitsOf(e) else []
  }

  // ---- What is printed --------------------------------------------------------------------------

  /** The string buffer; `full` is its overflow mark, and `pairs` are the entries that went into the text. */
  datatype Buffer = Buffer(error: int, text: string, pairs: seq<Pair>, full: bool)

  const EMPTY := Buffer(0, "", [], false)

  /** Lines 947-981 for one listener.  The buffer holds size characters, one of them for the NUL. */
  function WriteOne(b: Buffer, v: Visit, op: Operation, size: int): Buffer {
    match op(v.handle, v.stored)
    case NoOperation => b
    case Reply(err, text) =>
      var name := Strip(v.stored);
      var named := b.text + name + "/";
      if |named| > size - 1 then b.(error := OVERFLOW, full := true)
      else if |named| + |text| > size - 1 then b.(error := OVERFLOW, text := named, full := true)
      else if err == ENOENT then b
      else if err != 0 then b.(error := err, text := named + text)
      else if |named| + |text| + 1 > size - 1 then b.(error := OVERFLOW, text := named + text, full := true)
      else b.(text := named + text + ",", pairs := b.pairs + [Pair(name, text)])
  }

  /** All listeners in order, up to the first error. */
  function WriteAll(b: Buffer, vs: seq<Visit>, op: Operation, size: int): Buffer {
    if vs == [] then b
    else
      var before := WriteAll(b, vs[..|vs| - 1], op, size);
      if before.error != 0 then before else WriteOne(before, vs[|vs| - 1], op, size)
  }

  /** The entries that policies supply, whatever the size of the buffer. */
  function Supplied(vs: seq<Visit>, op: Operation): seq<Pair> {
    if vs == [] then []
    else
      var v := vs[|vs| - 1];
      var r := op(v.handle, v.stored);
      Supplied(vs[..|vs| - 1], op) + if r.Reply? && r.err == 0 then [Pair(Strip(v.stored), r.text)] else []
  }

  /** Entries, each with a comma behind it. */
  function Text(ps: seq<Pair>): string {
    if ps == [] then "" else Text(ps[..|ps| - 1]) + EntryText(ps[|ps| - 1]) + ","
  }

  ghost predicate Consistent(b: Buffer) { b.error == 0 ==> b.text == Text(b.pairs) && !b.full }

  /** Without an error, the buffer holds exactly the supplied entries; nothing of a withdrawn one remains. */
  lemma {:induction false} WriteAllText(b: Buffer, vs: seq<Visit>, op: Operation, size: int)
    requires Consistent(b)
    ensures var r := WriteAll(b, vs, op, size);
            Consistent(r) && (b.error == 0 && r.error == 0 ==> r.pairs == b.pairs + Supplied(vs, op))
    ensures b.error != 0 ==> WriteAll(b, vs, op, size) == b
    decreases |vs|
  {
    if vs == [] {
      assert b.pairs + [] == b.pairs;
    } else {
      var n := |vs| - 1;
      WriteAllText(b, vs[..n], op, size);
      var before := WriteAll(b, vs[..n], op, size);
      if before.error == 0 {
        WriteOneText(before, vs[n], op, size);
      }
    }
  }

  lemma WriteOneText(b: Buffer, v: Visit, op: Operation, size: int)
    requires b.error == 0 && Consistent(b)
    ensures var r, reply := WriteOne(b, v, op, size), op(v.handle, v.stored);
            && Consistent(r)
            && (r.error == 0 ==>
                  r.pairs ==
                  b.pairs + if reply.Reply? && reply.err == 0 then [Pair(Strip(v.stored), reply.text)] else [])
  {
  }

  // ---- One namespace ------------------------------------------------------------------------------

  /** mac_label_externalize for one element of the request, after what is in the buffer already. */
  function ElementWritten(b: Buffer, ls: Lists, hasDynamic: bool, element: string, op: Operation, size: int): Buffer {
    var ignore := element != "" && element[0] == '?';
    var all := !ignore && element == "*";
    var r := WriteAll(b, ElementVisits(ls, hasDynamic, element), op, size);
    if r.error == 0 && r.pairs == b.pairs && !all && !ignore then r.(error := ENOENT) else r
  }

  function ElementVisits(ls: Lists, hasDynamic: bool, element: string): seq<Visit> {
    var ignore := element != "" && element[0] == '?';
    var all := !ignore && element == "*";
    var key := if ignore then element[1..] else element;
    Visits(ls.statics, key, all) + if hasDynamic then Visits(ls.dynamics, key, all) else []
  }

  lemma {:induction false} WriteAllSplit(b: Buffer, vs: seq<Visit>, ws: seq<Visit>, op: Operation, size: int)
    ensures WriteAll(b, vs + ws, op, size) ==
            if WriteAll(b, vs, op, size).error != 0 then WriteAll(b, vs, op, size)
            else WriteAll(WriteAll(b, vs, op, size), ws, op, size)
    decreases |ws|
  {
    if ws == [] {
      assert vs + ws == vs;
    } else {
      assert (vs + ws)[..|vs + ws| - 1] == vs + ws[..|ws| - 1];
      WriteAllSplit(b, vs, ws[..|ws| - 1], op, size);
    }
  }

  /** Lines 946-982: the listeners of one namespace. */
  method WriteElement(b: Buffer, e: Element, op: Operation, size: int) returns (r: Buffer)
    requires b.error == 0
    ensures r == WriteAll(b, VisitsOf(e), op, size)
  {
    r := b;
    var i := 0;
    ghost var vs := VisitsOf(e);
    while i < |e.listeners| && r.error == 0
      invariant 0 <= i <= |e.listeners| && r == WriteAll(b, vs[..i], op, size)
    {
      assert vs[..i + 1][..i] == vs[..i];
      r := WriteOne(r, Visit(e.listeners[i], e.name), op, size);
      i := i + 1;
    }
    assert vs[..|vs|] == vs;
    if i < |vs| {
      WriteAllSplit(b, vs[..i], vs[i..], op, size);
      assert vs[..i] + vs[i..] == vs;
    }
  }

  /** What one more element of the list adds to the visits. */
  lemma VisitsNext(list: seq<Element>, i: nat, element: string, all: bool)
    requires i < |list|
    ensures var vs := Visits(list[..i], element, all);
            Visits(list[..i + 1], element, all) == if Matches(list[i], element, all) then vs + VisitsOf(list[i]) else vs
  {
    assert list[..i + 1][..i] == list[..i];
  }

  /** After an error nothing more is written. */
  lemma ErrorEnds(b: Buffer, list: seq<Element>, i: nat, element: string, all: bool, op: Operation, size: int)
    requires i <= |list| && WriteAll(b, Visits(list[..i], element, all), op, size).error != 0
    ensures WriteAll(b, Visits(list, element, all), op, size) == WriteAll(b, Visits(list[..i], element, all), op, size)
  {
    VisitsPrefix(list, i, element, all);
    var vs, ws := Visits(list[..i], element, all), Visits(list, element, all);
    WriteAllSplit(b, vs, ws[|vs|..], op, size);
    assert vs + ws[|vs|..] == ws;
  }

  /** Lines 932-983: one of the two lists. */
  method WriteList(b: Buffer, list: seq<Element>, element: string, all: bool, op: Operation, size: int)
    returns (r: Buffer)
    requires b.error == 0
    ensures r == WriteAll(b, Visits(list, element, all), op, size)
  {
    r := b;
    var i := 0;
    ghost var seen: seq<Visit> := [];
    while i < |list| && r.error == 0
      invariant 0 <= i <= |list| && seen == Visits(list[..i], element, all) && r == WriteAll(b, seen, op, size)
    {
      VisitsNext(list, i, element, all);
      if Matches(list[i], element, all) {
        WriteAllSplit(b, seen, VisitsOf(list[i]), op, size);
        r := WriteElement(r, list[i], op, size);
        seen := seen + VisitsOf(list[i]);
      }
      i := i + 1;
    }
    if r.error != 0 {
      ErrorEnds(b, list, i, element, all, op, size);
    } else {
      assert list[..i] == list;
    }
  }

  lemma {:induction false} VisitsPrefix(list: seq<Element>, i: nat, element: string, all: bool)
    requires i <= |list|
    ensures Visits(list[..i], element, all) <= Visits(list, element, all)
    decreases |list|
  {
    if i == |list| {
      assert list[..i] == list;
    } else {
      var init := list[..|list| - 1];
      VisitsPrefix(init, i, element, all);
      assert init[..i] == list[..i];
    }
  }

  /** mac_label_externalize. */
  method WriteLabel(b: Buffer, ls: Lists, hasDynamic: bool, element: string, op: Operation, size: int)
    returns (r: Buffer)
    requires b.error == 0 && Consistent(b)
    ensures r == ElementWritten(b, ls, hasDynamic, element, op, size)
  {
    var ignore, all, key := false, false, element;
    if element != "" && element[0] == '?' {
      key, ignore := element[1..], true;
    } else if element == "*" {
      all := true;
    }
    ghost var vs, ws := Visits(ls.statics, key, all), Visits(ls.dynamics, key, all);
    r := WriteList(b, ls.statics, key, all, op, size);
    WriteAllSplit(b, vs, if hasDynamic then ws else [], op, size);
    if r.error == 0 && hasDynamic {
      r := WriteList(r, ls.dynamics, key, all, op, size);
    }
    if r.error == 0 && |r.pairs| == |b.pairs| && !all && !ignore {
      r := r.(error := ENOENT);
    }
    WriteAllText(b, ElementVisits(ls, hasDynamic, element), op, size);
  }

  // ---- The whole request --------------------------------------------------------------------------

  function RequestWritten(b: Buffer, ls: Lists, hasDynamic: bool, elements: seq<string>, op: Operation,
                          size: int): Buffer
    decreases |elements|
  {
    if elements == [] then b
    else
      var r := ElementWritten(b, ls, hasDynamic, elements[0], op, size);
      if r.error != 0 then r else RequestWritten(r, ls, hasDynamic, elements[1..], op, size)
  }

  /** The entries that policies supply for the whole request. */
  function Requested(ls: Lists, hasDynamic: bool, elements: seq<string>, op: Operation): seq<Pair> {
    if elements == [] then []
    else Supplied(ElementVisits(ls, hasDynamic, elements[0]), op) + Requested(ls, hasDynamic, elements[1..], op)
  }

  function Trimmed(text: string): string { if text == "" then "" else text[..|text| - 1] }

  /** Lines 1055-1057: the last comma is trimmed, unless the length of the buffer reads as -1. */
  function Output(b: Buffer): string { if b.full then b.text else Trimmed(b.text) }

  /** mac_externalize. */
  method Externalize(ls: Lists, hasDynamic: bool, elementlist: string, op: Operation, size: int)
    returns (error: int, out: string)
    ensures var final := RequestWritten(EMPTY, ls, hasDynamic, Segments(elementlist), op, size);
            error == final.error && out == Output(final)
  {
    ghost var start := EMPTY;
    var b := EMPTY;
    var more, rest := true, elementlist;
    while more && b.error == 0
      invariant Consistent(b)
      invariant RequestWritten(start, ls, hasDynamic, Segments(elementlist), op, size) ==
                if more && b.error == 0 then RequestWritten(b, ls, hasDynamic, Segments(rest), op, size) else b
      decreases if more then 1 + |rest| else 0, b.error == 0
    {
      var element, m, r := Strsep(rest);
      assert Segments(rest)[0] == element && Segments(rest)[1..] == if m then Segments(r) else [];
      WriteAllText(b, ElementVisits(ls, hasDynamic, element), op, size);
      b := WriteLabel(b, ls, hasDynamic, element, op, size);
      more, rest := m, r;
    }
    error, out := b.error, b.text;
    var len := if b.full then -1 else |b.text|;
    if len > 0 {
      out := out[..len - 1];
    }
  }

  lemma {:induction false} RequestText(b: Buffer, ls: Lists, hasDynamic: bool, elements: seq<string>,
                                       op: Operation, size: int)
    requires b.error == 0 && Consistent(b)
    ensures var r := RequestWritten(b, ls, hasDynamic, elements, op, size);
            r.error == 0 ==>
              !r.full && r.text == Text(r.pairs) && r.pairs == b.pairs + Requested(ls, hasDynamic, elements, op)
    decreases |elements|
  {
    if elements == [] {
      assert b.pairs + [] == b.pairs;
    } else {
      var vs := ElementVisits(ls, hasDynamic, elements[0]);
      WriteAllText(b, vs, op, size);
      var r := ElementWritten(b, ls, hasDynamic, elements[0], op, size);
      if r.error == 0 {
        RequestText(r, ls, hasDynamic, elements[1..], op, size);
        Regroup(b.pairs, Supplied(vs, op), Requested(ls, hasDynamic, elements[1..], op));
      }
    }
  }

  /** Trimming the last comma leaves the entries with commas between them. */
  lemma {:induction false} TextIsJoin(ps: seq<Pair>)
    requires ps != []
    ensures Text(ps) == Join(ps) + ","
    decreases |ps|
  {
    var n := |ps| - 1;
    if n == 0 {
      assert ps[..0] == [];
      assert Text(ps) == EntryText(ps[0]) + ",";
    } else {
      TextIsJoin(ps[..n]);
      JoinAppend(ps[..n], ps[n]);
      assert ps[..n] + [ps[n]] == ps;
    }
  }

  lemma {:induction false} JoinAppend(ps: seq<Pair>, p: Pair)
    requires ps != []
    ensures Join(ps + [p]) == Join(ps) + "," + EntryText(p)
    decreases |ps|
  {
    var all := ps + [p];
    if |ps| == 1 {
      assert all[1..] == [p];
    } else {
      assert all[1..] == ps[1..] + [p];
      JoinAppend(ps[1..], p);
      assert EntryText(ps[0]) + "," + (Join(ps[1..]) + "," + EntryText(p)) ==
             EntryText(ps[0]) + "," + Join(ps[1..]) + "," + EntryText(p);
    }
  }

  /**
   Externalize without error, then internalize: the text is split into exactly the entries that
   the policies supplied, in order, if and only if there is one and all are clean.
   */
  lemma ExternalizeInternalize(ls: Lists, hasDynamic: bool, elementlist: string, op: Operation, size: int)
    ensures var final := RequestWritten(EMPTY, ls, hasDynamic, Segments(elementlist), op, size);
            var ps := Requested(ls, hasDynamic, Segments(elementlist), op);
            final.error == 0 ==> (SplitsInto(Output(final), ps) <==> ps != [] && AllClean(ps))
  {
    var b := EMPTY;
    RequestText(b, ls, hasDynamic, Segments(elementlist), op, size);
    var final := RequestWritten(b, ls, hasDynamic, Segments(elementlist), op, size);
    var ps := Requested(ls, hasDynamic, Segments(elementlist), op);
    assert b.pairs + ps == ps;
    if final.error == 0 && ps != [] {
      TextIsJoin(ps);
      assert Output(final) == Join(ps);
      JoinRoundTrip(ps);
    }
  }
}
