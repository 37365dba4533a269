/**
 The text form of a label: "name/data" entries separated by commas.  mac_externalize prints
 the entries that policies supply, mac_internalize splits a text into them again.
 */
module MacLabelText {
  import opened MacErrno
  import opened Sequences

  datatype Pair = Pair(name: string, data: string)

  // ---- Splitting ----------------------------------------------------------------------------------

  function IndexOf(s: string, c: char): (i: nat)
    ensures i <= |s| && (i < |s| ==> s[i] == c) && forall j :: 0 <= j < i ==> s[j] != c
  {
    if s == "" || s[0] == c then 0 else 1 + IndexOf(s[1..], c)
  }

  /** What repeated strsep with "," returns. */
  function Segments(s: string): (segs: seq<string>)
    ensures segs != []
    decreases |s|
  {
    var i := IndexOf(s, ',');
    if i == |s| then [s] else [s[..i]] + Segments(s[i + 1..])
  }

  /** The entry of one segment: strchr for the first slash. */
  predicate HasSlash(seg: string) { IndexOf(seg, '/') < |seg| }

  function PairOf(seg: string): Pair
    requires HasSlash(seg)
  {
    var i := IndexOf(seg, '/');
    Pair(seg[..i], seg[i + 1..])
  }

  /** The entries handed to the policies, and the error at the end; `accept` is mac_label_internalize. */
  function Process(segs: seq<string>, accept: Pair -> int): (r: (int, seq<Pair>)) {
    if segs == [] then (0, [])
    else if !HasSlash(segs[0]) then (EINVAL, [])
    else
      var p := PairOf(segs[0]);
      if accept(p) != 0 then (accept(p), [p])
      else
        var (e, ps) := Process(segs[1..], accept);
        (e, [p] + ps)
  }

  method Strsep(text: string) returns (element: string, more: bool, rest: string)
    ensures if more then Segments(text) == [element] + Segments(rest) && |rest| < |text|
            else Segments(text) == [element]
  {
    var i := 0;
    while i < |text| && text[i] != ','
      invariant 0 <= i <= |text| && i <= IndexOf(text, ',')
    {
      i := i + 1;
    }
    assert i == IndexOf(text, ',');
    if i == |text| {
      return text, false, "";
    }
    return text[..i], true, text[i + 1..];
  }

  /** mac_internalize. */
  method Internalize(text: string, accept: Pair -> int) returns (error: int, passed: seq<Pair>)
    ensures (error, passed) == Process(Segments(text), accept)
  {
    error, passed := 0, [];
    var more, rest := true, text;
    assert passed + Process(Segments(text), accept).1 == Process(Segments(text), accept).1;
    while error == 0 && more
      invariant Process(Segments(text), accept) ==
                if error != 0 || !more then (error, passed)
                else (Process(Segments(rest), accept).0, passed + Process(Segments(rest), accept).1)
      decreases if more then 1 + |rest| else 0, error == 0
    {
      var element, m, r := Strsep(rest);
      ghost var segs := Segments(rest);
      assert segs[0] == element && (m ==> segs[1..] == Segments(r)) && (!m ==> segs[1..] == []);
      if !HasSlash(element) {
        error := EINVAL;
        assert passed + [] == passed;
        break;
      }
      var p := PairOf(element);
      error := accept(p);
      ghost var tail := Process(segs[1..], accept);
      assert error == 0 ==> passed + ([p] + tail.1) == (passed + [p]) + tail.1;
      assert !m ==> tail.1 == [] && (passed + [p]) + tail.1 == passed + [p];
      passed := passed + [p];
      more, rest := m, r;
    }
  }

  // ---- Joining ------------------------------------------------------------------------------------

  function EntryText(p: Pair): string { p.name + "/" + p.data }

  /** The entries with commas between them. */
  function Join(ps: seq<Pair>): string
    requires ps != []
  {
    if |ps| == 1 then EntryText(ps[0]) else EntryText(ps[0]) + "," + Join(ps[1..])
  }

  ghost predicate Clean(p: Pair) { ',' !in p.name && ',' !in p.data && '/' !in p.name }

  ghost predicate AllClean(ps: seq<Pair>) { forall i :: 0 <= i < |ps| ==> Clean(ps[i]) }

  /** The text is split into exactly these entries, and every segment of it is one. */
  ghost predicate SplitsInto(text: string, ps: seq<Pair>) {
    var segs := Segments(text);
    |segs| == |ps| && forall i :: 0 <= i < |segs| ==> HasSlash(segs[i]) && PairOf(segs[i]) == ps[i]
  }

  lemma IndexOfConcat(a: string, c: char, b: string)
    requires c !in a
    ensures IndexOf(a + [c] + b, c) == |a|
  {
    var s := a + [c] + b;
    assert s[|a|] == c;
    assert forall j :: 0 <= j < |a| ==> s[j] == a[j] && a[j] in a;
  }

  /** One entry is read back exactly when its name has no slash. */
  lemma EntryRoundTrip(p: Pair)
    ensures HasSlash(EntryText(p))
    ensures PairOf(EntryText(p)) == p <==> '/' !in p.name
  {
    var s := EntryText(p);
    var i := IndexOf(s, '/');
    assert s[|p.name|] == '/';
    assert forall j :: 0 <= j < |p.name| ==> s[j] == p.name[j];
    if '/' !in p.name {
      IndexOfConcat(p.name, '/', p.data);
      assert s[..i] == p.name && s[i + 1..] == p.data;
    } else {
      var k :| 0 <= k < |p.name| && p.name[k] == '/';
      assert s[k] == '/';
      assert |PairOf(s).name| == i <= k;
    }
  }

  function Commas(s: string): nat { if s == "" then 0 else (if s[0] == ',' then 1 else 0) + Commas(s[1..]) }

  lemma {:induction false} CommasConcat(a: string, b: string)
    ensures Commas(a + b) == Commas(a) + Commas(b)
  {
    if a == "" {
      assert a + b == b;
    } else {
      assert (a + b)[1..] == a[1..] + b;
      CommasConcat(a[1..], b);
    }
  }

  lemma {:induction false} CommasZero(a: string)
    ensures Commas(a) == 0 <==> ',' !in a
  {
    if a != "" {
      CommasZero(a[1..]);
    }
  }

  lemma {:induction false} SegmentCount(s: string)
    ensures |Segments(s)| == 1 + Commas(s)
    decreases |s|
  {
    var i := IndexOf(s, ',');
    if i == |s| {
      assert s[..i] == s;
      CommasZero(s);
      assert ',' !in s;
    } else {
      SegmentCount(s[i + 1..]);
      CommasZero(s[..i]);
      assert ',' !in s[..i];
      assert s == s[..i] + ([','] + s[i + 1..]);
      CommasConcat(s[..i], [','] + s[i + 1..]);
      assert ([','] + s[i + 1..])[1..] == s[i + 1..];
    }
  }

  lemma EntryCommas(p: Pair)
    ensures Commas(EntryText(p)) == Commas(p.name) + Commas(p.data)
  {
    CommasConcat(p.name + "/", p.data);
    CommasConcat(p.name, "/");
    assert "/"[1..] == "";
  }

  lemma {:induction false} JoinCommas(ps: seq<Pair>)
    requires ps != []
    ensures Commas(Join(ps)) >= |ps| - 1
    ensures Commas(Join(ps)) == |ps| - 1 <==> forall i :: 0 <= i < |ps| ==> ',' !in ps[i].name && ',' !in ps[i].data
    decreases |ps|
  {
    EntryCommas(ps[0]);
    CommasZero(ps[0].name);
    CommasZero(ps[0].data);
    if |ps| > 1 {
      var rest := ps[1..];
      JoinCommas(rest);
      CommasConcat(EntryText(ps[0]) + ",", Join(rest));
      CommasConcat(EntryText(ps[0]), ",");
      assert ","[1..] == "";
      assert forall i :: 0 <= i < |rest| ==> rest[i] == ps[i + 1];
    }
  }

  function EntryTexts(ps: seq<Pair>): (texts: seq<string>)
    ensures |texts| == |ps|
  {
    if ps == [] then [] else [EntryText(ps[0])] + EntryTexts(ps[1..])
  }

  lemma {:induction false} EntryTextsAt(ps: seq<Pair>, i: nat)
    requires i < |ps|
    ensures EntryTexts(ps)[i] == EntryText(ps[i])
  {
    if i > 0 { EntryTextsAt(ps[1..], i - 1); }
  }

  /** Without commas inside the entries, the segments are the entries. */
  lemma {:induction false} JoinSegments(ps: seq<Pair>)
    requires ps != [] && forall i :: 0 <= i < |ps| ==> ',' !in ps[i].name && ',' !in ps[i].data
    ensures Segments(Join(ps)) == EntryTexts(ps)
    decreases |ps|
  {
    var e := EntryText(ps[0]);
    if |ps| == 1 {
      LastSegment(e);
    } else {
      JoinSegments(ps[1..]);
      FirstSegment(e, Join(ps[1..]));
    }
  }

  lemma LastSegment(e: string)
    requires ',' !in e
    ensures Segments(e) == [e]
  {
  }

  lemma FirstSegment(e: string, rest: string)
    requires ',' !in e
    ensures Segments(e + "," + rest) == [e] + Segments(rest)
  {
    var s := e + "," + rest;
    IndexOfConcat(e, ',', rest);
    assert s[..|e|] == e && s[|e| + 1..] == rest;
  }

  /** Printed entries are read back, all of them and in order, exactly when no part has a comma and no name a slash. */
  lemma JoinRoundTrip(ps: seq<Pair>)
    requires ps != []
    ensures SplitsInto(Join(ps), ps) <==> AllClean(ps)
  {
    SegmentCount(Join(ps));
    JoinCommas(ps);
    if forall i :: 0 <= i < |ps| ==> ',' !in ps[i].name && ',' !in ps[i].data {
      JoinSegments(ps);
      forall i | 0 <= i < |ps|
        ensures HasSlash(Segments(Join(ps))[i])
        ensures PairOf(Segments(Join(ps))[i]) == ps[i] <==> '/' !in ps[i].name
      {
        EntryTextsAt(ps, i);
        EntryRoundTrip(ps[i]);
      }
    }
  }

  /** Segment k is an entry, and the policies accept it. */
  predicate Passes(segs: seq<string>, accept: Pair -> int, k: nat)
    requires k < |segs|
  {
    HasSlash(segs[k]) && accept(PairOf(segs[k])) == 0
  }

  /**
   The exact error of mac_internalize: that of the first segment that does not pass, EINVAL if it has no
   slash and otherwise what the policies say.  The policies have then been handed the entries before it,
   and its own in the second case.
   */
  lemma {:induction false} ProcessFails(segs: seq<string>, accept: Pair -> int, k: nat)
    requires k < |segs| && !Passes(segs, accept, k) && forall j: nat :: j < k ==> Passes(segs, accept, j)
    ensures var (error, passed) := Process(segs, accept);
            && error == (if HasSlash(segs[k]) then accept(PairOf(segs[k])) else EINVAL)
            && |passed| == k + (if HasSlash(segs[k]) then 1 else 0)
            && forall j :: 0 <= j < |passed| ==> HasSlash(segs[j]) && passed[j] == PairOf(segs[j])
    decreases |segs|
  {
    if k > 0 {
      var rest := segs[1..];
      assert Passes(segs, accept, 0);
      forall j: nat | j < k - 1 ensures Passes(rest, accept, j) {
        assert Passes(segs, accept, j + 1);
      }
      ProcessFails(rest, accept, k - 1);
    }
  }

  /** And it is 0 exactly when every segment passes. */
  lemma ProcessSucceedsIff(segs: seq<string>, accept: Pair -> int)
    ensures Process(segs, accept).0 == 0 <==> forall k: nat :: k < |segs| ==> Passes(segs, accept, k)
  {
    if forall k: nat :: k < |segs| ==> Passes(segs, accept, k) {
      var ps := seq(|segs|, i requires 0 <= i < |segs| => if HasSlash(segs[i]) then PairOf(segs[i]) else Pair("", ""));
      forall i: nat | i < |segs| ensures HasSlash(segs[i]) && accept(ps[i]) == 0 && PairOf(segs[i]) == ps[i] {
        assert Passes(segs, accept, i);
      }
      ProcessAll(segs, ps, accept);
    } else {
      var bad := (k: nat) => k < |segs| && !Passes(segs, accept, k);
      var n: nat :| n < |segs| && !Passes(segs, accept, n);
      var k := Least(bad, n);
      forall j: nat | j < k ensures Passes(segs, accept, j) {
        assert !bad(j);
      }
      ProcessFails(segs, accept, k);
    }
  }

  /** What mac_internalize hands to the policies when they accept everything. */
  lemma {:induction false} ProcessAll(segs: seq<string>, ps: seq<Pair>, accept: Pair -> int)
    requires |segs| == |ps| && forall i :: 0 <= i < |segs| ==> HasSlash(segs[i]) && PairOf(segs[i]) == ps[i]
    requires forall i :: 0 <= i < |ps| ==> accept(ps[i]) == 0
    ensures Process(segs, accept) == (0, ps)
    decreases |segs|
  {
    if segs != [] {
      ProcessAll(segs[1..], ps[1..], accept);
      assert [ps[0]] + ps[1..] == ps;
    } else {
      assert ps == [];
    }
  }
}
