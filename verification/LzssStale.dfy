/**
 The last F slots of the decoder's ring are never initialised.  When does the output depend on what
 they hold?
 */
module LzssStale {
  import opened Bytes
  import opened LzssKeys
  import opened LzssDecoder
  import opened LzssStream

  /** How many bytes a token stands for. */
  function Size(t: Token): nat
    requires ValidToken(t)
  {
    if t.Literal? then 1 else t.len
  }

  /** With h bytes of history: before the history has `end` bytes, a copy begins at one of the first F of it. */
  predicate ReadsStale(h: nat, ts: seq<Token>, end: nat)
    requires h >= N && AllValid(ts)
    decreases |ts|
  {
    && ts != [] && h < end
    && (|| (ts[0].Copy? && h - Distance(h, ts[0].pos) < F)
        || ReadsStale(h + Size(ts[0]), ts[1..], end))
  }

  /** At most the first n bytes. */
  function First(bytes: seq<Byte>, n: nat): seq<Byte> { if n <= |bytes| then bytes[..n] else bytes }

  // ---- Marking what comes from unwritten bytes --------------------------------------------------

  /** The same tokens with every literal 0. */
  function Blank(ts: seq<Token>): (us: seq<Token>)
    requires AllValid(ts)
    ensures |us| == |ts| && AllValid(us)
  {
    seq(|ts|, i requires 0 <= i < |ts| => if ts[i].Literal? then Literal(0) else ts[i])
  }

  /** The history with 1 for each unwritten byte and 0 for each space. */
  function MarkedPreset(): (m: seq<Byte>)
    ensures |m| == N
  {
    Repeat(1, F) + Repeat(0, N - F)
  }

  /** For each decoded byte, 0 unless it is a copy of an unwritten one. */
  function Marks(src: seq<Byte>): seq<Byte> {
    ExpandAllExtends(MarkedPreset(), Blank(Tokens(src, [])));
    ExpandAll(MarkedPreset(), Blank(Tokens(src, [])))[N..]
  }

  /** a and b are equal where m is 0; if `strict`, they differ where it is not. */
  ghost predicate Related(m: seq<Byte>, a: seq<Byte>, b: seq<Byte>, strict: bool) {
    && |m| == |a| == |b|
    && (forall h :: 0 <= h < |m| && m[h] == 0 ==> a[h] == b[h])
    && (strict ==> forall h :: 0 <= h < |m| && m[h] != 0 ==> a[h] != b[h])
  }

  lemma {:induction false} RelatedCopy(m: seq<Byte>, a: seq<Byte>, b: seq<Byte>, strict: bool, d: nat, n: nat)
    requires Related(m, a, b, strict) && 1 <= d <= |m|
    ensures Related(CopyBack(m, d, n), CopyBack(a, d, n), CopyBack(b, d, n), strict)
    decreases n
  {
    if n != 0 {
      var h := |m| - d;
      RelatedCopy(m + [m[h]], a + [a[h]], b + [b[h]], strict, d, n - 1);
    }
  }

  lemma {:induction false} RelatedAll(m: seq<Byte>, a: seq<Byte>, b: seq<Byte>, strict: bool, ts: seq<Token>)
    requires AllValid(ts) && Related(m, a, b, strict) && |m| >= N
    ensures Related(ExpandAll(m, Blank(ts)), ExpandAll(a, ts), ExpandAll(b, ts), strict)
    decreases |ts|
  {
    if ts != [] {
      var t := ts[0];
      ExpandExtends(a, t);
      ExpandExtends(b, t);
      ExpandExtends(m, Blank(ts)[0]);
      assert Blank(ts)[1..] == Blank(ts[1..]);
      if t.Copy? {
        RelatedCopy(m, a, b, strict, Distance(|m|, t.pos), t.len);
      }
      RelatedAll(Expand(m, Blank(ts)[0]), Expand(a, t), Expand(b, t), strict, ts[1..]);
    }
  }

  lemma StaleRelated(src: seq<Byte>, s: seq<Byte>, s': seq<Byte>, strict: bool)
    requires |s| == F && |s'| == F && (strict ==> forall i :: 0 <= i < F ==> s[i] != s'[i])
    ensures Related(Marks(src), Decode(src, s), Decode(src, s'), strict)
  {
    var ts := Tokens(src, []);
    RelatedAll(MarkedPreset(), Preset(s), Preset(s'), strict, ts);
    ExpandAllExtends(Preset(s), ts);
    ExpandAllExtends(Preset(s'), ts);
    ExpandAllExtends(MarkedPreset(), Blank(ts));
  }

  // ---- Where the marks come from -----------------------------------------------------------------

  /** The first F bytes are marked and no other. */
  ghost predicate OnlyPresetMarked(m: seq<Byte>) {
    |m| >= N && forall k :: 0 <= k < |m| ==> (m[k] != 0 <==> k < F)
  }

  /** No byte from the first F up to `end` is marked. */
  ghost predicate Clean(m: seq<Byte>, end: nat) { forall k :: F <= k < |m| && k < end ==> m[k] == 0 }

  /** A copy that begins behind the first F bytes copies no mark. */
  lemma {:induction false} CleanCopy(m: seq<Byte>, d: nat, n: nat)
    requires OnlyPresetMarked(m) && 1 <= d <= |m| - F
    ensures OnlyPresetMarked(CopyBack(m, d, n))
    decreases n
  {
    if n != 0 {
      CleanCopy(m + [m[|m| - d]], d, n - 1);
    }
  }

  /** Any other copy begins with one, which stays. */
  lemma StaleCopy(m: seq<Byte>, t: Token, ts: seq<Token>)
    requires OnlyPresetMarked(m) && ValidToken(t) && AllValid(ts)
    requires t.Copy? && |m| - Distance(|m|, t.pos) < F
    ensures |Expand(m, t)| >= N && forall end :: end > |m| ==> !Clean(ExpandAll(Expand(m, t), ts), end)
  {
    var d := Distance(|m|, t.pos);
    var first := m + [m[|m| - d]];
    CopyBackExtends(first, d, t.len - 1);
    ExpandAllExtends(Expand(m, t), ts);
    assert ExpandAll(Expand(m, t), ts)[|m|] == first[|m|] != 0;
  }

  lemma {:induction false} CleanIff(m: seq<Byte>, ts: seq<Token>, end: nat)
    requires OnlyPresetMarked(m) && AllValid(ts)
    ensures Clean(ExpandAll(m, Blank(ts)), end) <==> !ReadsStale(|m|, ts, end)
    decreases |ts|
  {
    if ts == [] || |m| >= end {
      ExpandAllExtends(m, Blank(ts));
    } else {
      var t := Blank(ts)[0];
      assert Blank(ts)[1..] == Blank(ts[1..]);
      ExpandExtends(m, t);
      if t.Copy? && |m| - Distance(|m|, t.pos) < F {
        StaleCopy(m, t, Blank(ts[1..]));
      } else {
        if t.Copy? { CleanCopy(m, Distance(|m|, t.pos), t.len); }
        CleanIff(Expand(m, t), ts[1..], end);
      }
    }
  }

  /** None of the first n decoded bytes is marked exactly when no copy before them begins at an unwritten byte. */
  lemma MarksIff(src: seq<Byte>, n: nat)
    ensures (forall i :: 0 <= i < |Marks(src)| && i < n ==> Marks(src)[i] == 0)
            <==> !ReadsStale(N, Tokens(src, []), N + n)
  {
    var ts := Tokens(src, []);
    var all := ExpandAll(MarkedPreset(), Blank(ts));
    CleanIff(MarkedPreset(), ts, N + n);
    ExpandAllExtends(MarkedPreset(), Blank(ts));
    assert forall k :: 0 <= k < N ==> all[k] == MarkedPreset()[k];
    assert forall k :: N <= k < |all| ==> all[k] == Marks(src)[k - N];
    assert forall i :: 0 <= i < |Marks(src)| ==> Marks(src)[i] == all[N + i];
  }

  /**
   The first n bytes of the output are the same whatever the unwritten slots hold, exactly when no copy
   that begins before byte n begins at such a slot.
   */
  lemma StaleBytesMatter(src: seq<Byte>, n: nat)
    ensures (forall s, s' :: |s| == F && |s'| == F ==> First(Decode(src, s), n) == First(Decode(src, s'), n))
            <==> !ReadsStale(N, Tokens(src, []), N + n)
  {
    MarksIff(src, n);
    if ReadsStale(N, Tokens(src, []), N + n) {
      StaleRelated(src, Repeat(0, F), Repeat(1, F), true);
      var i :| 0 <= i < |Marks(src)| && i < n && Marks(src)[i] != 0;
      assert First(Decode(src, Repeat(0, F)), n)[i] != First(Decode(src, Repeat(1, F)), n)[i];
    } else {
      forall s, s' | |s| == F && |s'| == F ensures First(Decode(src, s), n) == First(Decode(src, s'), n) {
        StaleRelated(src, s, s', false);
      }
    }
  }

  /** A flag byte for copies, and a copy of three bytes from slot N - F. */
  const STALE_STREAM: seq<Byte> := [0, 238, 240]

  lemma StaleExample()
    ensures Tokens(STALE_STREAM, []) == [Copy(N - F, 3)]
    ensures exists s, s' :: |s| == F && |s'| == F
                         && First(Decode(STALE_STREAM, s), 1) != First(Decode(STALE_STREAM, s'), 1)
  {
    var rest, bits := STALE_STREAM[1..], Bits(0, 8);
    assert rest == [238, 240] && rest[2..] == [] && !bits[0] && bits[1..] == Bits(0, 7);
    assert Tokens(rest, bits) == [Copy(N - F, 3)] + Tokens([], bits[1..]);
    assert Slot(N) == N - F && Distance(N, N - F) == N;
    StaleBytesMatter(STALE_STREAM, 1);
  }
}
