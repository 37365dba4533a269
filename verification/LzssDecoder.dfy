/**
 decompress_lzss.  A compressed stream is a sequence of tokens, eight to a flag byte.
 Its meaning is given against an unbounded history: a literal is appended, a copy repeats
 what stands a distance back.  The decoder keeps only the last 4096 bytes of that history,
 in a ring, and counts to eight with the high bits of one word.
 */
module LzssDecoder {
  import opened Bytes
  import opened LzssKeys

  datatype Token = Literal(c: Byte) | Copy(pos: int, len: int)

  predicate ValidToken(t: Token) {
    t.Copy? ==> 0 <= t.pos < N && THRESHOLD < t.len <= F
  }

  // ---- The stream as tokens -------------------------------------------------------------

  function Bits(c: nat, n: nat): (b: seq<bool>)
    ensures |b| == n
  {
    if n == 0 then [] else [c % 2 == 1] + Bits(c / 2, n - 1)
  }

  /** `i | ((j & 0xF0) << 4)` of two bytes. */
  function CopyPos(i: int, j: int): int { i + (j / 16) * 256 }

  /** `(j & 0x0F) + THRESHOLD`, and one more because the copy loop runs up to it. */
  function CopyLen(j: int): int { j % 16 + THRESHOLD + 1 }

  /**
   The tokens of src when `bits` are left of the current flag byte.  A token that the
   stream does not hold completely ends the sequence.
   */
  function Tokens(src: seq<Byte>, bits: seq<bool>): (ts: seq<Token>)
    ensures forall i :: 0 <= i < |ts| ==> ValidToken(ts[i])
    decreases |src|
  {
    if bits == [] then
      if src == [] then [] else Tokens(src[1..], Bits(src[0], 8))
    else if bits[0] then
      if src == [] then [] else [Literal(src[0])] + Tokens(src[1..], bits[1..])
    else
      if |src| < 2 then []
      else [Copy(CopyPos(src[0], src[1]), CopyLen(src[1]))] + Tokens(src[2..], bits[1..])
  }

  // ---- The meaning of tokens ---------------------------------------------------------------

  /** The ring slot of byte h of the history. */
  function Slot(h: nat): (s: nat)
    ensures s < N
  {
    (h + N - F) % N
  }

  /** How far back ring position `pos` lies when the history has h bytes: 1 to N. */
  function Distance(h: nat, pos: int): (d: nat)
    requires 0 <= pos < N
    ensures 1 <= d <= N
  {
    (Slot(h) - pos - 1) % N + 1
  }

  function CopyBack(hist: seq<Byte>, d: nat, n: nat): seq<Byte>
    requires 1 <= d <= |hist|
    decreases n
  {
    if n == 0 then hist else CopyBack(hist + [hist[|hist| - d]], d, n - 1)
  }

  function Expand(hist: seq<Byte>, t: Token): (r: seq<Byte>)
    requires |hist| >= N && ValidToken(t)
  {
    match t
    case Literal(c) => hist + [c]
    case Copy(pos, len) => CopyBack(hist, Distance(|hist|, pos), len)
  }

  function ExpandAll(hist: seq<Byte>, ts: seq<Token>): seq<Byte>
    requires |hist| >= N && forall i :: 0 <= i < |ts| ==> ValidToken(ts[i])
    decreases |ts|
  {
    if ts == [] then hist
    else
      ExpandExtends(hist, ts[0]);
      ExpandAll(Expand(hist, ts[0]), ts[1..])
  }

  lemma {:induction false} CopyBackExtends(hist: seq<Byte>, d: nat, n: nat)
    requires 1 <= d <= |hist|
    ensures hist <= CopyBack(hist, d, n) && |CopyBack(hist, d, n)| == |hist| + n
    decreases n
  {
    if n != 0 {
      CopyBackExtends(hist + [hist[|hist| - d]], d, n - 1);
    }
  }

  lemma ExpandExtends(hist: seq<Byte>, t: Token)
    requires |hist| >= N && ValidToken(t)
    ensures hist <= Expand(hist, t)
    ensures |Expand(hist, t)| == |hist| + if t.Literal? then 1 else t.len
  {
    if t.Copy? {
      CopyBackExtends(hist, Distance(|hist|, t.pos), t.len);
    }
  }

  lemma {:induction false} ExpandAllExtends(hist: seq<Byte>, ts: seq<Token>)
    requires |hist| >= N && forall i :: 0 <= i < |ts| ==> ValidToken(ts[i])
    ensures hist <= ExpandAll(hist, ts)
    decreases |ts|
  {
    if ts != [] {
      ExpandExtends(hist, ts[0]);
      ExpandAllExtends(Expand(hist, ts[0]), ts[1..]);
    }
  }

  /** What the ring stands for at first: F bytes that were never written, then spaces. */
  function Preset(stale: seq<Byte>): (h: seq<Byte>)
    requires |stale| == F
    ensures |h| == N
  {
    stale + seq(N - F, _ => ' ' as int)
  }

  /** The bytes that a stream decodes to. */
  function Decode(src: seq<Byte>, stale: seq<Byte>): seq<Byte>
    requires |stale| == F
  {
    ExpandAllExtends(Preset(stale), Tokens(src, []));
    ExpandAll(Preset(stale), Tokens(src, []))[N..]
  }

  // ---- The ring --------------------------------------------------------------------------

  /** The ring agrees with the last N bytes of the history. */
  ghost predicate RingOf(ring: seq<Byte>, hist: seq<Byte>) {
    && |ring| == N + F - 1 && |hist| >= N
    && forall h :: |hist| - N <= h < |hist| ==> ring[Slot(h)] == hist[h]
  }

  lemma RingPush(ring: seq<Byte>, hist: seq<Byte>, c: Byte)
    requires RingOf(ring, hist)
    ensures RingOf(ring[Slot(|hist|) := c], hist + [c])
  {
  }

  /** Ring position pos holds the byte at its distance. */
  lemma RingRead(ring: seq<Byte>, hist: seq<Byte>, pos: int)
    requires RingOf(ring, hist) && 0 <= pos < N
    ensures ring[pos] == hist[|hist| - Distance(|hist|, pos)]
  {
  }

  lemma SlotNext(h: nat)
    ensures Slot(h + 1) == (Slot(h) + 1) % N
  {
  }

  /** Reading and writing advance together, so the distance of a copy stays the same. */
  lemma DistanceKept(h: nat, pos: int)
    requires 0 <= pos < N
    ensures Distance(h + 1, (pos + 1) % N) == Distance(h, pos)
  {
    SlotNext(h);
    var s, p := Slot(h), (pos + 1) % N;
    var s' := Slot(h + 1);
    assert s' == if s == N - 1 then 0 else s + 1;
    assert p == if pos == N - 1 then 0 else pos + 1;
  }

  // ---- The flag word ---------------------------------------------------------------------

  /** `c | 0xFF00` shifted right: the bits that are left, and above them the ones that count. */
  function Packed(bits: seq<bool>): (w: nat)
    ensures w >= 255
  {
    if bits == [] then 255 else 2 * Packed(bits[1..]) + if bits[0] then 1 else 0
  }

  /** Bit 8 of the word is set exactly while flag bits are left. */
  lemma PackedCounts(bits: seq<bool>)
    requires |bits| <= 8
    ensures (Packed(bits) / 256) % 2 == 1 <==> bits != []
    ensures bits != [] ==> (Packed(bits) % 2 == 1 <==> bits[0]) && Packed(bits) / 2 == Packed(bits[1..])
  {
    assert (Packed(bits) / 256) % 2 == 1 <==> bits != [] by {
      PackedRange(bits);
      HighByte(Packed(bits), |bits|);
    }
  }

  lemma HighByte(p: nat, m: nat)
    requires m <= 8 && 255 * Pow2(m) <= p < 256 * Pow2(m)
    ensures (p / 256) % 2 == 1 <==> m != 0
  {
    assert Pow2(0) == 1 && Pow2(1) == 2 && Pow2(2) == 4 && Pow2(3) == 8;
    assert Pow2(4) == 16 && Pow2(5) == 32 && Pow2(6) == 64 && Pow2(7) == 128;
    assert Pow2(8) == 256;
    var q := Pow2(m);
    assert q == 1 || q == 2 || q == 4 || q == 8 || q == 16 || q == 32 || q == 64 || q == 128 || q == 256;
    assert p / 256 == q - 1;
  }

  function Pow2(n: nat): (p: nat) ensures p >= 1 { if n == 0 then 1 else 2 * Pow2(n - 1) }

  lemma {:induction false} PackedRange(bits: seq<bool>)
    ensures 255 * Pow2(|bits|) <= Packed(bits) < 256 * Pow2(|bits|)
  {
    if bits != [] {
      PackedRange(bits[1..]);
    }
  }

  /** Loading a flag byte. */
  lemma {:induction false} PackedLoad(c: nat, n: nat)
    requires c < Pow2(n)
    ensures Packed(Bits(c, n)) == 255 * Pow2(n) + c
  {
    if n != 0 {
      PackedLoad(c / 2, n - 1);
      assert Bits(c, n)[1..] == Bits(c / 2, n - 1);
    }
  }

  // ---- The decoder -------------------------------------------------------------------------

  /** The value of an unsigned count cast to a 32-bit int. */
  function ToInt32(n: nat): (r: int)
    ensures -0x8000_0000 <= r < 0x8000_0000 && (n - r) % 0x1_0000_0000 == 0
    ensures n < 0x8000_0000 ==> r == n
  {
    var m := n % 0x1_0000_0000;
    if m < 0x8000_0000 then m else m - 0x1_0000_0000
  }

  /** The output buffer holds what was decoded so far, and is untouched after it. */
  ghost predicate Written(dst: seq<Byte>, dst0: seq<Byte>, d: int, hist: seq<Byte>) {
    0 <= d <= |dst0| && |hist| == N + d && dst == hist[N..] + dst0[d..]
  }

  ghost predicate Synced(dst: seq<Byte>, dst0: seq<Byte>, ring: seq<Byte>, d: int, r: int, hist: seq<Byte>) {
    Written(dst, dst0, d, hist) && RingOf(ring, hist) && r == Slot(|hist|)
  }

  /** The state of the flag word when `bits` are left, before it is shifted. */
  ghost predicate FlagWord(flags: nat, bits: seq<bool>) {
    |bits| <= 8 && (flags / 2 == Packed(bits) || (flags == 0 && bits == []))
  }

  /** How much is written at most: the end is tested only after a byte was stored. */
  function Limit(dstlen: int): int { if dstlen <= 0 then 1 else dstlen }

  /** Lines 142-147 and 163-168: append one byte, and stop when the output is full. */
  method Emit(dst: array<Byte>, ring: array<Byte>, d: int, r: int, dstlen: int, c: Byte,
              ghost hist: seq<Byte>, ghost dst0: seq<Byte>)
    returns (d': int, r': int, full: bool)
    requires Synced(dst[..], dst0, ring[..], d, r, hist) && 0 <= d < Limit(dstlen) <= dst.Length && dst != ring
    modifies dst, ring
    ensures d' == d + 1 && Written(dst[..], dst0, d', hist + [c])
    ensures full <==> d' >= Limit(dstlen)
    ensures !full ==> Synced(dst[..], dst0, ring[..], d', r', hist + [c])
  {
    dst[d] := c;
    d', r', full := d + 1, r, d + 1 >= dstlen;
    assert (hist + [c])[N..] == hist[N..] + [c];
    assert dst0[d..][1..] == dst0[d'..];
    assert dst[..] == hist[N..] + [c] + dst0[d'..];
    if !full {
      RingPush(ring[..], hist, c);
      SlotNext(|hist|);
      ghost var was := ring[..];
      ring[r] := c;
      assert ring[..] == was[r := c];
      r' := (r + 1) % N;
    }
  }

  lemma CopyStep(h: nat, i: int, k: nat)
    requires 0 <= i < N
    ensures Distance(h + 1, (i + k + 1) % N) == Distance(h, (i + k) % N)
  {
    DistanceKept(h, (i + k) % N);
    NextMod(i + k);
  }

  lemma NextMod(a: nat)
    ensures (a % N + 1) % N == (a + 1) % N
  {
  }

  /** Lines 161-169: one copy. */
  method CopyRun(dst: array<Byte>, ring: array<Byte>, d: int, r: int, dstlen: int, i: int, j: int,
                 ghost hist: seq<Byte>, ghost dst0: seq<Byte>)
    returns (d': int, r': int, full: bool, ghost hist': seq<Byte>)
    requires Synced(dst[..], dst0, ring[..], d, r, hist) && 0 <= d < Limit(dstlen) <= dst.Length && dst != ring
    requires 0 <= i < N && 0 <= j
    modifies dst, ring
    ensures full ==> d' == Limit(dstlen) && Written(dst[..], dst0, d', hist')
                     && hist' <= CopyBack(hist, Distance(|hist|, i), j + 1)
    ensures !full ==> d' < Limit(dstlen) && Synced(dst[..], dst0, ring[..], d', r', hist')
                      && hist' == CopyBack(hist, Distance(|hist|, i), j + 1)
  {
    ghost var dist := Distance(|hist|, i);
    var k := 0;
    d', r', full, hist' := d, r, false, hist;
    while k <= j
      invariant 0 <= k <= j + 1 && 0 <= d' < Limit(dstlen) && !full
      invariant Synced(dst[..], dst0, ring[..], d', r', hist')
      invariant Distance(|hist'|, (i + k) % N) == dist
      invariant CopyBack(hist', dist, j + 1 - k) == CopyBack(hist, dist, j + 1)
    {
      var pos := (i + k) % N;
      var c := ring[pos];
      assert c == hist'[|hist'| - dist] by { RingRead(ring[..], hist', pos); }
      assert Distance(|hist'| + 1, (i + k + 1) % N) == dist by { CopyStep(|hist'|, i, k); }
      d', r', full := Emit(dst, ring, d', r', dstlen, c, hist', dst0);
      hist' := hist' + [c];
      if full {
        CopyBackExtends(hist', dist, j - k);
        return;
      }
      k := k + 1;
    }
  }

  /** What is left of the stream takes the history so far to the goal. */
  ghost predicate Leads(src: seq<Byte>, bits: seq<bool>, hist: seq<Byte>, goal: seq<Byte>) {
    |hist| >= N && ExpandAll(hist, Tokens(src, bits)) == goal
  }

  /** Decoding is over: the output is full, or the stream has come to its goal. */
  ghost predicate Finished(dst: seq<Byte>, dst0: seq<Byte>, d: int, limit: int, hist: seq<Byte>, goal: seq<Byte>) {
    Written(dst, dst0, d, hist) && hist <= goal && (d == limit || (d < limit && hist == goal))
  }

  lemma LoadStep(src: seq<Byte>, hist: seq<Byte>, goal: seq<Byte>)
    requires src != [] && Leads(src, [], hist, goal)
    ensures Leads(src[1..], Bits(src[0], 8), hist, goal)
  {
  }

  lemma LiteralStep(src: seq<Byte>, bits: seq<bool>, hist: seq<Byte>, goal: seq<Byte>)
    requires bits != [] && bits[0] && src != [] && Leads(src, bits, hist, goal)
    ensures Leads(src[1..], bits[1..], hist + [src[0]], goal) && hist + [src[0]] <= goal
  {
    var ts, rest := Tokens(src, bits), Tokens(src[1..], bits[1..]);
    assert ts[0] == Literal(src[0]) && ts[1..] == rest;
    ExpandAllExtends(hist + [src[0]], rest);
  }

  lemma CopyTokenStep(src: seq<Byte>, bits: seq<bool>, hist: seq<Byte>, goal: seq<Byte>)
    requires bits != [] && !bits[0] && |src| >= 2 && Leads(src, bits, hist, goal)
    ensures var pos, len := CopyPos(src[0], src[1]), CopyLen(src[1]);
            var hist' := CopyBack(hist, Distance(|hist|, pos), len);
            Leads(src[2..], bits[1..], hist', goal) && hist' <= goal
  {
    var t := Copy(CopyPos(src[0], src[1]), CopyLen(src[1]));
    var ts, rest := Tokens(src, bits), Tokens(src[2..], bits[1..]);
    assert ts[0] == t && ts[1..] == rest;
    ExpandExtends(hist, t);
    ExpandAllExtends(Expand(hist, t), rest);
  }

  lemma EndStep(src: seq<Byte>, bits: seq<bool>, hist: seq<Byte>, goal: seq<Byte>)
    requires Leads(src, bits, hist, goal)
    requires src == [] || (bits != [] && !bits[0] && |src| < 2)
    ensures hist == goal
  {
  }

  /** Lines 128-135: shift the flag word, and load the next flag byte when eight are used up. */
  method NextFlag(src: seq<Byte>, s: int, flags: nat, ghost bits: seq<bool>,
                  ghost hist: seq<Byte>, ghost goal: seq<Byte>)
    returns (s': int, flags': nat, stop: bool, ghost bits': seq<bool>)
    requires 0 <= s <= |src| && FlagWord(flags, bits) && Leads(src[s..], bits, hist, goal)
    ensures stop ==> hist == goal
    ensures !stop ==> s <= s' <= |src| && 0 < |bits'| <= 8 && flags' == Packed(bits')
                      && Leads(src[s'..], bits', hist, goal)
  {
    s', flags', bits', stop := s, flags / 2, bits, false;
    PackedCounts(bits);
    if (flags' / 256) % 2 == 0 {
      if s' >= |src| {
        EndStep(src[s..], bits, hist, goal);
        stop := true;
        return;
      }
      LoadStep(src[s..], hist, goal);
      var c := src[s'];
      s' := s' + 1;
      flags' := c as int + 0xFF00;
      bits' := Bits(c, 8);
      LoadFlags(c);
      assert src[s..][1..] == src[s'..];
    }
  }

  /** Lines 137-147: a literal. */
  method OneLiteral(dst: array<Byte>, ring: array<Byte>, d: int, r: int, dstlen: int, src: seq<Byte>, s: int,
                    ghost bits: seq<bool>, ghost hist: seq<Byte>, ghost dst0: seq<Byte>, ghost goal: seq<Byte>)
    returns (s': int, d': int, r': int, stop: bool, ghost hist': seq<Byte>)
    requires Synced(dst[..], dst0, ring[..], d, r, hist) && 0 <= d < Limit(dstlen) <= dst.Length && dst != ring
    requires 0 <= s <= |src| && bits != [] && bits[0] && Leads(src[s..], bits, hist, goal)
    modifies dst, ring
    ensures stop ==> Finished(dst[..], dst0, d', Limit(dstlen), hist', goal)
    ensures !stop ==> s < s' <= |src| && 0 <= d' < Limit(dstlen) && Synced(dst[..], dst0, ring[..], d', r', hist')
                      && Leads(src[s'..], bits[1..], hist', goal)
  {
    ghost var left := src[s..];
    s', d', r', stop, hist' := s, d, r, true, hist;
    if s' >= |src| {
      EndStep(left, bits, hist, goal);
      return;
    }
    LiteralStep(left, bits, hist, goal);
    var c := src[s'];
    s' := s' + 1;
    d', r', stop := Emit(dst, ring, d, r, dstlen, c, hist, dst0);
    hist' := hist + [c];
    assert src[s'..] == left[1..];
  }

  /** Lines 149-169: a copy. */
  method OneCopy(dst: array<Byte>, ring: array<Byte>, d: int, r: int, dstlen: int, src: seq<Byte>, s: int,
                 ghost bits: seq<bool>, ghost hist: seq<Byte>, ghost dst0: seq<Byte>, ghost goal: seq<Byte>)
    returns (s': int, d': int, r': int, stop: bool, ghost hist': seq<Byte>)
    requires Synced(dst[..], dst0, ring[..], d, r, hist) && 0 <= d < Limit(dstlen) <= dst.Length && dst != ring
    requires 0 <= s <= |src| && bits != [] && !bits[0] && Leads(src[s..], bits, hist, goal)
    modifies dst, ring
    ensures stop ==> Finished(dst[..], dst0, d', Limit(dstlen), hist', goal)
    ensures !stop ==> s < s' <= |src| && 0 <= d' < Limit(dstlen) && Synced(dst[..], dst0, ring[..], d', r', hist')
                      && Leads(src[s'..], bits[1..], hist', goal)
  {
    ghost var left := src[s..];
    s', d', r', stop, hist' := s, d, r, true, hist;
    if s' + 1 >= |src| {
      EndStep(left, bits, hist, goal);
      return;
    }
    CopyTokenStep(left, bits, hist, goal);
    var i, j := src[s'] as int, src[s' + 1] as int;
    s' := s' + 2;
    i := i + (j / 16) * 256;
    j := j % 16 + THRESHOLD;
    assert i == CopyPos(left[0], left[1]) && j + 1 == CopyLen(left[1]);
    d', r', stop, hist' := CopyRun(dst, ring, d, r, dstlen, i, j, hist, dst0);
    assert src[s'..] == left[2..];
  }

  /** Lines 136-170: one token. */
  method OneToken(dst: array<Byte>, ring: array<Byte>, d: int, r: int, dstlen: int, src: seq<Byte>, s: int, flags: nat,
                  ghost bits: seq<bool>, ghost hist: seq<Byte>, ghost dst0: seq<Byte>, ghost goal: seq<Byte>)
    returns (s': int, d': int, r': int, stop: bool, ghost hist': seq<Byte>)
    requires Synced(dst[..], dst0, ring[..], d, r, hist) && 0 <= d < Limit(dstlen) <= dst.Length && dst != ring
    requires 0 <= s <= |src| && 0 < |bits| <= 8 && flags == Packed(bits) && Leads(src[s..], bits, hist, goal)
    modifies dst, ring
    ensures stop ==> Finished(dst[..], dst0, d', Limit(dstlen), hist', goal)
    ensures !stop ==> s < s' <= |src| && 0 <= d' < Limit(dstlen) && Synced(dst[..], dst0, ring[..], d', r', hist')
                      && Leads(src[s'..], bits[1..], hist', goal)
  {
    PackedCounts(bits);
    if flags % 2 == 1 {
      s', d', r', stop, hist' := OneLiteral(dst, ring, d, r, dstlen, src, s, bits, hist, dst0, goal);
    } else {
      s', d', r', stop, hist' := OneCopy(dst, ring, d, r, dstlen, src, s, bits, hist, dst0, goal);
    }
  }

  /** decompress_lzss.  `stale` is what the last F slots of the ring hold before they are written. */
  method Decompress(dst: array<Byte>, dstlen: int, src: seq<Byte>, stale: seq<Byte>) returns (ret: int)
    requires 0 <= dstlen && Limit(dstlen) <= dst.Length && |stale| == F
    modifies dst
    ensures var out := Decode(src, stale);
            var n := if Limit(dstlen) <= |out| then Limit(dstlen) else |out|;
            ret == ToInt32(n) && (n < 0x8000_0000 ==> ret == n) && dst[..] == out[..n] + old(dst[..])[n..]
  {
    var ring := NewRing(stale);
    ghost var dst0 := dst[..];
    ghost var hist, bits := Preset(stale), [];
    ghost var goal := ExpandAll(hist, Tokens(src, []));
    var s, d, r, flags, stop := 0, 0, N - F, 0, false;
    assert src[0..] == src;
    Start(dst0, ring[..], stale);
    while !stop
      invariant 0 <= s <= |src| && d <= Limit(dstlen) && fresh(ring)
      invariant stop ==> Finished(dst[..], dst0, d, Limit(dstlen), hist, goal)
      invariant !stop ==> 0 <= d < Limit(dstlen) && Synced(dst[..], dst0, ring[..], d, r, hist)
                          && flags >= 0 && FlagWord(flags, bits) && Leads(src[s..], bits, hist, goal)
      decreases |src| - s, !stop
    {
      var s';
      ghost var bits';
      s', flags, stop, bits' := NextFlag(src, s, flags, bits, hist, goal);
      if !stop {
        s', d, r, stop, hist := OneToken(dst, ring, d, r, dstlen, src, s', flags, bits', hist, dst0, goal);
        bits := bits'[1..];
        if !stop {
          ShiftFlags(flags, bits');
          s := s';
        }
      }
    }
    ret := ToInt32(d);
    Final(dst[..], dst0, d, Limit(dstlen), hist, goal);
  }

  lemma Start(dst0: seq<Byte>, ring: seq<Byte>, stale: seq<Byte>)
    requires |stale| == F && RingOf(ring, Preset(stale))
    ensures Synced(dst0, dst0, ring, 0, N - F, Preset(stale))
  {
  }

  lemma ShiftFlags(flags: nat, bits: seq<bool>)
    requires 0 < |bits| <= 8 && flags == Packed(bits)
    ensures FlagWord(flags, bits[1..])
  {
  }

  /** Lines 122-124: a new ring, with spaces in all but the last F of its N slots. */
  method NewRing(stale: seq<Byte>) returns (ring: array<Byte>)
    requires |stale| == F
    ensures fresh(ring) && RingOf(ring[..], Preset(stale))
  {
    ring := new Byte[N + F - 1](i => if N - F <= i < N then stale[i - (N - F)] else 0);
    for i := 0 to N - F
      invariant forall k :: 0 <= k < i ==> ring[k] == ' ' as int
      invariant forall k :: N - F <= k < N ==> ring[k] == stale[k - (N - F)]
    {
      ring[i] := ' ' as int;
    }
    forall h | 0 <= h < N ensures ring[..][Slot(h)] == Preset(stale)[h] {
      assert Slot(h) == if h < F then h + N - F else h - F;
    }
  }

  lemma LoadFlags(c: Byte)
    ensures Packed(Bits(c, 8)) == 0xFF00 + c
  {
    assert Pow2(4) == 16;
    assert Pow2(8) == 256;
    PackedLoad(c, 8);
  }

  lemma Final(dst: seq<Byte>, dst0: seq<Byte>, d: int, limit: int, hist: seq<Byte>, goal: seq<Byte>)
    requires Finished(dst, dst0, d, limit, hist, goal)
    ensures |goal| >= N && d <= |goal[N..]|
    ensures d == if limit <= |goal[N..]| then limit else |goal[N..]|
    ensures dst == goal[N..][..d] + dst0[d..]
  {
  }
}
