/**
 mkext_adler32.  The checksum of sections 2.2 and 9 of RFC 1950 keeps two sums modulo
 65521 and reduces them at every byte; the kernel reduces them every 5552 bytes and relies
 on 32-bit sums not overflowing in between.
 */
module Adler32 {
  import opened Bytes

  const BASE := 65521
  const NMAX := 5552

  // ---- The checksum by its definition -----------------------------------------------------

  /** Both sums after buf, reduced at every byte. */
  function Sums(buf: seq<Byte>): (s: (nat, nat))
    ensures s.0 < BASE && s.1 < BASE
  {
    if buf == [] then (1, 0)
    else
      var (a, b) := Sums(buf[..|buf| - 1]);
      var a' := (a + buf[|buf| - 1]) % BASE;
      (a', (b + a') % BASE)
  }

  function Checksum(buf: seq<Byte>): nat { Sums(buf).1 * 65536 + Sums(buf).0 }

  /** The sums without any reduction. */
  function SumA(buf: seq<Byte>): nat {
    if buf == [] then 1 else SumA(buf[..|buf| - 1]) + buf[|buf| - 1]
  }

  function SumB(buf: seq<Byte>): nat {
    if buf == [] then 0 else SumB(buf[..|buf| - 1]) + SumA(buf)
  }

  lemma ReducedPlus(x: nat, y: nat)
    ensures (x % BASE + y) % BASE == (x + y) % BASE
  {
  }

  /** Reducing late gives the same sums. */
  lemma {:induction false} LateReduction(buf: seq<Byte>)
    ensures Sums(buf) == (SumA(buf) % BASE, SumB(buf) % BASE)
    decreases |buf|
  {
    if buf != [] {
      var init, x := buf[..|buf| - 1], buf[|buf| - 1];
      LateReduction(init);
      ReducedPlus(SumA(init), x);
      ReducedPlus(SumB(init), SumA(buf) % BASE);
      ReducedPlus(SumA(buf), SumB(init));
    }
  }

  /** The first sum is the low half of the checksum, and the second one the high half. */
  lemma Halves(buf: seq<Byte>)
    ensures Checksum(buf) % 65536 == SumA(buf) % BASE && Checksum(buf) / 65536 == SumB(buf) % BASE
  {
    LateReduction(buf);
  }

  // ---- The block size ----------------------------------------------------------------------

  /** The largest that the second sum can be m bytes after a reduction. */
  function Worst(m: nat): nat {
    if m == 0 then BASE - 1 else Worst(m - 1) + (BASE - 1) + 255 * m
  }

  lemma {:induction false} WorstClosed(m: nat)
    ensures 2 * Worst(m) == 2 * (m + 1) * (BASE - 1) + 255 * m * (m + 1)
  {
    if m != 0 {
      WorstClosed(m - 1);
      assert 255 * (m - 1) * m + 2 * 255 * m == 255 * m * (m + 1);
      assert 2 * m * (BASE - 1) + 2 * (BASE - 1) == 2 * (m + 1) * (BASE - 1);
    }
  }

  lemma {:induction false} WorstGrows(m: nat, n: nat)
    requires m <= n
    ensures Worst(m) <= Worst(n)
    decreases n
  {
    if m < n {
      WorstGrows(m, n - 1);
    }
  }

  lemma WorstLimit(n: nat)
    ensures Worst(n) < WORD <==> n <= NMAX
  {
    WorstClosed(NMAX);
    WorstClosed(NMAX + 1);
    if n <= NMAX {
      WorstGrows(n, NMAX);
    } else {
      WorstGrows(NMAX + 1, n);
    }
  }

  /** Both sums from given starting values, without reduction. */
  function From(a: nat, b: nat, buf: seq<Byte>): (nat, nat) {
    if buf == [] then (a, b)
    else
      var (x, y) := From(a, b, buf[..|buf| - 1]);
      (x + buf[|buf| - 1], y + x + buf[|buf| - 1])
  }

  /** No content exceeds the bound. */
  lemma {:induction false} FromBound(a: nat, b: nat, buf: seq<Byte>)
    requires a < BASE && b < BASE
    ensures From(a, b, buf).0 <= BASE - 1 + 255 * |buf| <= Worst(|buf|) && From(a, b, buf).1 <= Worst(|buf|)
    decreases |buf|
  {
    if buf != [] {
      FromBound(a, b, buf[..|buf| - 1]);
    }
  }

  /** The bound is reached, by bytes of 255 after the largest remainders. */
  lemma {:induction false} WorstIsReached(n: nat)
    ensures From(BASE - 1, BASE - 1, Repeat(255, n)) == (BASE - 1 + 255 * n, Worst(n))
  {
    if n != 0 {
      assert Repeat(255, n)[..n - 1] == Repeat(255, n - 1);
      WorstIsReached(n - 1);
    }
  }

  /** The sums of a block stay within 32 bits after a reduction. */
  ghost predicate Fits(a: nat, b: nat, buf: seq<Byte>) {
    a < BASE && b < BASE ==> From(a, b, buf).0 < WORD && From(a, b, buf).1 < WORD
  }

  /** 5552 is the largest size at which every block fits, whatever it holds and follows. */
  lemma LargestBlock(n: nat)
    ensures (forall a: nat, b: nat, buf: seq<Byte> :: |buf| == n ==> Fits(a, b, buf)) <==> n <= NMAX
  {
    WorstLimit(n);
    if n <= NMAX {
      forall a: nat, b: nat, buf: seq<Byte> | |buf| == n ensures Fits(a, b, buf) {
        if a < BASE && b < BASE { FromBound(a, b, buf); }
      }
    } else {
      WorstIsReached(n);
      assert !Fits(BASE - 1, BASE - 1, Repeat(255, n));
    }
  }

  /** Summing on from reduced sums and reducing once gives the sums of the definition. */
  lemma {:induction false} FromReduced(x: seq<Byte>, y: seq<Byte>)
    ensures var s := From(Sums(x).0, Sums(x).1, y);
            Sums(x + y) == (s.0 % BASE, s.1 % BASE)
    decreases |y|
  {
    if y == [] {
      assert x + y == x;
      SmallMod(Sums(x).0);
      SmallMod(Sums(x).1);
    } else {
      var z, c := y[..|y| - 1], y[|y| - 1];
      assert (x + y)[..|x + y| - 1] == x + z;
      FromReduced(x, z);
      var (a, b) := From(Sums(x).0, Sums(x).1, z);
      ReducedStep(a, b, c);
    }
  }

  /** One byte more, after a reduction and before it. */
  lemma ReducedStep(a: nat, b: nat, c: nat)
    ensures (a % BASE + c) % BASE == (a + c) % BASE
    ensures (b % BASE + (a + c) % BASE) % BASE == (b + a + c) % BASE
  {
    ReducedPlus(a, c);
    ReducedPlus(b, (a + c) % BASE);
    ReducedPlus(a + c, b);
  }

  lemma SmallMod(x: int)
    requires 0 <= x < BASE
    ensures x % BASE == x
  {
  }

  // ---- The kernel's loop ------------------------------------------------------------------

  /** Within a block neither 32-bit sum wraps around. */
  lemma OneByte(a: nat, b: nat, buf: seq<Byte>, start: nat, i: nat)
    requires a < BASE && b < BASE && start <= i < |buf| && i - start < NMAX
    ensures var (s1, s2) := From(a, b, buf[start..i]);
            var t1 := Add32(s1, buf[i]);
            From(a, b, buf[start..i + 1]) == (t1, Add32(s2, t1))
  {
    var next := buf[start..i + 1];
    assert next[..|next| - 1] == buf[start..i] && next[|next| - 1] == buf[i];
    FromBound(a, b, next);
    WorstLimit(|next|);
  }

  /** Lines 53-63: the next k bytes, sixteen at a time and then one at a time, without any wrap-around. */
  method Block(buf: seq<Byte>, start: nat, count: nat, a: nat, b: nat) returns (s1: int, s2: int)
    requires count <= NMAX && start + count <= |buf| && a < BASE && b < BASE
    ensures (s1, s2) == From(a, b, buf[start..start + count])
  {
    var i, k := start, count;
    s1, s2 := a, b;
    while k >= 16
      invariant 0 <= k && start <= i && i + k == start + count
      invariant (s1, s2) == From(a, b, buf[start..i])
    {
      for j := 0 to 16
        invariant (s1, s2) == From(a, b, buf[start..i + j])
      {
        OneByte(a, b, buf, start, i + j);
        s1 := Add32(s1, buf[i + j]);
        s2 := Add32(s2, s1);
      }
      i, k := i + 16, k - 16;
    }
    while k != 0
      invariant 0 <= k && start <= i && i + k == start + count
      invariant (s1, s2) == From(a, b, buf[start..i])
    {
      OneByte(a, b, buf, start, i);
      s1 := Add32(s1, buf[i]);
      i := i + 1;
      s2 := Add32(s2, s1);
      k := k - 1;
    }
  }

  method Adler32(buf: seq<Byte>, len: int) returns (r: int)
    requires len <= |buf|
    ensures var data := if len <= 0 then [] else buf[..len];
            r == Checksum(data) && r % 65536 == SumA(data) % BASE && r / 65536 == SumB(data) % BASE
  {
    var s1, s2, i, left := 1, 0, 0, len;
    ghost var n := if len <= 0 then 0 else len;
    while left > 0
      invariant 0 <= i <= n && (left > 0 ==> i + left == n) && (left <= 0 ==> i == n)
      invariant (s1, s2) == Sums(buf[..i])
    {
      var k := if left < NMAX then left else NMAX;
      left := left - k;
      s1, s2 := Block(buf, i, k, s1, s2);
      FromReduced(buf[..i], buf[i..i + k]);
      assert buf[..i] + buf[i..i + k] == buf[..i + k];
      i := i + k;
      s1 := s1 % BASE;
      s2 := s2 % BASE;
    }
    r := s2 * 65536 + s1;
    assert len <= 0 ==> buf[..n] == [];
    Halves(buf[..n]);
  }
}
