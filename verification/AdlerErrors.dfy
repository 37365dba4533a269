/** Which changes of a buffer the checksum detects. */
module AdlerErrors {
  import opened Bytes
  import opened Adler32

  lemma {:induction false} ConcatSums(x: seq<Byte>, y: seq<Byte>)
    ensures SumA(x + y) == SumA(x) + SumA(y) - 1
    ensures SumB(x + y) == SumB(x) + SumB(y) + |y| * (SumA(x) - 1)
    decreases |y|
  {
    if y == [] {
      assert x + y == x;
    } else {
      var init := y[..|y| - 1];
      assert (x + y)[..|x + y| - 1] == x + init;
      ConcatSums(x, init);
      OneMore(|init|, SumA(x) - 1);
    }
  }

  lemma OneMore(n: int, c: int)
    ensures (n + 1) * c == n * c + c
  {
  }

  lemma SingleSums(a: Byte)
    ensures SumA([a]) == 1 + a && SumB([a]) == 1 + a
  {
  }

  /** A stretch a y b of the buffer, by the weights of its ends. */
  lemma StretchSums(a: Byte, y: seq<Byte>, b: Byte)
    ensures SumA([a] + y + [b]) == SumA(y) + a + b
    ensures SumB([a] + y + [b]) == SumB(y) + SumA(y) + (|y| + 2) * a + b + 1
  {
    SingleSums(a);
    SingleSums(b);
    ConcatSums([a], y);
    ConcatSums([a] + y, [b]);
    assert (|y| + 2) * a == |y| * a + 2 * a;
  }

  lemma SameChecksum(s: seq<Byte>, t: seq<Byte>)
    ensures Checksum(s) == Checksum(t) <==> SumA(s) % BASE == SumA(t) % BASE && SumB(s) % BASE == SumB(t) % BASE
  {
    LateReduction(s);
    LateReduction(t);
    PackUnique(Sums(s).0, Sums(s).1, Sums(t).0, Sums(t).1);
  }

  lemma PackUnique(a: nat, b: nat, a': nat, b': nat)
    requires a < BASE && a' < BASE
    ensures b * 65536 + a == b' * 65536 + a' <==> a == a' && b == b'
  {
  }

  lemma CongruentIff(x: int, y: int)
    ensures x % BASE == y % BASE <==> (x - y) % BASE == 0
  {
  }

  /** Replacing one byte by another always changes the checksum. */
  lemma OneByteDetected(x: seq<Byte>, a: Byte, b: Byte, y: seq<Byte>)
    requires a != b
    ensures Checksum(x + [a] + y) != Checksum(x + [b] + y)
  {
    var s, t := x + [a] + y, x + [b] + y;
    OneByteSums(x, a, y);
    OneByteSums(x, b, y);
    SameChecksum(s, t);
    ByteApart(SumA(x) + SumA(y) - 1, a, b);
  }

  lemma ByteApart(c: int, a: Byte, b: Byte)
    requires a != b
    ensures (c + a) % BASE != (c + b) % BASE
  {
    CongruentIff(c + a, c + b);
  }

  lemma OneByteSums(x: seq<Byte>, a: Byte, y: seq<Byte>)
    ensures SumA(x + [a] + y) == SumA(x) + SumA(y) + a - 1
  {
    SingleSums(a);
    ConcatSums(x, [a]);
    ConcatSums(x + [a], y);
  }

  // ---- Swapping two bytes -------------------------------------------------------------------

  lemma BaseHasNoSmallDivisor(e: nat)
    requires 2 <= e < 256
    ensures BASE % e != 0
  {
  }

  /** BASE has no divisor among the byte differences, so a multiple d * e of it comes from d. */
  lemma {:induction false} CancelFactor(d: int, e: nat)
    requires 1 <= e < 256 && (d * e) % BASE == 0
    ensures d % BASE == 0
    decreases e
  {
    if e > 1 {
      BaseHasNoSmallDivisor(e);
      var q, r := BASE / e, BASE % e;
      assert BASE == q * e + r && 0 < r < e;
      assert d * r == BASE * d - q * (d * e) by {
        assert d * (q * e + r) == q * (d * e) + d * r;
      }
      var k := (d * e) / BASE;
      assert d * e == BASE * k;
      assert BASE * d - q * (BASE * k) == BASE * (d - q * k);
      MultipleOfBase(d - q * k);
      CancelFactor(d, r);
    }
  }

  lemma MultipleOfBase(k: int)
    ensures (BASE * k) % BASE == 0
  {
  }

  lemma ScaleByte(d: int, e: int)
    requires -256 < e < 256
    ensures (d * e) % BASE == 0 <==> e == 0 || d % BASE == 0
  {
    if d % BASE == 0 {
      var k := d / BASE;
      assert d * e == BASE * (k * e);
      MultipleOfBase(k * e);
    } else if (d * e) % BASE == 0 && e > 0 {
      CancelFactor(d, e);
    } else if (d * e) % BASE == 0 && e < 0 {
      var k := (d * e) / BASE;
      assert d * -e == BASE * -k;
      MultipleOfBase(-k);
      CancelFactor(d, -e);
    }
  }

  lemma SwapDifference(x: seq<Byte>, u: seq<Byte>, v: seq<Byte>, z: seq<Byte>)
    requires |u| == |v| && SumA(u) == SumA(v)
    ensures SumA(x + u + z) == SumA(x + v + z)
    ensures SumB(x + u + z) - SumB(x + v + z) == SumB(u) - SumB(v)
  {
    ConcatSums(x, u);
    ConcatSums(x, v);
    ConcatSums(x + u, z);
    ConcatSums(x + v, z);
  }

  lemma SwapWeights(n: int, a: int, b: int)
    ensures ((n + 2) * a + b) - ((n + 2) * b + a) == (n + 1) * (a - b)
  {
  }

  /** Swapping two different bytes is missed exactly at distances that are multiples of BASE. */
  lemma SwapDetected(x: seq<Byte>, a: Byte, y: seq<Byte>, b: Byte, z: seq<Byte>)
    ensures Checksum(x + ([a] + y + [b]) + z) == Checksum(x + ([b] + y + [a]) + z)
            <==> a == b || (|y| + 1) % BASE == 0
  {
    var u, v := [a] + y + [b], [b] + y + [a];
    StretchSums(a, y, b);
    StretchSums(b, y, a);
    SwapDifference(x, u, v, z);
    SwapWeights(|y|, a, b);
    var s, t := x + u + z, x + v + z;
    SameChecksum(s, t);
    CongruentIff(SumB(s), SumB(t));
    ScaleByte(|y| + 1, a as int - b as int);
  }
}
