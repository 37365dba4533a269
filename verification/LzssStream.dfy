/**
 Properties of the compressed format itself: a writer that the decoder undoes, and how much a
 stream can expand.
 */
module LzssStream {
  import opened Bytes
  import opened LzssKeys
  import opened LzssDecoder
  import opened Sequences

  // ---- Writing tokens ---------------------------------------------------------------------

  ghost predicate AllValid(ts: seq<Token>) { forall i :: 0 <= i < |ts| ==> ValidToken(ts[i]) }

  function TokenBytes(t: Token): seq<Byte>
    requires ValidToken(t)
  {
    match t
    case Literal(c) => [c]
    case Copy(pos, len) => [pos % 256, (pos / 256) * 16 + (len - THRESHOLD - 1)]
  }

  function GroupBytes(ts: seq<Token>): seq<Byte>
    requires AllValid(ts)
  {
    if ts == [] then [] else TokenBytes(ts[0]) + GroupBytes(ts[1..])
  }

  /** Bit i is set when token i is a literal. */
  function FlagValue(ts: seq<Token>): (v: nat)
    ensures v < Pow2(|ts|)
  {
    if ts == [] then 0 else (if ts[0].Literal? then 1 else 0) + 2 * FlagValue(ts[1..])
  }

  function FlagByte(ts: seq<Token>): Byte
    requires |ts| <= 8
  {
    Pow2Small(|ts|);
    FlagValue(ts)
  }

  lemma Pow2Small(n: nat)
    requires n <= 8
    ensures Pow2(n) <= 256
  {
    assert Pow2(4) == 16;
    assert Pow2(8) == 256;
  }

  /** Groups of eight tokens, each after its flag byte. */
  function Encode(ts: seq<Token>): seq<Byte>
    requires AllValid(ts)
    decreases |ts|
  {
    if ts == [] then []
    else if |ts| <= 8 then [FlagByte(ts)] + GroupBytes(ts)
    else [FlagByte(ts[..8])] + GroupBytes(ts[..8]) + Encode(ts[8..])
  }

  function Kinds(ts: seq<Token>): seq<bool> {
    seq(|ts|, i requires 0 <= i < |ts| => ts[i].Literal?)
  }

  lemma {:induction false} FlagBits(ts: seq<Token>, n: nat)
    requires |ts| <= n
    ensures Bits(FlagValue(ts), n) == Kinds(ts) + seq(n - |ts|, _ => false)
    decreases n
  {
    if ts != [] {
      FlagBits(ts[1..], n - 1);
      assert FlagValue(ts) / 2 == FlagValue(ts[1..]);
      assert Kinds(ts) == [ts[0].Literal?] + Kinds(ts[1..]);
      assert Kinds(ts) + seq(n - |ts|, _ => false) ==
             [ts[0].Literal?] + (Kinds(ts[1..]) + seq(n - |ts|, _ => false));
    } else if n > 0 {
      FlagBits(ts, n - 1);
      assert Bits(0, n) == [false] + Bits(0, n - 1);
      assert Kinds(ts) == [];
      assert Kinds(ts) + seq(n, _ => false) == [false] + (Kinds(ts) + seq(n - 1, _ => false));
    }
  }

  lemma ReadOne(t: Token, tail: seq<Byte>, bits: seq<bool>)
    requires ValidToken(t)
    ensures Tokens(TokenBytes(t) + tail, [t.Literal?] + bits) == [t] + Tokens(tail, bits)
  {
  }

  lemma ReadFlag(c: Byte, tail: seq<Byte>)
    ensures Tokens([c] + tail, []) == Tokens(tail, Bits(c, 8))
  {
  }

  lemma {:induction false} ReadGroup(ts: seq<Token>, rest: seq<Byte>, extra: seq<bool>)
    requires AllValid(ts)
    ensures Tokens(GroupBytes(ts) + rest, Kinds(ts) + extra) == ts + Tokens(rest, extra)
    decreases |ts|
  {
    if ts == [] {
      assert GroupBytes(ts) + rest == rest && Kinds(ts) + extra == extra;
    } else {
      var t, us := ts[0], ts[1..];
      ReadGroup(us, rest, extra);
      var tail, bits := GroupBytes(us) + rest, Kinds(us) + extra;
      ReadOne(t, tail, bits);
      assert Kinds(ts) + extra == [t.Literal?] + bits;
      Regroup(TokenBytes(t), GroupBytes(us), rest);
      HeadTail(ts, Tokens(rest, extra));
    }
  }

  /** A group and its flag byte, with what follows it. */
  lemma ReadFlaggedGroup(g: seq<Token>, rest: seq<Byte>)
    requires AllValid(g) && |g| <= 8
    ensures Tokens([FlagByte(g)] + (GroupBytes(g) + rest), []) ==
            g + Tokens(rest, seq(8 - |g|, _ => false))
  {
    ReadFlag(FlagByte(g), GroupBytes(g) + rest);
    FlagBits(g, 8);
    ReadGroup(g, rest, seq(8 - |g|, _ => false));
  }

  /** Reading back what was written, for every sequence of tokens. */
  lemma {:induction false} ReadEncoded(ts: seq<Token>)
    requires AllValid(ts)
    ensures Tokens(Encode(ts), []) == ts
    decreases |ts|
  {
    if ts == [] {
    } else if |ts| <= 8 {
      ReadFlaggedGroup(ts, []);
      assert GroupBytes(ts) + [] == GroupBytes(ts) && ts + [] == ts;
    } else {
      var g, us := ts[..8], ts[8..];
      ReadFlaggedGroup(g, Encode(us));
      ReadEncoded(us);
      Regroup([FlagByte(g)], GroupBytes(g), Encode(us));
      var none: seq<bool> := seq(8 - |g|, _ => false);
      assert none == [];
      assert g + us == ts;
    }
  }

  /** The decoder turns written tokens into their meaning. */
  lemma DecodeEncoded(ts: seq<Token>, stale: seq<Byte>)
    requires AllValid(ts) && |stale| == F
    ensures Preset(stale) + Decode(Encode(ts), stale) == ExpandAll(Preset(stale), ts)
  {
    ReadEncoded(ts);
    ExpandAllExtends(Preset(stale), ts);
  }

  // ---- Expansion ----------------------------------------------------------------------------

  lemma {:induction false} ExpansionFrom(src: seq<Byte>, bits: seq<bool>, hist: seq<Byte>)
    requires |hist| >= N
    ensures |ExpandAll(hist, Tokens(src, bits))| <= |hist| + 9 * |src|
    decreases |src|
  {
    if bits == [] {
      if src != [] {
        ExpansionFrom(src[1..], Bits(src[0], 8), hist);
      }
    } else if bits[0] {
      if src != [] {
        assert Tokens(src, bits)[1..] == Tokens(src[1..], bits[1..]);
        ExpansionFrom(src[1..], bits[1..], hist + [src[0]]);
      }
    } else if |src| >= 2 {
      var t := Tokens(src, bits)[0];
      assert Tokens(src, bits)[1..] == Tokens(src[2..], bits[1..]);
      ExpandExtends(hist, t);
      ExpansionFrom(src[2..], bits[1..], Expand(hist, t));
    }
  }

  /** No stream decodes to more than nine times its length. */
  lemma Expansion(src: seq<Byte>, stale: seq<Byte>)
    requires |stale| == F
    ensures |Decode(src, stale)| <= 9 * |src|
  {
    ExpansionFrom(src, [], Preset(stale));
    ExpandAllExtends(Preset(stale), Tokens(src, []));
  }
}
