/** A block of tokens, written with any two codes that fit, is read back as what it stands for. */
module LzProof {

  import opened Wrappers
  import opened Bits
  import opened Huffman
  import opened FixedCode
  import opened Lz

  lemma {:induction false} SymbolDecodes(ls: seq<nat>, sym: nat, rest: Bits)
    requires Fits(ls) && HasCode(ls, sym)
    ensures var b := SymbolBits(ls, sym) + rest;
      Lookup(ls, b) == Some(Found(sym, ls[sym])) && b[ls[sym]..] == rest
  {
    hide Fits, Decode, CodeOf, Code, Lookup;
    var b := SymbolBits(ls, sym) + rest;
    assert b[..ls[sym]] == SymbolBits(ls, sym);
    DecodeFinds(ls, b, sym);
    LookupIsDecode(ls, b);
  }

  lemma {:induction false} ExtraReads(base: nat, n: nat, v: nat, rest: Bits)
    requires v < Pow2(n)
    ensures Extra(base, n, Low(v, n) + rest) == Some((base + v, rest))
  {
    hide Low, Value, Pow2;
    var b := Low(v, n) + rest;
    assert b[..n] == Low(v, n) && b[n..] == rest;
    ValueIsMask(v, n);
    MaskAll(v, n);
  }

  /** Between two entries there is no more than the extra bits can count. */
  lemma {:induction false} LengthRoom(i: nat)
    requires i < 28
    ensures LEN_BASE[i + 1] - LEN_BASE[i] <= Pow2(LEN_EXTRA[i])
  {
    hide Pow2;
    SmallPowers();
  }

  lemma {:induction false} DistanceRoom(i: nat)
    requires i < 29
    ensures DIST_BASE[i + 1] - DIST_BASE[i] <= Pow2(DIST_EXTRA[i])
  {
    hide Pow2;
    SmallPowers();
    LargePowers();
  }

  lemma {:induction false} LargePowers()
    ensures Pow2(10) == 1024 && Pow2(11) == 2048 && Pow2(12) == 4096 && Pow2(13) == 8192
  {
    SmallPowers();
    assert Pow2(10) == 2 * Pow2(9) && Pow2(11) == 2 * Pow2(10);
    assert Pow2(12) == 2 * Pow2(11) && Pow2(13) == 2 * Pow2(12);
  }

  lemma {:induction false} LengthFits(len: nat)
    requires MIN_MATCH <= len <= MAX_MATCH
    ensures var i := IndexIn(LEN_BASE, 28, len);
      LEN_BASE[i] <= len && len - LEN_BASE[i] < Pow2(LEN_EXTRA[i])
  {
    hide Pow2, IndexIn;
    SmallPowers();
    var i := IndexIn(LEN_BASE, 28, len);
    if i < 28 {
      assert LEN_BASE[i + 1] > len;
      LengthRoom(i);
    }
  }

  lemma {:induction false} DistanceFits(dist: nat)
    requires 1 <= dist <= WINDOW
    ensures var i := IndexIn(DIST_BASE, 29, dist);
      DIST_BASE[i] <= dist && dist - DIST_BASE[i] < Pow2(DIST_EXTRA[i])
  {
    hide Pow2, IndexIn;
    LargePowers();
    var i := IndexIn(DIST_BASE, 29, dist);
    if i < 29 {
      assert DIST_BASE[i + 1] > dist;
      DistanceRoom(i);
    }
  }

  lemma {:induction false} DistanceReads(dists: seq<nat>, dist: nat, rest: Bits)
    requires Fits(dists) && HasCode(dists, DistanceSymbol(dist)) && 1 <= dist <= WINDOW
    ensures ReadDistance(dists, DistanceBits(dists, dist) + rest) == Some((dist, rest))
  {
    hide Fits, Lookup, SymbolBits, Low, Pow2, IndexIn, Extra;
    var i := DistanceSymbol(dist);
    DistanceFits(dist);
    var extra := Low(dist - DIST_BASE[i], DIST_EXTRA[i]) + rest;
    assert DistanceBits(dists, dist) + rest == SymbolBits(dists, i) + extra;
    SymbolDecodes(dists, i, extra);
    ExtraReads(DIST_BASE[i], DIST_EXTRA[i], dist - DIST_BASE[i], rest);
  }

  /** One token, and the block goes on behind it. */
  lemma {:induction false} TokenDecodes(lits: seq<nat>, dists: seq<nat>, t: Token, rest: Bits, out: seq<Byte>)
    requires Fits(lits) && Fits(dists) && Writable(lits, dists, t) && Good(t, |out|)
    ensures Block(lits, dists, TokenBits(lits, dists, t) + rest, out) == Block(lits, dists, rest, Apply(out, t))
  {
    match t
    case Literal(b) =>
      LiteralDecodes(lits, dists, b, rest, out);
    case Match(len, dist) =>
      MatchDecodes(lits, dists, len, dist, rest, out);
  }

  lemma {:induction false} LiteralDecodes(lits: seq<nat>, dists: seq<nat>, byte: Byte, rest: Bits, out: seq<Byte>)
    requires Fits(lits) && HasCode(lits, byte)
    ensures Block(lits, dists, SymbolBits(lits, byte) + rest, out) == Block(lits, dists, rest, out + [byte])
  {
    hide Fits, Lookup, SymbolBits;
    SymbolDecodes(lits, byte, rest);
  }

  lemma {:induction false} MatchDecodes(
      lits: seq<nat>, dists: seq<nat>, len: nat, dist: nat, rest: Bits, out: seq<Byte>)
    requires Fits(lits) && Fits(dists) && Writable(lits, dists, Match(len, dist)) && Good(Match(len, dist), |out|)
    ensures Block(lits, dists, LengthBits(lits, len) + DistanceBits(dists, dist) + rest, out)
         == Block(lits, dists, rest, CopyBack(out, len, dist))
  {
    hide Fits, Lookup, SymbolBits, LengthExtra, DistanceBits, CopyBack, Block, MatchAt, IndexIn;
    var sym := LengthSymbol(len);
    var more := LengthExtra(len) + (DistanceBits(dists, dist) + rest);
    var b := LengthBits(lits, len) + DistanceBits(dists, dist) + rest;
    assert b == SymbolBits(lits, sym) + more;
    SymbolDecodes(lits, sym, more);
    MatchReads(dists, len, dist, rest);
    BlockStep(lits, dists, b, out);
  }

  lemma {:induction false} MatchReads(dists: seq<nat>, len: nat, dist: nat, rest: Bits)
    requires Fits(dists) && HasCode(dists, DistanceSymbol(dist))
    requires MIN_MATCH <= len <= MAX_MATCH && 1 <= dist <= WINDOW
    ensures MatchAt(dists, LengthSymbol(len) - 257, LengthExtra(len) + (DistanceBits(dists, dist) + rest))
         == Some((len, dist, rest))
  {
    hide Fits, IndexIn, Extra, LengthExtra, DistanceBits, ReadDistance;
    LengthReads(len, DistanceBits(dists, dist) + rest);
    DistanceReads(dists, dist, rest);
  }

  lemma {:induction false} LengthReads(len: nat, rest: Bits)
    requires MIN_MATCH <= len <= MAX_MATCH
    ensures var i := LengthSymbol(len) - 257;
      i < 29 && Extra(LEN_BASE[i], LEN_EXTRA[i], LengthExtra(len) + rest) == Some((len, rest))
  {
    hide Low, Pow2, IndexIn, Extra;
    var i := IndexIn(LEN_BASE, 28, len);
    LengthFits(len);
    ExtraReads(LEN_BASE[i], LEN_EXTRA[i], len - LEN_BASE[i], rest);
  }

  // ----- whole blocks -----

  /** Every token may be written where it stands. */
  predicate AllGood(ts: seq<Token>, n: nat)
    decreases |ts|
  {
    ts == [] || (Good(ts[0], n) && AllGood(ts[1..], n + Size(ts[0])))
  }

  /** How many bytes a token stands for. */
  function Size(t: Token): nat {
    if t.Literal? then 1 else t.len
  }

  lemma {:induction false} CopySize(out: seq<Byte>, len: nat, dist: nat)
    requires 1 <= dist <= |out|
    ensures |CopyBack(out, len, dist)| == |out| + len
    decreases len
  {
    if len > 0 {
      CopySize(out + [out[|out| - dist]], len - 1, dist);
    }
  }

  lemma {:induction false} ApplySize(out: seq<Byte>, t: Token)
    requires Good(t, |out|)
    ensures |Apply(out, t)| == |out| + Size(t)
  {
    if t.Match? {
      CopySize(out, t.len, t.dist);
    }
  }

  function Expand(ts: seq<Token>, out: seq<Byte>): seq<Byte>
    requires AllGood(ts, |out|)
    decreases |ts|
  {
    if ts == [] then out else ApplySize(out, ts[0]); Expand(ts[1..], Apply(out, ts[0]))
  }

  function BlockBits(lits: seq<nat>, dists: seq<nat>, ts: seq<Token>, n: nat): Bits
    requires AllGood(ts, n)
    decreases |ts|
  {
    if ts == [] then [] else TokenBits(lits, dists, ts[0]) + BlockBits(lits, dists, ts[1..], n + Size(ts[0]))
  }

  /** The two codes have what the tokens and the end of the block need. */
  predicate AllWritable(lits: seq<nat>, dists: seq<nat>, ts: seq<Token>) {
    HasCode(lits, END_OF_BLOCK) && forall i :: 0 <= i < |ts| ==> Writable(lits, dists, ts[i])
  }

  /** Reading a written block, its end symbol included, gives what its tokens stand for. */
  lemma {:induction false} BlockDecodes(lits: seq<nat>, dists: seq<nat>, ts: seq<Token>, rest: Bits, out: seq<Byte>)
    requires Fits(lits) && Fits(dists) && AllWritable(lits, dists, ts) && AllGood(ts, |out|)
    ensures Block(lits, dists, BlockBits(lits, dists, ts, |out|) + SymbolBits(lits, END_OF_BLOCK) + rest, out)
         == Some(Progress(rest, Expand(ts, out)))
    decreases |ts|
  {
    hide Fits, Lookup, SymbolBits, TokenBits, Apply, Writable;
    var end := SymbolBits(lits, END_OF_BLOCK) + rest;
    if ts == [] {
      assert BlockBits(lits, dists, ts, |out|) + SymbolBits(lits, END_OF_BLOCK) + rest == end;
      SymbolDecodes(lits, END_OF_BLOCK, rest);
    } else {
      ApplySize(out, ts[0]);
      var more := BlockBits(lits, dists, ts[1..], |out| + Size(ts[0])) + SymbolBits(lits, END_OF_BLOCK) + rest;
      assert BlockBits(lits, dists, ts, |out|) + SymbolBits(lits, END_OF_BLOCK) + rest
          == TokenBits(lits, dists, ts[0]) + more;
      TokenDecodes(lits, dists, ts[0], more, out);
      BlockDecodes(lits, dists, ts[1..], rest, Apply(out, ts[0]));
    }
  }
}
