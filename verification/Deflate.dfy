/** deflate.c: matches found through hash chains, one fixed-code block, or stored blocks. */
module Deflate {

  import opened Wrappers
  import opened Bits
  import opened BitIo
  import opened Huffman
  import opened FixedCode
  import opened Lz
  import opened LzProof
  import opened Inflate

  const HASH_SIZE: nat := 32768
  const MAX_CHAIN: nat := 64
  const MAX_STORED: nat := 65535

  // ----- writing tokens -----

  /** The fixed codes have all that a token needs. */
  lemma {:induction false} FixedCodes(t: Token)
    ensures HasCode(LITERALS, END_OF_BLOCK) && Writable(LITERALS, DISTANCES, t)
  {
    LiteralsBefore(END_OF_BLOCK);
    match t
    case Literal(b) => LiteralsBefore(b);
    case Match(len, dist) => LiteralsBefore(LengthSymbol(len));
  }

  /** emit_literal. */
  method EmitLiteral(w: BitOut, byte: Byte)
    requires w.Valid()
    modifies w
    ensures w.Valid() && w.Content() == old(w.Content()) + TokenBits(LITERALS, DISTANCES, Literal(byte))
  {
    hide Code, CodeOf, BitOut.Content;
    LiteralCode(byte);
    LiteralsBefore(byte);
    if byte < 144 {
      w.PutHuff(0x30 + byte, 8);
    } else {
      w.PutHuff(0x190 + byte - 144, 9);
    }
  }

  method FindIndex(base: seq<nat>, last: nat, v: nat) returns (i: nat)
    requires last < |base|
    ensures i == IndexIn(base, last, v)
  {
    i := last;
    while i > 0 && base[i] > v
      invariant 0 <= i <= last && IndexIn(base, i, v) == IndexIn(base, last, v)
    {
      i := i - 1;
    }
  }

  /** A length in the fixed code. */
  lemma {:induction false} LengthParts(len: nat)
    requires MIN_MATCH <= len <= MAX_MATCH
    ensures var i := IndexIn(LEN_BASE, 28, len); var sym := 257 + i;
      && LEN_BASE[i] <= len && len - LEN_BASE[i] < Pow2(LEN_EXTRA[i]) && LEN_EXTRA[i] <= 13
      && LengthBits(LITERALS, len)
         == Code(if sym < 280 then sym - 256 else 0xC0 + sym - 280, if sym < 280 then 7 else 8)
            + Low(len - LEN_BASE[i], LEN_EXTRA[i])
  {
    hide Code, CodeOf, Low, Pow2, IndexIn;
    var i := IndexIn(LEN_BASE, 28, len);
    LiteralCode(257 + i);
    LiteralsBefore(257 + i);
    LengthFits(len);
    ExtraSmall(i);
  }

  /** emit_match: the length. */
  method EmitLength(w: BitOut, len: nat)
    requires w.Valid() && MIN_MATCH <= len <= MAX_MATCH
    modifies w
    ensures w.Valid() && w.Content() == old(w.Content()) + LengthBits(LITERALS, len)
  {
    hide Code, BitOut.Content, Low, Pow2, IndexIn, LengthBits;
    var li := FindIndex(LEN_BASE, 28, len);
    LengthParts(len);
    var sym := 257 + li;
    if sym < 280 {
      w.PutHuff(sym - 256, 7);
    } else {
      w.PutHuff(0xC0 + sym - 280, 8);
    }
    LowNone(len - LEN_BASE[li]);
    if LEN_EXTRA[li] > 0 {
      w.PutBits(len - LEN_BASE[li], LEN_EXTRA[li]);
    }
  }

  /** A distance in the fixed code. */
  lemma {:induction false} DistanceParts(dist: nat)
    requires 1 <= dist <= WINDOW
    ensures var i := IndexIn(DIST_BASE, 29, dist);
      && DIST_BASE[i] <= dist && dist - DIST_BASE[i] < Pow2(DIST_EXTRA[i]) && DIST_EXTRA[i] <= 13
      && DistanceBits(DISTANCES, dist) == Code(i, 5) + Low(dist - DIST_BASE[i], DIST_EXTRA[i])
  {
    hide Code, CodeOf, Low, Pow2, IndexIn;
    var i := IndexIn(DIST_BASE, 29, dist);
    DistanceCode(i);
    DistanceFits(dist);
    ExtraSmall(i);
  }

  /** emit_match: the distance. */
  method EmitDistance(w: BitOut, dist: nat)
    requires w.Valid() && 1 <= dist <= WINDOW
    modifies w
    ensures w.Valid() && w.Content() == old(w.Content()) + DistanceBits(DISTANCES, dist)
  {
    hide Code, BitOut.Content, Low, Pow2, IndexIn, DistanceBits;
    var di := FindIndex(DIST_BASE, 29, dist);
    DistanceParts(dist);
    w.PutHuff(di, 5);
    LowNone(dist - DIST_BASE[di]);
    if DIST_EXTRA[di] > 0 {
      w.PutBits(dist - DIST_BASE[di], DIST_EXTRA[di]);
    }
  }

  /** emit_match. */
  method EmitMatch(w: BitOut, len: nat, dist: nat)
    requires w.Valid()
    requires MIN_MATCH <= len <= MAX_MATCH && 1 <= dist <= WINDOW
    modifies w
    ensures w.Valid() && w.Content() == old(w.Content()) + TokenBits(LITERALS, DISTANCES, Match(len, dist))
  {
    hide BitOut.Content, LengthBits, DistanceBits;
    EmitLength(w, len);
    EmitDistance(w, dist);
  }

  // ----- finding matches -----

  /** a ^ b on n bits. */
  function Xor(a: nat, b: nat, n: nat): nat
    decreases n
  {
    if n == 0 then 0 else (a + b) % 2 + 2 * Xor(a / 2, b / 2, n - 1)
  }

  /** hash3. */
  function Hash3(a: Byte, b: Byte, c: Byte): (h: nat)
    ensures h < HASH_SIZE
  {
    HashPower();
    Mask(Xor(Xor(Shl(a, 10), Shl(b, 5), 18), c, 18), 15)
  }

  lemma {:induction false} HashPower()
    ensures Pow2(15) == HASH_SIZE
  {
    LargePowers();
    assert Pow2(14) == 2 * Pow2(13) && Pow2(15) == 2 * Pow2(14);
  }

  /** A position as a chain holds it: cut to 32 bits, and read as a signed number. */
  function Int32(p: nat): int {
    var m := p % 0x1_0000_0000;
    if m < 0x8000_0000 then m else m - 0x1_0000_0000
  }

  /** Of the positions before i, every one that starts three bytes has its place in a chain written. */
  ghost predicate Entered(n: nat, i: nat, head: seq<int>, prev: seq<Option<int>>) {
    && |head| == HASH_SIZE && |prev| == n
    && forall j :: 0 <= j < i && j + MIN_MATCH <= n ==> prev[j].Some?
  }

  /** The l bytes from i on repeat those from `dist` earlier. */
  predicate Repeats(input: seq<Byte>, i: nat, l: nat, dist: nat) {
    && 1 <= dist <= i && i + l <= |input|
    && forall j :: i <= j < i + l ==> input[j - dist] == input[j]
  }

  /** How long the match at a candidate is. */
  method MatchLength(input: seq<Byte>, cand: nat, i: nat) returns (l: nat)
    requires cand < i < |input|
    ensures l <= MAX_MATCH && Repeats(input, i, l, i - cand)
    ensures l < MAX_MATCH && i + l < |input| ==> input[cand + l] != input[i + l]
  {
    var max := |input| - i;
    if max > MAX_MATCH {
      max := MAX_MATCH;
    }
    l := 0;
    while l < max && input[cand + l] == input[i + l]
      invariant 0 <= l <= max && Repeats(input, i, l, i - cand)
    {
      l := l + 1;
    }
  }

  /** The search down a hash chain.  A position cut to 32 bits may lead anywhere: what it finds is
      taken only if it lies at most a window back, and compared byte by byte. */
  method FindMatch(input: seq<Byte>, i: nat, head: array<int>, prev: array<Option<int>>)
    returns (best: nat, dist: nat)
    requires i + MIN_MATCH <= |input| && Entered(|input|, i, head[..], prev[..])
    ensures best <= MAX_MATCH && (best > 0 ==> dist <= WINDOW && Repeats(input, i, best, dist))
  {
    hide Hash3, Int32;
    best, dist := 0, 0;
    var cand := head[Hash3(input[i], input[i + 1], input[i + 2])];
    var chain := 0;
    while cand >= 0 && chain < MAX_CHAIN
      invariant 0 <= chain <= MAX_CHAIN
      invariant best <= MAX_MATCH && (best > 0 ==> dist <= WINDOW && Repeats(input, i, best, dist))
      decreases MAX_CHAIN - chain
    {
      chain := chain + 1;
      if cand >= i || i - cand > WINDOW {
        break;
      }
      var l := MatchLength(input, cand, i);
      if l > best {
        best, dist := l, i - cand;
        if best >= MAX_MATCH {
          break;
        }
      }
      assert prev[cand] == prev[..][cand];
      cand := prev[cand].value;
    }
  }

  /** Put position j at the head of its chain. */
  method Enter(input: seq<Byte>, j: nat, head: array<int>, prev: array<Option<int>>)
    requires j < |input| && Entered(|input|, j, head[..], prev[..])
    modifies head, prev
    ensures Entered(|input|, j + 1, head[..], prev[..])
  {
    hide Hash3, Int32;
    if j + MIN_MATCH <= |input| {
      var h := Hash3(input[j], input[j + 1], input[j + 2]);
      ghost var prevs := prev[..];
      prev[j] := Some(head[h]);
      head[h] := Int32(j);
      assert prev[..] == prevs[j := prev[j]];
    }
  }

  // ----- tokens so far -----

  /** The matcher's position: the tokens so far stand for the bytes before i. */
  ghost predicate Covers(ts: seq<Token>, input: seq<Byte>, i: nat) {
    i <= |input| && AllGood(ts, 0) && Expand(ts, []) == input[..i]
  }

  lemma {:induction false} AppendToken(ts: seq<Token>, t: Token, out: seq<Byte>)
    requires AllGood(ts, |out|) && Good(t, |Expand(ts, out)|)
    ensures AllGood(ts + [t], |out|) && Expand(ts + [t], out) == Apply(Expand(ts, out), t)
    decreases |ts|
  {
    hide Apply;
    if ts == [] {
      assert ts + [t] == [t] && [t][1..] == [];
      ApplySize(out, t);
    } else {
      ApplySize(out, ts[0]);
      AppendToken(ts[1..], t, Apply(out, ts[0]));
      assert (ts + [t])[1..] == ts[1..] + [t];
      assert (ts + [t])[0] == ts[0];
    }
  }

  lemma {:induction false} AppendBits(ts: seq<Token>, t: Token, n: nat)
    requires AllGood(ts, n) && AllGood(ts + [t], n) && (t.Match? ==> t.len >= MIN_MATCH && t.dist >= 1)
    ensures BlockBits(LITERALS, DISTANCES, ts + [t], n)
         == BlockBits(LITERALS, DISTANCES, ts, n) + TokenBits(LITERALS, DISTANCES, t)
    decreases |ts|
  {
    hide TokenBits, Good;
    if ts == [] {
      assert ts + [t] == [t] && [t][1..] == [];
    } else {
      assert (ts + [t])[1..] == ts[1..] + [t] && (ts + [t])[0] == ts[0];
      AppendBits(ts[1..], t, n + Size(ts[0]));
    }
  }

  /** Copying back over a repetition goes on with the input. */
  lemma {:induction false} CopyIsInput(input: seq<Byte>, i: nat, l: nat, dist: nat)
    requires Repeats(input, i, l, dist)
    ensures CopyBack(input[..i], l, dist) == input[..i + l]
    decreases l
  {
    if l > 0 {
      var out := input[..i];
      assert out[i - dist] == input[i - dist] == input[i];
      assert out + [out[i - dist]] == input[..i + 1];
      RepeatsNext(input, i, l, dist);
      CopyIsInput(input, i + 1, l - 1, dist);
    }
  }

  lemma {:induction false} RepeatsNext(input: seq<Byte>, i: nat, l: nat, dist: nat)
    requires Repeats(input, i, l, dist) && l > 0
    ensures Repeats(input, i + 1, l - 1, dist)
  {
  }

  /** A token that agrees with the input keeps the tokens covering it. */
  lemma {:induction false} CoversMore(ts: seq<Token>, t: Token, input: seq<Byte>, i: nat)
    requires Covers(ts, input, i) && i < |input|
    requires match t
      case Literal(b) => b == input[i]
      case Match(len, dist) => MIN_MATCH <= len <= MAX_MATCH && dist <= WINDOW && Repeats(input, i, len, dist)
    ensures Covers(ts + [t], input, i + Size(t))
  {
    hide Repeats, Expand, AllGood;
    RepeatsBound(t, input, i);
    AppendToken(ts, t, []);
    if t.Match? {
      CopyIsInput(input, i, t.len, t.dist);
    }
  }

  lemma {:induction false} RepeatsBound(t: Token, input: seq<Byte>, i: nat)
    requires t.Match? ==> Repeats(input, i, t.len, t.dist)
    ensures t.Match? ==> 1 <= t.dist <= i && i + t.len <= |input|
  {
  }
}
