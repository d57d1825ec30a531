/** inflate.c: a run of stored blocks, blocks with the fixed codes and blocks with their own. */
module Inflate {

  import opened Wrappers
  import opened Bits
  import opened BitIo
  import opened Huffman
  import opened HuffTable
  import opened FixedCode
  import opened Lz
  import opened Dynamic

  /** What a stream gives. */
  datatype Inflated = Whole(out: seq<Byte>) | Broken

  function ToBytes(b: Bits): (r: seq<Byte>)
    requires |b| % 8 == 0
    ensures |r| == |b| / 8
  {
    if b == [] then []
    else
      ValueFits(b[..8]);
      SmallPowers();
      [Value(b[..8])] + ToBytes(b[8..])
  }

  /** Behind a length and its complement, n bytes. */
  function Payload(a: Bits, n: nat, out: seq<Byte>): (r: Option<Progress>)
    ensures r.Some? ==> |r.value.rest| <= |a|
  {
    if |a| < 32 + 8 * n then None
    else Some(Progress(a[32 + 8 * n..], out + ToBytes(a[32..32 + 8 * n])))
  }

  /** stored_block: skip to a byte boundary, then a length, its complement, and that many bytes. */
  function Stored(b: Bits, out: seq<Byte>): (r: Option<Progress>)
    ensures r.Some? ==> |r.value.rest| <= |b|
  {
    var a := b[|b| % 8..];
    if |a| < 32 then None else Payload(a, Value(a[..16]), out)
  }

  /** dynamic_block: the codes, then a block written with them. */
  function OwnCodes(b: Bits, out: seq<Byte>): (r: Option<Progress>)
    ensures r.Some? ==> |r.value.rest| <= |b|
  {
    match ReadHeader(b)
    case None => None
    case Some(h) => Block(h.lits, h.dists, h.rest, out)
  }

  /** A block of one of the three kinds. */
  function BlockOf(kind: nat, b: Bits, out: seq<Byte>): (r: Option<Progress>)
    ensures r.Some? ==> |r.value.rest| <= |b|
  {
    if kind == 0 then Stored(b, out)
    else if kind == 1 then Block(LITERALS, DISTANCES, b, out)
    else if kind == 2 then OwnCodes(b, out)
    else None
  }

  /** inflate_run from the bits b, with `out` already written. */
  function Run(b: Bits, out: seq<Byte>): Inflated
    decreases |b|
  {
    if |b| < 3 then Broken
    else
      match BlockOf(Value(b[1..3]), b[3..], out)
      case None => Broken
      case Some(p) => if b[0] then Whole(p.out) else Run(p.rest, p.out)
  }

  /** raw_inflate. */
  function InflateBytes(data: seq<Byte>): Inflated {
    Run(ByteBits(data), [])
  }

  // ----- the program -----

  /** The copy of a match, straight or byte by byte. */
  method CopyMatch(out: seq<Byte>, len: nat, dist: nat) returns (r: seq<Byte>)
    requires 1 <= dist <= |out|
    ensures r == CopyBack(out, len, dist)
  {
    if dist >= len {
      StraightCopy(out, len, dist);
      r := out + out[|out| - dist..|out| - dist + len];
    } else {
      r := out;
      var i := 0;
      while i < len
        invariant 0 <= i <= len && |r| == |out| + i
        invariant CopyBack(r, len - i, dist) == CopyBack(out, len, dist)
      {
        r := r + [r[|r| - dist]];
        i := i + 1;
      }
    }
  }

  /** Far enough back, a copy is a slice. */
  lemma {:induction false} StraightCopy(out: seq<Byte>, len: nat, dist: nat)
    requires 1 <= dist <= |out| && len <= dist
    ensures CopyBack(out, len, dist) == out + out[|out| - dist..|out| - dist + len]
    decreases len
  {
    if len == 0 {
      assert out + [] == out;
    } else {
      var next := out + [out[|out| - dist]];
      CopySlides(out, next, len - 1, dist);
    }
  }

  lemma {:induction false} CopySlides(out: seq<Byte>, now: seq<Byte>, len: nat, dist: nat)
    requires 1 <= dist <= |out| <= |now| && now[..|out|] == out && |now| - |out| + len <= dist
    ensures var k := |now| - dist; CopyBack(now, len, dist) == now + out[k..k + len]
    decreases len
  {
    var k := |now| - dist;
    if len == 0 {
      assert now + [] == now;
    } else {
      var next := now + [now[k]];
      assert now[k] == now[..|out|][k] == out[k];
      assert next[..|out|] == out;
      CopySlides(out, next, len - 1, dist);
      assert [out[k]] + out[k + 1..k + len] == out[k..k + len];
    }
  }

  /** inflate_block. */
  method InflateBlock(s: BitIn, lh: Huff, dh: Huff, ghost lits: seq<nat>, ghost dists: seq<nat>, before: seq<Byte>)
    returns (ok: bool, out: seq<Byte>)
    requires lh.Tables(lits) && dh.Tables(dists) && s.Valid() && !s.err
    modifies s
    ensures s.Valid()
    ensures match Block(lits, dists, old(s.Rest()), before)
      case Some(p) => ok && !s.err && out == p.out && s.Rest() == p.rest
      case None => !ok
  {
    hide Block, Huff.Tables, BitIn.Rest, BitIn.Valid, MatchAt, CopyBack, Lookup;
    out := before;
    ghost var whole := Block(lits, dists, s.Rest(), before);
    while true
      invariant lh.Tables(lits) && dh.Tables(dists) && s.Valid() && !s.err
      invariant Block(lits, dists, s.Rest(), out) == whole
      decreases |s.Rest()|
    {
      BlockStep(lits, dists, s.Rest(), out);
      var sym := lh.DecodeSymbol(s, lits);
      if s.err {
        return false, out;
      }
      if sym < 256 {
        out := out + [sym];
      } else if sym == END_OF_BLOCK {
        return true, out;
      } else if sym - 257 >= 29 {
        return false, out;
      } else {
        var found, len, dist := ReadMatch(s, dh, dists, sym - 257);
        if !found || dist > |out| {
          return false, out;
        }
        out := CopyMatch(out, len, dist);
      }
    }
  }

  method GetDistance(s: BitIn, dh: Huff, ghost dists: seq<nat>) returns (found: bool, dist: nat)
    requires dh.Tables(dists) && s.Valid() && !s.err
    modifies s
    ensures s.Valid()
    ensures match ReadDistance(dists, old(s.Rest()))
      case Some(d) => found && !s.err && dist == d.0 && s.Rest() == d.1
      case None => !found
  {
    hide Lookup, Huff.Tables, BitIn.Rest, BitIn.Valid, Extra;
    var sym := dh.DecodeSymbol(s, dists);
    if s.err || sym >= 30 {
      return false, 0;
    }
    ExtraSmall(sym);
    dist := GetExtra(s, DIST_BASE[sym], DIST_EXTRA[sym]);
    found := !s.err;
  }

  method ReadMatch(s: BitIn, dh: Huff, ghost dists: seq<nat>, i: nat) returns (found: bool, len: nat, dist: nat)
    requires i < 29 && dh.Tables(dists) && s.Valid() && !s.err
    modifies s
    ensures s.Valid()
    ensures match MatchAt(dists, i, old(s.Rest()))
      case Some(m) => found && !s.err && len == m.0 && dist == m.1 && s.Rest() == m.2
      case None => !found
  {
    hide ReadDistance, Huff.Tables, BitIn.Rest, BitIn.Valid, Extra;
    found, dist := false, 0;
    ExtraSmall(i);
    len := GetExtra(s, LEN_BASE[i], LEN_EXTRA[i]);
    if !s.err {
      found, dist := GetDistance(s, dh, dists);
    }
  }

  lemma {:induction false} ExtraSmall(i: nat)
    ensures i < 29 ==> LEN_EXTRA[i] <= 13
    ensures i < 30 ==> DIST_EXTRA[i] <= 13
  {
  }

  // ----- stored blocks -----

  lemma {:induction false} BytesBack(s: seq<Byte>)
    ensures ToBytes(ByteBits(s)) == s
    decreases |s|
  {
    hide Low, Value;
    if s != [] {
      var b := ByteBits(s);
      BytesBack(s[1..]);
      assert b[..8] == Low(s[0], 8) && b[8..] == ByteBits(s[1..]);
      ByteFits(s[0]);
      ValueIsMask(s[0], 8);
      MaskAll(s[0], 8);
    }
  }

  /** A little-endian number of two bytes. */
  function Word(s: seq<Byte>): nat
    requires |s| >= 2
  {
    s[0] as int + 256 * s[1] as int
  }

  lemma {:induction false} TwoBytes(s: seq<Byte>)
    requires |s| >= 2
    ensures Value(ByteBits(s)[..16]) == Word(s)
  {
    hide Low, Value, ByteBits, Shl, Pow2, Mask;
    NextByte(s, 0);
    NextByte(s, 1);
    assert s[0..] == s;
    assert ByteBits(s)[..16] == Low(s[0], 8) + Low(s[1], 8);
    ByteFits(s[0]);
    LowAbove(s[0], 8, s[1], 8);
    ByteFits(s[1]);
    ShlFits(s[1], 8, 8, s[0]);
    ValueIsMask(s[0] + Shl(s[1], 8), 16);
    MaskAll(s[0] + Shl(s[1], 8), 16);
    ShlByte(s[1]);
  }

  lemma {:induction false} ShlByte(v: nat)
    ensures Shl(v, 8) == 256 * v
  {
    assert Shl(v, 8) == 2 * Shl(v, 7) == 4 * Shl(v, 6) && Shl(v, 6) == 2 * Shl(v, 5) == 4 * Shl(v, 4);
    assert Shl(v, 4) == 2 * Shl(v, 3) == 4 * Shl(v, 2) && Shl(v, 2) == 2 * Shl(v, 1) == 4 * v;
  }

  lemma {:induction false} BitsOfSlice(s: seq<Byte>, i: nat, j: nat)
    requires i <= j <= |s|
    ensures ByteBits(s)[8 * i..8 * j] == ByteBits(s[i..j]) && ByteBits(s)[8 * j..] == ByteBits(s[j..])
  {
    hide ByteBits;
    assert s == s[..i] + s[i..j] + s[j..];
    ByteBitsAppend(s[..i] + s[i..j], s[j..]);
    ByteBitsAppend(s[..i], s[i..j]);
  }

  /** A stored block from a byte boundary on. */
  function StoredAt(s: seq<Byte>, out: seq<Byte>): Option<Progress> {
    if |s| < 4 || |s| < 4 + Word(s) then None
    else Some(Progress(ByteBits(s[4 + Word(s)..]), out + s[4..4 + Word(s)]))
  }

  lemma {:induction false} StoredInBytes(b: Bits, s: seq<Byte>, out: seq<Byte>)
    requires b[|b| % 8..] == ByteBits(s)
    ensures Stored(b, out) == StoredAt(s, out)
  {
    hide ByteBits, Value, ToBytes;
    if |s| >= 4 {
      TwoBytes(s);
      var n := Word(s);
      if |s| >= 4 + n {
        BitsOfSlice(s, 4, 4 + n);
        BytesBack(s[4..4 + n]);
      }
    }
  }

  method CopyStored(s: BitIn, before: seq<Byte>) returns (ok: bool, out: seq<Byte>)
    requires s.Valid() && !s.err && s.cnt == 0
    modifies s
    ensures s.Valid() && !s.err
    ensures match StoredAt(s.input[old(s.pos)..], before)
      case Some(p) => ok && out == p.out && s.Rest() == p.rest
      case None => !ok
  {
    hide ByteBits, Low, IsSuffix, BitIn.Rest;
    ghost var rest := s.input[s.pos..];
    ok, out := false, before;
    if s.pos + 4 > |s.input| {
      return;
    }
    assert rest[0] == s.input[s.pos] && rest[1] == s.input[s.pos + 1];
    var len := s.input[s.pos] as int + 256 * s.input[s.pos + 1] as int;
    assert len == Word(rest);
    hide Word;
    s.Skip(4);
    if s.pos + len > |s.input| {
      return;
    }
    out := out + s.input[s.pos..s.pos + len];
    assert rest[4..4 + len] == s.input[s.pos..s.pos + len];
    assert rest[4 + len..] == s.input[s.pos + len..];
    s.Skip(len);
    ok := true;
  }

  /** stored_block. */
  method StoredBlock(s: BitIn, before: seq<Byte>) returns (ok: bool, out: seq<Byte>)
    requires s.Valid() && !s.err
    modifies s
    ensures s.Valid() && !s.err
    ensures match Stored(old(s.Rest()), before)
      case Some(p) => ok && out == p.out && s.Rest() == p.rest
      case None => !ok
  {
    hide Stored, StoredAt, ByteBits, Low, IsSuffix, BitIn.Rest;
    ghost var b := s.Rest();
    s.Align();
    StoredInBytes(b, s.input[s.pos..], before);
    ok, out := CopyStored(s, before);
  }

  // ----- the run -----

  /** fixed_block and dynamic_block. */
  method CodedBlock(s: BitIn, kind: nat, before: seq<Byte>) returns (ok: bool, out: seq<Byte>)
    requires s.Valid() && !s.err && (kind == 1 || kind == 2)
    modifies s
    ensures s.Valid()
    ensures match BlockOf(kind, old(s.Rest()), before)
      case Some(p) => ok && !s.err && out == p.out && s.Rest() == p.rest
      case None => !ok
  {
    hide Block, ReadHeader, BitIn.Rest, BitIn.Valid, Huff.Tables;
    var lits, dists := LITERALS, DISTANCES;
    LengthsInRange();
    if kind == 2 {
      ok, lits, dists := GetHeader(s);
      if !ok {
        return false, before;
      }
    }
    var lh := new Huff(lits);
    var dh := new Huff(dists);
    ok, out := InflateBlock(s, lh, dh, lits, dists, before);
  }

  /** inflate_run: stops with an error or behind the final block. */
  method InflateRun(input: seq<Byte>) returns (r: Inflated)
    ensures r == InflateBytes(input)
  {
    hide Run, BlockOf, ByteBits, BitIn.Rest, BitIn.Valid, Value;
    var s := new BitIn(input);
    var out: seq<Byte> := [];
    while true
      invariant s.Valid() && !s.err && s.input == input && fresh(s)
      invariant Run(s.Rest(), out) == InflateBytes(input)
      decreases |s.Rest()|
    {
      ghost var b := s.Rest();
      RunStep(b, out);
      var final := s.GetBits(1);
      if s.err {
        return Broken;
      }
      var kind := s.GetBits(2);
      if s.err {
        return Broken;
      }
      assert s.Rest() == b[3..] by {
        assert b[1..][2..] == b[3..];
      }
      assert b[1..][..2] == b[1..3];
      KindsOfBlock(kind, b[3..], out);
      var ok := false;
      if kind == 0 {
        ok, out := StoredBlock(s, out);
      } else if kind == 1 || kind == 2 {
        ok, out := CodedBlock(s, kind, out);
      }
      if !ok {
        return Broken;
      }
      if final == 1 {
        return Whole(out);
      }
    }
  }

  lemma {:induction false} KindsOfBlock(kind: nat, b: Bits, out: seq<Byte>)
    ensures BlockOf(0, b, out) == Stored(b, out)
    ensures kind > 2 ==> BlockOf(kind, b, out) == None
  {
  }

  lemma {:induction false} LengthsInRange()
    ensures LengthsOk(LITERALS) && LengthsOk(DISTANCES)
  {
    forall i | 0 <= i < |LITERALS|
      ensures LITERALS[i] <= MAX_LENGTH
    {
      LiteralsBefore(i);
    }
  }

  lemma {:induction false} RunStep(b: Bits, out: seq<Byte>)
    ensures |b| < 3 ==> Run(b, out) == Broken
    ensures |b| >= 3 ==>
      && (Value(b[..1]) == 1 <==> b[0])
      && Run(b, out)
         == (match BlockOf(Value(b[1..3]), b[3..], out)
             case None => Broken
             case Some(p) => if b[0] then Whole(p.out) else Run(p.rest, p.out))
  {
    hide BlockOf;
    if |b| >= 3 {
      assert b[..1] == [b[0]];
      assert Value([b[0]]) == (if b[0] then 1 else 0) + 2 * Value([]);
    }
  }
}
