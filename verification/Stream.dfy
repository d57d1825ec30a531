/**
 Streams of the format of RFC 1951 as a writer may put them together: any number of stored
 blocks, blocks with the fixed codes and blocks with codes of their own.  inflate reads them all.
 */
module Stream {

  import opened Wrappers
  import opened Bits
  import opened Huffman
  import opened FixedCode
  import opened Lz
  import opened LzProof
  import opened Dynamic
  import opened Inflate

  // ----- the code for code lengths -----

  /** Where the length of a symbol stands in the written order. */
  function PlaceAt(sym: nat): (i: nat)
    requires sym < 19
    ensures i < 19
  {
    if sym >= 16 then sym - 16
    else if sym == 0 then 3
    else if sym >= 8 then 2 * sym - 12
    else 19 - 2 * sym
  }

  /** The order is 16, 17, 18, 0 and then up and down from 8 in turn. */
  lemma {:induction false} OrderShape(i: nat)
    requires i < 19
    ensures OrderAt(i) == if i < 3 then 16 + i else if i == 3 then 0
                          else if i % 2 == 0 then (i + 12) / 2 else (19 - i) / 2
  {
  }

  lemma {:induction false} OrderPlaces(i: nat, sym: nat)
    requires i < 19 && sym < 19
    ensures OrderAt(PlaceAt(sym)) == sym && PlaceAt(OrderAt(i)) == i
  {
    hide OrderAt;
    OrderShape(i);
    OrderShape(PlaceAt(sym));
  }

  function CodeBits(cl: seq<nat>, i: nat, n: nat): Bits
    requires |cl| == 19 && i <= n <= 19
    decreases n - i
  {
    if i == n then [] else Low(cl[OrderAt(i)], 3) + CodeBits(cl, i + 1, n)
  }

  /** The lengths read so far are there, the others are 0. */
  predicate ReadTo(acc: seq<nat>, cl: seq<nat>, i: nat)
    requires |acc| == 19 && |cl| == 19
  {
    forall s :: 0 <= s < 19 ==> acc[s] == if PlaceAt(s) < i then cl[s] else 0
  }

  lemma {:induction false} CodeReads(cl: seq<nat>, i: nat, n: nat, acc: seq<nat>, rest: Bits)
    requires |cl| == 19 && |acc| == 19 && Small(cl, 7) && Small(acc, 7) && i <= n <= 19
    requires ReadTo(acc, cl, i) && ReadTo(cl, cl, n)
    ensures ReadCode(CodeBits(cl, i, n) + rest, i, n, acc) == Some((cl, rest))
    decreases n - i
  {
    hide Low, Value, OrderAt, PlaceAt;
    var b := CodeBits(cl, i, n) + rest;
    if i == n {
      assert b == rest;
      assert acc == cl;
    } else {
      var sym := OrderAt(i);
      var more := CodeBits(cl, i + 1, n) + rest;
      var next := acc[sym := cl[sym]];
      assert b == Low(cl[sym], 3) + more;
      ThreeBits(cl[sym]);
      assert b[..3] == Low(cl[sym], 3) && b[3..] == more;
      forall s | 0 <= s < 19
        ensures next[s] == if PlaceAt(s) < i + 1 then cl[s] else 0
      {
        OrderPlaces(i, s);
      }
      CodeReads(cl, i + 1, n, next, rest);
    }
  }

  lemma {:induction false} ThreeBits(v: nat)
    requires v <= 7
    ensures Value(Low(v, 3)) == v
  {
    hide Low, Value;
    SmallPowers();
    ValueIsMask(v, 3);
    MaskAll(v, 3);
  }

  // ----- the lengths -----

  /** How a writer may put down lengths: one, the last one 3 to 6 times, 3 to 10 or 11 to 138 zeros. */
  datatype Step = One(len: nat) | Again(n: nat) | Gap(n: nat) | LongGap(n: nat)

  function StepBits(cl: seq<nat>, s: Step): Bits
    requires (s.Again? || s.Gap? ==> s.n >= 3) && (s.LongGap? ==> s.n >= 11)
  {
    match s
    case One(len) => SymbolBits(cl, len)
    case Again(n) => SymbolBits(cl, 16) + Low(n - 3, 2)
    case Gap(n) => SymbolBits(cl, 17) + Low(n - 3, 3)
    case LongGap(n) => SymbolBits(cl, 18) + Low(n - 11, 7)
  }

  predicate StepOk(cl: seq<nat>, s: Step, lens: seq<nat>) {
    match s
    case One(len) => len < 16 && HasCode(cl, len)
    case Again(n) => 3 <= n <= 6 && HasCode(cl, 16) && lens != []
    case Gap(n) => 3 <= n <= 10 && HasCode(cl, 17)
    case LongGap(n) => 11 <= n <= 138 && HasCode(cl, 18)
  }

  /** What a step stands for. */
  function After(lens: seq<nat>, s: Step): seq<nat>
    requires s.Again? ==> lens != []
  {
    match s
    case One(len) => lens + [len]
    case Again(n) => lens + Repeat(lens[|lens| - 1], n)
    case Gap(n) => lens + Repeat(0, n)
    case LongGap(n) => lens + Repeat(0, n)
  }

  predicate StepsOk(cl: seq<nat>, steps: seq<Step>, lens: seq<nat>)
    decreases |steps|
  {
    steps == [] || (StepOk(cl, steps[0], lens) && StepsOk(cl, steps[1..], After(lens, steps[0])))
  }

  function AllAfter(cl: seq<nat>, steps: seq<Step>, lens: seq<nat>): (r: seq<nat>)
    requires StepsOk(cl, steps, lens)
    ensures |r| >= |lens| && (steps != [] ==> |r| > |lens|)
    decreases |steps|
  {
    if steps == [] then lens else AllAfter(cl, steps[1..], After(lens, steps[0]))
  }

  function StepsBits(cl: seq<nat>, steps: seq<Step>, lens: seq<nat>): Bits
    requires StepsOk(cl, steps, lens)
    decreases |steps|
  {
    if steps == [] then []
    else StepBits(cl, steps[0]) + StepsBits(cl, steps[1..], After(lens, steps[0]))
  }

  lemma {:induction false} StepReads(cl: seq<nat>, s: Step, lens: seq<nat>, total: nat, rest: Bits)
    requires Fits(cl) && StepOk(cl, s, lens) && Small(lens, MAX_LENGTH)
    requires |lens| < total && |After(lens, s)| <= total
    ensures var b := StepBits(cl, s) + rest;
      && Lookup(cl, b).Some?
      && var f := Lookup(cl, b).value; Grown(lens, f.sym, total, b[f.len..]) == Some((After(lens, s), rest))
  {
    hide Fits, Lookup, SymbolBits, Low, Extra, Pow2;
    SmallPowers();
    match s
    case One(len) =>
      SymbolDecodes(cl, len, rest);
    case Again(n) =>
      assert StepBits(cl, s) + rest == SymbolBits(cl, 16) + (Low(n - 3, 2) + rest);
      SymbolDecodes(cl, 16, Low(n - 3, 2) + rest);
      ExtraReads(3, 2, n - 3, rest);
    case Gap(n) =>
      assert StepBits(cl, s) + rest == SymbolBits(cl, 17) + (Low(n - 3, 3) + rest);
      SymbolDecodes(cl, 17, Low(n - 3, 3) + rest);
      ExtraReads(3, 3, n - 3, rest);
    case LongGap(n) =>
      assert StepBits(cl, s) + rest == SymbolBits(cl, 18) + (Low(n - 11, 7) + rest);
      SymbolDecodes(cl, 18, Low(n - 11, 7) + rest);
      ExtraReads(11, 7, n - 11, rest);
  }

  /** However the lengths were put down, they are read back. */
  lemma {:induction false} LengthsRead(cl: seq<nat>, steps: seq<Step>, lens: seq<nat>, rest: Bits)
    requires Fits(cl) && StepsOk(cl, steps, lens) && Small(lens, MAX_LENGTH)
    ensures var all := AllAfter(cl, steps, lens);
      Lengths(cl, StepsBits(cl, steps, lens) + rest, |all|, lens) == Some((all, rest))
    decreases |steps|
  {
    hide Fits, Lookup, StepBits, After, Grown, HasCode;
    var total := |AllAfter(cl, steps, lens)|;
    var b := StepsBits(cl, steps, lens) + rest;
    if steps == [] {
      assert b == rest;
    } else {
      var next := After(lens, steps[0]);
      var more := StepsBits(cl, steps[1..], next) + rest;
      assert b == StepBits(cl, steps[0]) + more;
      StepReads(cl, steps[0], lens, total, more);
      LengthsRead(cl, steps[1..], next, rest);
    }
  }

  // ----- the header -----

  /** Two codes and a way of writing them down. */
  datatype Codes = Codes(lits: seq<nat>, dists: seq<nat>, cl: seq<nat>, n: nat, steps: seq<Step>)

  /** The code for lengths fits and is written up to its last length; the steps give the two codes. */
  ghost predicate CodesOk(c: Codes) {
    && |c.cl| == 19 && Small(c.cl, 7) && Fits(c.cl) && 4 <= c.n <= 19 && ReadTo(c.cl, c.cl, c.n)
    && StepsOk(c.cl, c.steps, []) && AllAfter(c.cl, c.steps, []) == c.lits + c.dists
    && 257 <= |c.lits| <= 286 && 1 <= |c.dists| <= 30 && Fits(c.lits) && Fits(c.dists)
  }

  function CountBits(hlit: nat, hdist: nat, hclen: nat): Bits
    requires hlit >= 257 && hdist >= 1 && hclen >= 4
  {
    Low(hlit - 257, 5) + Low(hdist - 1, 5) + Low(hclen - 4, 4)
  }

  ghost function HeadBits(c: Codes): Bits
    requires CodesOk(c)
  {
    CountBits(|c.lits|, |c.dists|, c.n) + CodeBits(c.cl, 0, c.n) + StepsBits(c.cl, c.steps, [])
  }

  lemma {:induction false} CountsRead(hlit: nat, hdist: nat, hclen: nat, rest: Bits)
    requires 257 <= hlit <= 286 && 1 <= hdist <= 30 && 4 <= hclen <= 19
    ensures var b := CountBits(hlit, hdist, hclen) + rest;
      ReadCounts(b) == Some((hlit, hdist, hclen)) && b[14..] == rest
  {
    hide Low, Value, Mask, Pow2;
    SmallPowers();
    var b := CountBits(hlit, hdist, hclen) + rest;
    assert b[..5] == Low(hlit - 257, 5) && b[5..10] == Low(hdist - 1, 5) && b[10..14] == Low(hclen - 4, 4);
    ValueIsMask(hlit - 257, 5);
    MaskAll(hlit - 257, 5);
    ValueIsMask(hdist - 1, 5);
    MaskAll(hdist - 1, 5);
    ValueIsMask(hclen - 4, 4);
    MaskAll(hclen - 4, 4);
  }

  /** The header gives both codes back, however their lengths were put down. */
  lemma {:induction false} HeaderReads(c: Codes, rest: Bits)
    requires CodesOk(c)
    ensures ReadHeader(HeadBits(c) + rest) == Some(Header(c.lits, c.dists, rest))
  {
    hide Fits, CountBits, CodeBits, StepsBits, StepsOk, ReadCounts, ReadCode, Lengths, ReadTo;
    var steps := StepsBits(c.cl, c.steps, []) + rest;
    var code := CodeBits(c.cl, 0, c.n) + steps;
    assert HeadBits(c) + rest == CountBits(|c.lits|, |c.dists|, c.n) + code;
    CountsRead(|c.lits|, |c.dists|, c.n, code);
    NothingRead(c.cl);
    CodeReads(c.cl, 0, c.n, Repeat(0, 19), steps);
    LengthsRead(c.cl, c.steps, [], rest);
    assert (c.lits + c.dists)[..|c.lits|] == c.lits && (c.lits + c.dists)[|c.lits|..] == c.dists;
  }

  lemma {:induction false} NothingRead(cl: seq<nat>)
    requires |cl| == 19
    ensures ReadTo(Repeat(0, 19), cl, 0) && Small(Repeat(0, 19), 7)
  {
  }

  // ----- streams -----

  /** A block; the reader skips a stored block's padding and does not look at its check bytes. */
  datatype Piece =
    | Raw(pad: Bits, data: seq<Byte>, check: (Byte, Byte))
    | Fixed(tokens: seq<Token>)
    | Own(codes: Codes, tokens: seq<Token>)

  /** The block may be written behind n bytes. */
  ghost predicate PieceOk(p: Piece, n: nat) {
    match p
    case Raw(pad, data, _) => |pad| < 8 && |data| < 0x1_0000
    case Fixed(ts) => AllGood(ts, n) && AllWritable(LITERALS, DISTANCES, ts)
    case Own(c, ts) => CodesOk(c) && AllGood(ts, n) && AllWritable(c.lits, c.dists, ts)
  }

  /** Tokens and the end of the block. */
  function Coded(lits: seq<nat>, dists: seq<nat>, ts: seq<Token>, n: nat): Bits
    requires AllGood(ts, n)
  {
    BlockBits(lits, dists, ts, n) + SymbolBits(lits, END_OF_BLOCK)
  }

  /** The bytes of a stored block. */
  function RawBytes(data: seq<Byte>, check: (Byte, Byte)): seq<Byte>
    requires |data| < 0x1_0000
  {
    [|data| % 256, |data| / 256, check.0, check.1] + data
  }

  ghost function PieceBits(p: Piece, n: nat): Bits
    requires PieceOk(p, n)
  {
    match p
    case Raw(pad, data, check) => Low(0, 2) + (pad + ByteBits(RawBytes(data, check)))
    case Fixed(ts) => Low(1, 2) + Coded(LITERALS, DISTANCES, ts, n)
    case Own(c, ts) => Low(2, 2) + (HeadBits(c) + Coded(c.lits, c.dists, ts, n))
  }

  ghost function PieceOut(p: Piece, out: seq<Byte>): seq<Byte>
    requires PieceOk(p, |out|)
  {
    match p
    case Raw(_, data, _) => out + data
    case Fixed(ts) => Expand(ts, out)
    case Own(_, ts) => Expand(ts, out)
  }

  ghost predicate StreamOk(ps: seq<Piece>, out: seq<Byte>)
    decreases |ps|
  {
    ps != [] && PieceOk(ps[0], |out|) && (|ps| > 1 ==> StreamOk(ps[1..], PieceOut(ps[0], out)))
  }

  /** The stream behind its first block. */
  ghost function Behind(ps: seq<Piece>, out: seq<Byte>, tail: Bits): Bits
    requires StreamOk(ps, out)
    decreases |ps|, 0
  {
    if |ps| == 1 then tail else StreamBits(ps[1..], PieceOut(ps[0], out), tail)
  }

  /** Every block behind a bit that says whether it is the last one. */
  ghost function StreamBits(ps: seq<Piece>, out: seq<Byte>, tail: Bits): Bits
    requires StreamOk(ps, out)
    decreases |ps|, 1
  {
    [|ps| == 1] + PieceBits(ps[0], |out|) + Behind(ps, out, tail)
  }

  /** Stored bytes stand at byte boundaries, counted from the end as a stream is whole bytes. */
  ghost predicate Aligned(ps: seq<Piece>, out: seq<Byte>, tail: Bits)
    requires StreamOk(ps, out)
    decreases |ps|
  {
    && (ps[0].Raw? ==> |Behind(ps, out, tail)| % 8 == 0)
    && (|ps| > 1 ==> Aligned(ps[1..], PieceOut(ps[0], out), tail))
  }

  ghost function StreamOut(ps: seq<Piece>, out: seq<Byte>): seq<Byte>
    requires StreamOk(ps, out)
    decreases |ps|
  {
    if |ps| == 1 then PieceOut(ps[0], out) else StreamOut(ps[1..], PieceOut(ps[0], out))
  }

  /** The two bits of the kind, and what stands behind them. */
  lemma {:induction false} KindReads(k: nat, body: Bits, rest: Bits)
    requires k <= 2
    ensures var b := Low(k, 2) + body + rest; Value(b[..2]) == k && b[2..] == body + rest
  {
    hide Low, Value, Mask;
    SmallPowers();
    ValueIsMask(k, 2);
    MaskAll(k, 2);
    var b := Low(k, 2) + body + rest;
    assert b[..2] == Low(k, 2);
  }

  lemma {:induction false} RawReads(pad: Bits, data: seq<Byte>, check: (Byte, Byte), rest: Bits, out: seq<Byte>)
    requires |pad| < 8 && |data| < 0x1_0000 && |rest| % 8 == 0
    ensures Stored(pad + ByteBits(RawBytes(data, check)) + rest, out) == Some(Progress(rest, out + data))
  {
    hide ByteBits, Value, ToBytes;
    var bytes := RawBytes(data, check);
    var b := pad + ByteBits(bytes) + rest;
    var a := ByteBits(bytes) + rest;
    assert |b| == |pad| + 8 * |bytes| + |rest|;
    assert |b| % 8 == |pad|;
    assert b[|pad|..] == a;
    TwoBytes(bytes);
    assert a[..16] == ByteBits(bytes)[..16];
    assert Word(bytes) == |data|;
    BitsOfSlice(bytes, 4, 4 + |data|);
    assert bytes[4..4 + |data|] == data;
    assert a[32..32 + 8 * |data|] == ByteBits(bytes)[32..32 + 8 * |data|] == ByteBits(data);
    assert a[32 + 8 * |data|..] == rest;
    BytesBack(data);
  }

  lemma {:induction false} CodedReads(lits: seq<nat>, dists: seq<nat>, ts: seq<Token>, rest: Bits, out: seq<Byte>)
    requires Fits(lits) && Fits(dists) && AllGood(ts, |out|) && AllWritable(lits, dists, ts)
    ensures Block(lits, dists, Coded(lits, dists, ts, |out|) + rest, out) == Some(Progress(rest, Expand(ts, out)))
  {
    hide Fits, AllWritable, AllGood, BlockBits, SymbolBits, Expand, Block;
    BlockDecodes(lits, dists, ts, rest, out);
  }

  lemma {:induction false} OwnReads(c: Codes, ts: seq<Token>, rest: Bits, out: seq<Byte>)
    requires CodesOk(c) && AllGood(ts, |out|) && AllWritable(c.lits, c.dists, ts)
    ensures OwnCodes(HeadBits(c) + Coded(c.lits, c.dists, ts, |out|) + rest, out)
         == Some(Progress(rest, Expand(ts, out)))
  {
    hide CodesOk, AllWritable, AllGood, Coded, HeadBits, ReadHeader, Expand, Block, Fits;
    var coded := Coded(c.lits, c.dists, ts, |out|);
    assert HeadBits(c) + coded + rest == HeadBits(c) + (coded + rest);
    HeaderReads(c, coded + rest);
    CodesFit(c);
    CodedReads(c.lits, c.dists, ts, rest, out);
  }

  /** A block is read as what it stands for. */
  lemma {:induction false} PieceReads(p: Piece, rest: Bits, out: seq<Byte>)
    requires PieceOk(p, |out|) && (p.Raw? ==> |rest| % 8 == 0)
    ensures var b := PieceBits(p, |out|) + rest;
      |b| >= 2 && BlockOf(Value(b[..2]), b[2..], out) == Some(Progress(rest, PieceOut(p, out)))
  {
    hide Low, Value, ByteBits, RawBytes, Coded, HeadBits, CodesOk, Fits, AllGood, AllWritable, Expand, Stored, Block,
      OwnCodes;
    match p
    case Raw(pad, data, check) =>
      KindReads(0, pad + ByteBits(RawBytes(data, check)), rest);
      RawReads(pad, data, check, rest, out);
    case Fixed(ts) =>
      KindReads(1, Coded(LITERALS, DISTANCES, ts, |out|), rest);
      LiteralsFit();
      DistancesFit();
      CodedReads(LITERALS, DISTANCES, ts, rest, out);
    case Own(c, ts) =>
      KindReads(2, HeadBits(c) + Coded(c.lits, c.dists, ts, |out|), rest);
      OwnReads(c, ts, rest, out);
  }

  lemma {:induction false} CodesFit(c: Codes)
    requires CodesOk(c)
    ensures Fits(c.lits) && Fits(c.dists)
  {
  }

  /** inflate_run reads every stream. */
  lemma {:induction false} StreamReads(ps: seq<Piece>, out: seq<Byte>, tail: Bits)
    requires StreamOk(ps, out) && Aligned(ps, out, tail)
    ensures Run(StreamBits(ps, out, tail), out) == Whole(StreamOut(ps, out))
    decreases |ps|
  {
    hide PieceOk, PieceBits, PieceOut, BlockOf, Run, Value;
    var b := StreamBits(ps, out, tail);
    var rest := Behind(ps, out, tail);
    var body := PieceBits(ps[0], |out|) + rest;
    PieceReads(ps[0], rest, out);
    assert b == [|ps| == 1] + body;
    assert b[1..3] == body[..2] && b[3..] == body[2..];
    RunStep(b, out);
    if |ps| > 1 {
      StreamReads(ps[1..], PieceOut(ps[0], out), tail);
    }
  }

  lemma {:induction false} StreamInflates(data: seq<Byte>, ps: seq<Piece>, tail: Bits)
    requires StreamOk(ps, []) && Aligned(ps, [], tail) && ByteBits(data) == StreamBits(ps, [], tail)
    ensures InflateBytes(data) == Whole(StreamOut(ps, []))
  {
    hide StreamOk, Aligned, StreamBits, StreamOut, Run, ByteBits;
    StreamReads(ps, [], tail);
  }
}
