/** The header of a block with its own codes: three counts, a code for code lengths, and the lengths. */
module Dynamic {

  import opened Wrappers
  import opened Bits
  import opened BitIo
  import opened Huffman
  import opened HuffTable
  import opened FixedCode
  import opened Lz

  /** The order in which the lengths of the code for code lengths are written. */
  const ORDER: seq<nat> := [16, 17, 18, 0, 8, 7, 9, 6, 10, 5, 11, 4, 12, 3, 13, 2, 14, 1, 15]

  function OrderAt(i: nat): (sym: nat)
    requires i < 19
    ensures sym < 19
  {
    ORDER[i]
  }

  /** Lengths that have been read: both codes, and the bits behind them. */
  datatype Header = Header(lits: seq<nat>, dists: seq<nat>, rest: Bits)

  predicate Small(ls: seq<nat>, max: nat) {
    forall i :: 0 <= i < |ls| ==> ls[i] <= max
  }

  /** The lengths from the i-th to before the n-th in the written order, three bits each. */
  function ReadCode(b: Bits, i: nat, n: nat, cl: seq<nat>): (r: Option<(seq<nat>, Bits)>)
    requires i <= n <= 19 && |cl| == 19 && Small(cl, 7)
    ensures r.Some? ==> |r.value.0| == 19 && Small(r.value.0, 7) && |r.value.1| <= |b|
    decreases n - i
  {
    if i == n then Some((cl, b))
    else if |b| < 3 then None
    else
      ValueFits(b[..3]);
      SmallPowers();
      ReadCode(b[3..], i + 1, n, cl[OrderAt(i) := Value(b[..3])])
  }

  function Min(a: nat, b: nat): nat {
    if a < b then a else b
  }

  function Repeat(v: nat, n: nat): seq<nat> {
    seq(n, _ => v)
  }

  /** Repeat a length as often as the extra bits say, but not past the total. */
  function Repeated(lens: seq<nat>, v: nat, total: nat, times: Option<(nat, Bits)>): Option<(seq<nat>, Bits)>
    requires |lens| <= total
  {
    match times
    case None => None
    case Some(t) => Some((lens + Repeat(v, Min(t.0, total - |lens|)), t.1))
  }

  /** One symbol of the code for code lengths: a length, the last one again, or a gap. */
  function Grown(lens: seq<nat>, sym: nat, total: nat, b: Bits): (r: Option<(seq<nat>, Bits)>)
    requires |lens| < total && Small(lens, MAX_LENGTH)
    ensures r.Some? ==> |r.value.0| <= total && Small(r.value.0, MAX_LENGTH) && |r.value.1| <= |b|
  {
    if sym < 16 then Some((lens + [sym], b))
    else if sym == 16 then
      if lens == [] then None else Repeated(lens, lens[|lens| - 1], total, Extra(3, 2, b))
    else if sym == 17 then Repeated(lens, 0, total, Extra(3, 3, b))
    else Repeated(lens, 0, total, Extra(11, 7, b))
  }

  /** Lengths up to the total. */
  function Lengths(cl: seq<nat>, b: Bits, total: nat, lens: seq<nat>): (r: Option<(seq<nat>, Bits)>)
    requires |lens| <= total && Small(lens, MAX_LENGTH)
    ensures r.Some? ==> |r.value.0| == total && Small(r.value.0, MAX_LENGTH) && |r.value.1| <= |b|
    decreases |b|
  {
    if |lens| == total then Some((lens, b))
    else
      match Lookup(cl, b)
      case None => None
      case Some(f) =>
        match Grown(lens, f.sym, total, b[f.len..])
        case None => None
        case Some(g) => Lengths(cl, g.1, total, g.0)
  }

  /** The three counts in front: literals, distances, and lengths of the code for lengths. */
  function ReadCounts(b: Bits): (r: Option<(nat, nat, nat)>)
    ensures r.Some? ==> |b| >= 14 && r.value.0 <= 286 && r.value.1 <= 30 && 4 <= r.value.2 <= 19
  {
    if |b| < 14 then None
    else
      var hlit, hdist, hclen := 257 + Value(b[..5]), 1 + Value(b[5..10]), 4 + Value(b[10..14]);
      ValueFits(b[10..14]);
      SmallPowers();
      if hlit > 286 || hdist > 30 then None else Some((hlit, hdist, hclen))
  }

  function ReadHeader(b: Bits): (r: Option<Header>)
    ensures r.Some? ==> |r.value.rest| <= |b| && LengthsOk(r.value.lits) && LengthsOk(r.value.dists)
  {
    match ReadCounts(b)
    case None => None
    case Some(n) =>
      match ReadCode(b[14..], 0, n.2, Repeat(0, 19))
      case None => None
      case Some(c) =>
        match Lengths(c.0, c.1, n.0 + n.1, [])
        case None => None
        case Some(l) => Some(Header(l.0[..n.0], l.0[n.0..], l.1))
  }

  // ----- the program -----

  /** Extra bits on top of a base. */
  method GetExtra(s: BitIn, base: nat, n: nat) returns (v: nat)
    requires s.Valid() && !s.err && n <= 32
    modifies s
    ensures s.Valid()
    ensures match Extra(base, n, old(s.Rest()))
      case Some(x) => !s.err && v == x.0 && s.Rest() == x.1
      case None => s.err
  {
    hide BitIn.Rest, BitIn.Valid, Value;
    v := s.GetBits(n);
    v := v + base;
  }

  /** The counts. */
  method GetCounts(s: BitIn) returns (ok: bool, hlit: nat, hdist: nat, hclen: nat)
    requires s.Valid() && !s.err
    modifies s
    ensures s.Valid()
    ensures match ReadCounts(old(s.Rest()))
      case Some(n) => ok && !s.err && (hlit, hdist, hclen) == n && s.Rest() == old(s.Rest())[14..]
      case None => !ok
  {
    hide BitIn.Rest, BitIn.Valid, Value;
    ghost var b := s.Rest();
    ok, hlit, hdist, hclen := false, 0, 0, 0;
    hlit := s.GetBits(5);
    if s.err {
      return;
    }
    hdist := s.GetBits(5);
    if s.err {
      return;
    }
    hclen := s.GetBits(4);
    if s.err {
      return;
    }
    assert b[5..][..5] == b[5..10] && b[5..][5..] == b[10..] && b[10..][..4] == b[10..14] && b[10..][4..] == b[14..];
    hlit, hdist, hclen := 257 + hlit, 1 + hdist, 4 + hclen;
    ok := hlit <= 286 && hdist <= 30;
  }

  /** The code for code lengths.  A missing bit is an error; the C code looks for it only behind
      the next symbol. */
  method GetCode(s: BitIn, n: nat) returns (cl: seq<nat>)
    requires s.Valid() && !s.err && n <= 19
    modifies s
    ensures s.Valid()
    ensures match ReadCode(old(s.Rest()), 0, n, Repeat(0, 19))
      case Some(c) => !s.err && cl == c.0 && s.Rest() == c.1
      case None => s.err
  {
    hide BitIn.Rest, BitIn.Valid, Value, ReadCode, OrderAt;
    var lengths := new nat[19](_ => 0);
    assert lengths[..] == Repeat(0, 19);
    cl := [];
    var i := 0;
    while i < n
      invariant 0 <= i <= n && s.Valid() && !s.err && Small(lengths[..], 7)
      invariant ReadCode(s.Rest(), i, n, lengths[..]) == ReadCode(old(s.Rest()), 0, n, Repeat(0, 19))
    {
      ghost var before := lengths[..];
      ReadCodeStep(s.Rest(), i, n, before);
      var v := s.GetBits(3);
      if s.err {
        return;
      }
      lengths[OrderAt(i)] := v;
      assert lengths[..] == before[OrderAt(i) := v];
      i := i + 1;
    }
    cl := lengths[..];
    ReadCodeEnd(s.Rest(), n, cl);
  }

  lemma {:induction false} ReadCodeEnd(b: Bits, n: nat, cl: seq<nat>)
    requires n <= 19 && |cl| == 19 && Small(cl, 7)
    ensures ReadCode(b, n, n, cl) == Some((cl, b))
  {
  }

  lemma {:induction false} ReadCodeStep(b: Bits, i: nat, n: nat, cl: seq<nat>)
    requires i < n <= 19 && |cl| == 19 && Small(cl, 7)
    ensures |b| < 3 ==> ReadCode(b, i, n, cl) == None
    ensures |b| >= 3 ==>
      var next := cl[OrderAt(i) := Value(b[..3])];
      Small(next, 7) && ReadCode(b, i, n, cl) == ReadCode(b[3..], i + 1, n, next)
  {
    hide Value, OrderAt;
    if |b| >= 3 {
      ValueFits(b[..3]);
      SmallPowers();
    }
  }

  /** What one symbol adds. */
  method Grow(s: BitIn, lens: seq<nat>, sym: nat, total: nat) returns (ok: bool, more: seq<nat>)
    requires s.Valid() && !s.err && |lens| < total && Small(lens, MAX_LENGTH)
    modifies s
    ensures s.Valid()
    ensures match Grown(lens, sym, total, old(s.Rest()))
      case Some(g) => ok && !s.err && more == g.0 && s.Rest() == g.1
      case None => !ok
  {
    hide BitIn.Rest, BitIn.Valid, Value, Extra;
    if sym < 16 {
      return true, lens + [sym];
    }
    if sym == 16 && lens == [] {
      return false, lens;
    }
    var v := if sym == 16 then lens[|lens| - 1] else 0;
    var base, width := if sym < 18 then 3 else 11, if sym == 16 then 2 else if sym == 17 then 3 else 7;
    var times := GetExtra(s, base, width);
    if s.err {
      return false, lens;
    }
    ok := true;
    more := RepeatInto(lens, v, times, total);
  }

  /** The loops that repeat a length, never past the total. */
  method RepeatInto(lens: seq<nat>, v: nat, times: nat, total: nat) returns (more: seq<nat>)
    requires |lens| <= total
    ensures more == lens + Repeat(v, Min(times, total - |lens|))
  {
    more := lens;
    var rep := times;
    while rep > 0 && |more| < total
      invariant 0 <= rep <= times && |lens| <= |more| <= total
      invariant more == lens + Repeat(v, times - rep)
    {
      more := more + [v];
      rep := rep - 1;
    }
  }

  /** The lengths of both codes in one row. */
  method GetLengths(s: BitIn, cl: seq<nat>, total: nat) returns (ok: bool, lens: seq<nat>)
    requires s.Valid() && !s.err && |cl| == 19 && Small(cl, 7)
    modifies s
    ensures s.Valid()
    ensures match Lengths(cl, old(s.Rest()), total, [])
      case Some(l) => ok && !s.err && lens == l.0 && s.Rest() == l.1
      case None => !ok
  {
    hide BitIn.Rest, BitIn.Valid, Huff.Tables, Lookup, Grown;
    var h := new Huff(cl);
    lens := [];
    while |lens| < total
      invariant s.Valid() && !s.err && h.Tables(cl) && |lens| <= total && Small(lens, MAX_LENGTH)
      invariant Lengths(cl, s.Rest(), total, lens) == Lengths(cl, old(s.Rest()), total, [])
      decreases |s.Rest()|
    {
      var sym := h.DecodeSymbol(s, cl);
      if s.err {
        return false, lens;
      }
      ok, lens := Grow(s, lens, sym, total);
      if !ok {
        return;
      }
    }
    ok := true;
  }

  /** The first half of dynamic_block. */
  method GetHeader(s: BitIn) returns (ok: bool, lits: seq<nat>, dists: seq<nat>)
    requires s.Valid() && !s.err
    modifies s
    ensures s.Valid()
    ensures match ReadHeader(old(s.Rest()))
      case Some(h) => ok && !s.err && lits == h.lits && dists == h.dists && s.Rest() == h.rest
      case None => !ok
  {
    hide BitIn.Rest, BitIn.Valid, Lengths, ReadCode, ReadCounts;
    var hlit, hdist, hclen;
    ok, hlit, hdist, hclen := GetCounts(s);
    lits, dists := [], [];
    if !ok {
      return;
    }
    var cl := GetCode(s, hclen);
    if s.err {
      return false, lits, dists;
    }
    var lens;
    ok, lens := GetLengths(s, cl, hlit + hdist);
    if ok {
      lits, dists := lens[..hlit], lens[hlit..];
    }
  }
}
