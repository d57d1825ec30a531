/**
 Deflate's tokens: what they stand for, how they are written with a pair of Huffman codes, and
 how a block of them is read back.
 */
module Lz {

  import opened Wrappers
  import opened Bits
  import opened Huffman

  datatype Token = Literal(byte: Byte) | Match(len: nat, dist: nat)

  const LEN_BASE: seq<nat> := [
    3, 4, 5, 6, 7, 8, 9, 10, 11, 13, 15, 17, 19, 23, 27, 31, 35, 43, 51, 59, 67, 83, 99, 115, 131, 163, 195, 227, 258]
  const LEN_EXTRA: seq<nat> := [
    0, 0, 0, 0, 0, 0, 0, 0, 1, 1, 1, 1, 2, 2, 2, 2, 3, 3, 3, 3, 4, 4, 4, 4, 5, 5, 5, 5, 0]
  const DIST_BASE: seq<nat> := [
    1, 2, 3, 4, 5, 7, 9, 13, 17, 25, 33, 49, 65, 97, 129, 193, 257, 385, 513, 769,
    1025, 1537, 2049, 3073, 4097, 6145, 8193, 12289, 16385, 24577]
  const DIST_EXTRA: seq<nat> := [
    0, 0, 0, 0, 1, 1, 2, 2, 3, 3, 4, 4, 5, 5, 6, 6, 7, 7, 8, 8, 9, 9, 10, 10, 11, 11, 12, 12, 13, 13]

  const MIN_MATCH: nat := 3
  const MAX_MATCH: nat := 258
  const WINDOW: nat := 32768
  const END_OF_BLOCK: nat := 256

  // ----- what tokens stand for -----

  /** Copy byte by byte from `dist` back; the copy may run into itself. */
  function CopyBack(out: seq<Byte>, len: nat, dist: nat): seq<Byte>
    requires 1 <= dist <= |out|
    decreases len
  {
    if len == 0 then out else CopyBack(out + [out[|out| - dist]], len - 1, dist)
  }

  /** A token that may be written after n bytes. */
  predicate Good(t: Token, n: nat) {
    t.Match? ==> MIN_MATCH <= t.len <= MAX_MATCH && 1 <= t.dist <= WINDOW && t.dist <= n
  }

  function Apply(out: seq<Byte>, t: Token): seq<Byte>
    requires Good(t, |out|)
  {
    match t
    case Literal(b) => out + [b]
    case Match(len, dist) => CopyBack(out, len, dist)
  }

  // ----- writing -----

  /** The last entry, at or before i, that is not above v. */
  function IndexIn(base: seq<nat>, i: nat, v: nat): (r: nat)
    requires i < |base|
    ensures r <= i && (r == 0 || base[r] <= v)
    ensures forall k :: r < k <= i ==> base[k] > v
  {
    if i > 0 && base[i] > v then IndexIn(base, i - 1, v) else i
  }

  predicate HasCode(ls: seq<nat>, sym: nat) {
    sym < |ls| && ls[sym] >= 1
  }

  /** The code of a symbol; nothing for a symbol without one. */
  function SymbolBits(ls: seq<nat>, sym: nat): (r: Bits)
    ensures HasCode(ls, sym) ==> |r| == ls[sym]
  {
    if HasCode(ls, sym) then Code(CodeOf(ls, sym), ls[sym]) else []
  }

  /** The symbol a length is written with. */
  function LengthSymbol(len: nat): nat {
    257 + IndexIn(LEN_BASE, 28, len)
  }

  /** Its extra bits. */
  function LengthExtra(len: nat): Bits
    requires len >= MIN_MATCH
  {
    var i := IndexIn(LEN_BASE, 28, len);
    Low(len - LEN_BASE[i], LEN_EXTRA[i])
  }

  function LengthBits(lits: seq<nat>, len: nat): Bits
    requires len >= MIN_MATCH
  {
    SymbolBits(lits, LengthSymbol(len)) + LengthExtra(len)
  }

  /** The symbol a distance is written with. */
  function DistanceSymbol(dist: nat): nat {
    IndexIn(DIST_BASE, 29, dist)
  }

  function DistanceBits(dists: seq<nat>, dist: nat): Bits
    requires dist >= 1
  {
    var i := DistanceSymbol(dist);
    SymbolBits(dists, i) + Low(dist - DIST_BASE[i], DIST_EXTRA[i])
  }

  function TokenBits(lits: seq<nat>, dists: seq<nat>, t: Token): Bits
    requires t.Match? ==> t.len >= MIN_MATCH && t.dist >= 1
  {
    match t
    case Literal(b) => SymbolBits(lits, b)
    case Match(len, dist) => LengthBits(lits, len) + DistanceBits(dists, dist)
  }

  /** The two codes have what the token needs. */
  predicate Writable(lits: seq<nat>, dists: seq<nat>, t: Token) {
    match t
    case Literal(b) => HasCode(lits, b)
    case Match(len, dist) => HasCode(lits, LengthSymbol(len)) && HasCode(dists, DistanceSymbol(dist))
  }

  // ----- reading -----

  /** Bits left and bytes written. */
  datatype Progress = Progress(rest: Bits, out: seq<Byte>)

  /** A number of extra bits on top of a base. */
  function Extra(base: nat, n: nat, b: Bits): Option<(nat, Bits)> {
    if n <= |b| then Some((base + Value(b[..n]), b[n..])) else None
  }

  /** The distance after a length; the code of a distance symbol above 29 means nothing. */
  function ReadDistance(dists: seq<nat>, b: Bits): (r: Option<(nat, Bits)>)
    ensures r.Some? ==> |r.value.1| <= |b| && r.value.0 >= 1
  {
    match Lookup(dists, b)
    case None => None
    case Some(f) => if f.sym >= 30 then None else Extra(DIST_BASE[f.sym], DIST_EXTRA[f.sym], b[f.len..])
  }

  /** inflate_block: decode up to the end-of-block symbol. */
  function Block(lits: seq<nat>, dists: seq<nat>, b: Bits, out: seq<Byte>): (r: Option<Progress>)
    ensures r.Some? ==> |r.value.rest| <= |b|
    decreases |b|
  {
    match Lookup(lits, b)
    case None => None
    case Some(f) =>
      var rest := b[f.len..];
      if f.sym < 256 then Block(lits, dists, rest, out + [f.sym])
      else if f.sym == END_OF_BLOCK then Some(Progress(rest, out))
      else if f.sym - 257 >= 29 then None
      else
        match Extra(LEN_BASE[f.sym - 257], LEN_EXTRA[f.sym - 257], rest)
        case None => None
        case Some(l) =>
          match ReadDistance(dists, l.1)
          case None => None
          case Some(d) =>
            if d.0 > |out| then None else Block(lits, dists, d.1, CopyBack(out, l.0, d.0))
  }

  /** A length symbol's extra bits, and the distance behind it. */
  function MatchAt(dists: seq<nat>, i: nat, b: Bits): (r: Option<(nat, nat, Bits)>)
    requires i < 29
    ensures r.Some? ==> r.value.1 >= 1 && |r.value.2| <= |b|
  {
    match Extra(LEN_BASE[i], LEN_EXTRA[i], b)
    case None => None
    case Some(l) =>
      match ReadDistance(dists, l.1)
      case None => None
      case Some(d) => Some((l.0, d.0, d.1))
  }

  /** One turn of the block loop. */
  lemma {:induction false} BlockStep(lits: seq<nat>, dists: seq<nat>, b: Bits, out: seq<Byte>)
    ensures match Lookup(lits, b)
      case None => Block(lits, dists, b, out) == None
      case Some(f) =>
        var rest := b[f.len..];
        && |rest| < |b|
        && Block(lits, dists, b, out)
           == if f.sym < 256 then Block(lits, dists, rest, out + [f.sym])
              else if f.sym == END_OF_BLOCK then Some(Progress(rest, out))
              else if f.sym - 257 >= 29 then None
              else match MatchAt(dists, f.sym - 257, rest)
                   case None => None
                   case Some(m) =>
                     if m.1 > |out| then None else Block(lits, dists, m.2, CopyBack(out, m.0, m.1))
  {
    hide Lookup, ReadDistance, Extra, CopyBack;
  }
}
