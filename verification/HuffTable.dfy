/**
 inflate.c's Huffman tables: symbols sorted by code for the bit-by-bit decoder, and a table
 that decodes short codes at one look.
 */
module HuffTable {

  import opened Wrappers
  import opened Bits
  import opened BitIo
  import opened Huffman

  const FAST_SIZE: nat := 1024
  const MAX_SYMBOLS: nat := 288

  ghost predicate LengthsOk(ls: seq<nat>) {
    |ls| <= MAX_SYMBOLS && forall i :: 0 <= i < |ls| ==> ls[i] <= MAX_LENGTH
  }

  // ----- counts -----

  ghost predicate Counts(ls: seq<nat>, n: nat, c: seq<nat>) {
    n <= |ls| && |c| == 16 && forall len :: 1 <= len <= MAX_LENGTH ==> c[len] == Rank(ls, n, len)
  }

  /** The first two loops of build. */
  method CountLengths(ls: seq<nat>) returns (count: array<nat>)
    requires LengthsOk(ls)
    ensures fresh(count) && count.Length == 16 && Counts(ls, |ls|, count[..])
  {
    hide Count;
    count := new nat[16](_ => 0);
    CountsNone(ls, count[..]);
    var i := 0;
    while i < |ls|
      invariant 0 <= i <= |ls| && Counts(ls, i, count[..])
    {
      ghost var before := count[..];
      count[ls[i]] := count[ls[i]] + 1;
      CountsStep(ls, i, before, count[..]);
      i := i + 1;
    }
    count[0] := 0;
  }

  lemma {:induction false} CountsNone(ls: seq<nat>, c: seq<nat>)
    requires |c| == 16 && forall i :: 0 <= i < 16 ==> c[i] == 0
    ensures Counts(ls, 0, c)
  {
    forall len | 1 <= len <= MAX_LENGTH
      ensures c[len] == Rank(ls, 0, len)
    {
      RankEnd(ls, len);
    }
  }

  lemma {:induction false} CountsStep(ls: seq<nat>, i: nat, before: seq<nat>, c: seq<nat>)
    requires i < |ls| && ls[i] < 16 && Counts(ls, i, before)
    requires c == before[ls[i] := before[ls[i]] + 1]
    ensures Counts(ls, i + 1, c)
  {
    forall len | 1 <= len <= MAX_LENGTH
      ensures c[len] == Rank(ls, i + 1, len)
    {
      RankStep(ls, i, len);
    }
  }

  // ----- sorted symbols -----

  /** How many symbols have a code shorter than len. */
  function Offset(ls: seq<nat>, len: nat): nat
    requires len >= 1
  {
    if len == 1 then 0 else Offset(ls, len - 1) + Count(ls, len - 1)
  }

  lemma {:induction false} OffsetGrows(ls: seq<nat>, a: nat, b: nat)
    requires 1 <= a < b
    ensures Offset(ls, a) + Count(ls, a) <= Offset(ls, b)
    decreases b
  {
    if a < b - 1 {
      OffsetGrows(ls, a, b - 1);
    }
  }

  lemma {:induction false} OffsetTotal(ls: seq<nat>, len: nat)
    requires len >= 1
    ensures Offset(ls, len) <= |ls|
    decreases |ls|
  {
    if ls == [] {
      OffsetEmpty(len);
    } else {
      var front := ls[..|ls| - 1];
      OffsetTotal(front, len);
      OffsetOne(ls, len);
    }
  }

  lemma {:induction false} OffsetEmpty(len: nat)
    requires len >= 1
    ensures Offset([], len) == 0
    decreases len
  {
    if len > 1 {
      OffsetEmpty(len - 1);
    }
  }

  lemma {:induction false} OffsetOne(ls: seq<nat>, len: nat)
    requires len >= 1 && ls != []
    ensures var n := |ls| - 1;
      Offset(ls, len) == Offset(ls[..n], len) + (if 1 <= ls[n] < len then 1 else 0)
    decreases len
  {
    if len > 1 {
      OffsetOne(ls, len - 1);
    }
  }

  /** The symbols before n stand in their places. */
  ghost predicate Sorted(ls: seq<nat>, n: nat, s: seq<nat>) {
    && n <= |ls| && |s| == MAX_SYMBOLS
    && forall i :: 0 <= i < n && ls[i] >= 1 ==> Place(ls, i) < |s| && s[Place(ls, i)] == i
  }

  /** Where a symbol stands among the sorted ones. */
  function Place(ls: seq<nat>, i: nat): nat
    requires i < |ls| && ls[i] >= 1
  {
    Offset(ls, ls[i]) + Rank(ls, i, ls[i])
  }

  lemma {:induction false} PlaceFits(ls: seq<nat>, i: nat)
    requires i < |ls| && ls[i] >= 1
    ensures Place(ls, i) < |ls|
  {
    CodeInRange(ls, i);
    OffsetGrows(ls, ls[i], ls[i] + 1);
    OffsetTotal(ls, ls[i] + 1);
  }

  lemma {:induction false} PlacesDiffer(ls: seq<nat>, i: nat, j: nat)
    requires i < j < |ls| && ls[i] >= 1 && ls[j] >= 1
    ensures Place(ls, i) != Place(ls, j)
  {
    hide Offset;
    CodeInRange(ls, i);
    CodeInRange(ls, j);
    if ls[i] == ls[j] {
      RankUnique(ls, i, j);
    } else if ls[i] < ls[j] {
      OffsetGrows(ls, ls[i], ls[j]);
    } else {
      OffsetGrows(ls, ls[j], ls[i]);
    }
  }

  ghost predicate NextPlaces(ls: seq<nat>, n: nat, offs: seq<nat>) {
    n <= |ls| && |offs| == 16
    && forall len :: 1 <= len <= MAX_LENGTH ==> offs[len] == Offset(ls, len) + Rank(ls, n, len)
  }

  /** The offsets, and the loop that puts every symbol in its place. */
  method SortSymbols(ls: seq<nat>, count: array<nat>) returns (symbol: array<nat>)
    requires LengthsOk(ls) && count.Length == 16 && Counts(ls, |ls|, count[..])
    ensures fresh(symbol) && symbol.Length == MAX_SYMBOLS && Sorted(ls, |ls|, symbol[..])
  {
    hide Offset, Count, Rank, Place;
    var offs := FirstPlaces(ls, count);
    symbol := new nat[MAX_SYMBOLS](_ => 0);
    var i := 0;
    while i < |ls|
      invariant 0 <= i <= |ls| && NextPlaces(ls, i, offs[..]) && Sorted(ls, i, symbol[..])
    {
      ghost var before, places := symbol[..], offs[..];
      var len := ls[i];
      if len > 0 {
        PlaceFits(ls, i);
        PlaceIs(ls, i, offs[..]);
        symbol[offs[len]] := i;
        offs[len] := offs[len] + 1;
      }
      SortedStep(ls, i, before, symbol[..]);
      PlacesStep(ls, i, places, offs[..]);
      i := i + 1;
    }
  }

  lemma {:induction false} PlaceIs(ls: seq<nat>, i: nat, offs: seq<nat>)
    requires NextPlaces(ls, i, offs) && i < |ls| && 1 <= ls[i] <= MAX_LENGTH
    ensures offs[ls[i]] == Place(ls, i)
  {
  }

  lemma {:induction false} SortedStep(ls: seq<nat>, i: nat, before: seq<nat>, s: seq<nat>)
    requires Sorted(ls, i, before) && i < |ls|
    requires if ls[i] == 0 then s == before else Place(ls, i) < |before| && s == before[Place(ls, i) := i]
    ensures Sorted(ls, i + 1, s)
  {
    hide Place;
    forall j | 0 <= j <= i && ls[j] >= 1
      ensures Place(ls, j) < |s| && s[Place(ls, j)] == j
    {
      if j < i && ls[i] >= 1 {
        PlacesDiffer(ls, j, i);
      }
    }
  }

  lemma {:induction false} PlacesStep(ls: seq<nat>, i: nat, before: seq<nat>, offs: seq<nat>)
    requires NextPlaces(ls, i, before) && i < |ls| && ls[i] <= MAX_LENGTH
    requires offs == if ls[i] == 0 then before else before[ls[i] := before[ls[i]] + 1]
    ensures NextPlaces(ls, i + 1, offs)
  {
    hide Offset, Rank;
    forall len | 1 <= len <= MAX_LENGTH
      ensures offs[len] == Offset(ls, len) + Rank(ls, i + 1, len)
    {
      RankStep(ls, i, len);
    }
  }

  method FirstPlaces(ls: seq<nat>, count: array<nat>) returns (offs: array<nat>)
    requires count.Length == 16 && Counts(ls, |ls|, count[..])
    ensures fresh(offs) && NextPlaces(ls, 0, offs[..])
  {
    hide Count, Rank;
    offs := new nat[16](_ => 0);
    var i := 1;
    while i < 15
      invariant 1 <= i <= 15 && forall len :: 1 <= len <= i ==> offs[len] == Offset(ls, len)
    {
      RankEnd(ls, i);
      assert count[..][i] == Rank(ls, |ls|, i);
      offs[i + 1] := offs[i] + count[i];
      i := i + 1;
    }
    forall len | 1 <= len <= MAX_LENGTH
      ensures offs[..][len] == Offset(ls, len) + Rank(ls, 0, len)
    {
      RankEnd(ls, len);
    }
  }

  // ----- the table for short codes -----

  /** An entry holds length and symbol, 0 where there is none. */
  function Packed(f: Option<Found>): nat {
    if f.Some? then f.value.len * 512 + f.value.sym else 0
  }

  /** Every window of ten bits holds the last of the symbols before n that was entered there. */
  ghost predicate IsFast(ls: seq<nat>, n: nat, fast: seq<nat>) {
    n <= |ls| && |fast| == FAST_SIZE
    && forall w :: 0 <= w < FAST_SIZE ==> fast[w] == Packed(LastEntered(ls, n, Low(w, FAST_BITS)))
  }

  lemma {:induction false} CodeHead(v: nat, n: nat)
    ensures Code(v, n + 1) == [Shr(v, n) % 2 == 1] + Code(v, n)
    decreases n
  {
    if n > 0 {
      CodeHead(v / 2, n - 1);
    }
  }

  /** reverse. */
  method Reverse(code: nat, len: nat) returns (r: nat)
    ensures r < Pow2(len) && Low(r, len) == Code(code, len)
  {
    hide Code, Shr;
    r := 0;
    var i, c := 0, code;
    ShrNone(code);
    while i < len
      invariant 0 <= i <= len && c == Shr(code, i)
      invariant r < Pow2(i) && Low(r, i) == Code(code, i)
    {
      CodeHead(code, i);
      ShrNext(code, i);
      r, c := 2 * r + c % 2, c / 2;
      i := i + 1;
      assert r / 2 == (r - r % 2) / 2;
    }
  }

  lemma {:induction false} ShrNone(v: nat)
    ensures Shr(v, 0) == v && Code(v, 0) == []
  {
  }

  lemma {:induction false} MaskStep(j: nat, n: nat)
    ensures Mask(j + Pow2(n), n) == Mask(j, n)
    decreases n
  {
    if n > 0 {
      assert (j + 2 * Pow2(n - 1)) / 2 == j / 2 + Pow2(n - 1);
      MaskStep(j / 2, n - 1);
    }
  }

  lemma {:induction false} MaskBelow(w: nat, n: nat)
    ensures Mask(w, n) <= w
    decreases n
  {
    if n > 0 {
      MaskBelow(w / 2, n - 1);
    }
  }

  /** Numbers with the same low bits are a multiple of the power apart. */
  lemma {:induction false} MaskApart(j: nat, w: nat, n: nat)
    requires j < w && Mask(j, n) == Mask(w, n)
    ensures j + Pow2(n) <= w
    decreases n
  {
    if n > 0 {
      MaskApart(j / 2, w / 2, n - 1);
    }
  }

  /** The loop that enters one code: every window whose low bits are the code, reversed. */
  method EnterCode(fast: array<nat>, r: nat, len: nat, e: nat)
    requires fast.Length == FAST_SIZE && r < Pow2(len)
    modifies fast
    ensures forall w :: 0 <= w < FAST_SIZE ==> fast[w] == if Mask(w, len) == r then e else old(fast[w])
  {
    hide Mask, Pow2;
    var j := r;
    MaskAll(r, len);
    forall w | 0 <= w < r
      ensures Mask(w, len) != r
    {
      MaskBelow(w, len);
    }
    while j < FAST_SIZE
      invariant Mask(j, len) == r
      invariant forall w :: 0 <= w < FAST_SIZE ==> fast[w] == if w < j && Mask(w, len) == r then e else old(fast[w])
    {
      fast[j] := e;
      var next := j + Pow2(len);
      MaskStep(j, len);
      forall w | j < w < next
        ensures Mask(w, len) != r
      {
        if Mask(w, len) == r {
          MaskApart(j, w, len);
        }
      }
      j := next;
    }
  }

  /** A window has the reversed code in its low bits exactly when it starts with the code. */
  lemma {:induction false} WindowHasCode(ls: seq<nat>, i: nat, r: nat, w: nat)
    requires i < |ls| && 1 <= ls[i] <= FAST_BITS
    requires r < Pow2(ls[i]) && Low(r, ls[i]) == Code(CodeOf(ls, i), ls[i])
    ensures Mask(w, ls[i]) == r <==> StartsWith(ls, Low(w, FAST_BITS), i)
  {
    hide Code, Low, Mask, Pow2, CodeOf;
    var len := ls[i];
    LowSplit(w, len, FAST_BITS - len);
    assert Low(w, FAST_BITS)[..len] == Low(w, len);
    ValueIsMask(w, len);
    ValueIsMask(r, len);
    MaskAll(r, len);
    LowMask(w, len);
  }

  lemma {:induction false} FastStep(ls: seq<nat>, i: nat, r: nat, before: seq<nat>, fast: seq<nat>)
    requires i < |ls| && IsFast(ls, i, before) && |fast| == FAST_SIZE
    requires 1 <= ls[i] <= FAST_BITS && r < Pow2(ls[i]) && Low(r, ls[i]) == Code(CodeOf(ls, i), ls[i])
    requires forall w :: 0 <= w < FAST_SIZE ==> fast[w] == if Mask(w, ls[i]) == r then ls[i] * 512 + i else before[w]
    ensures IsFast(ls, i + 1, fast)
  {
    hide Code, Low, Mask, Pow2, CodeOf, StartsWith;
    forall w | 0 <= w < FAST_SIZE
      ensures fast[w] == Packed(LastEntered(ls, i + 1, Low(w, FAST_BITS)))
    {
      WindowHasCode(ls, i, r, w);
    }
  }

  /** A symbol without a code, or with a long one, changes nothing. */
  lemma {:induction false} FastSkip(ls: seq<nat>, i: nat, fast: seq<nat>)
    requires i < |ls| && IsFast(ls, i, fast) && (ls[i] == 0 || ls[i] > FAST_BITS)
    ensures IsFast(ls, i + 1, fast)
  {
    hide Low, Code, CodeOf;
    forall w | 0 <= w < FAST_SIZE
      ensures fast[w] == Packed(LastEntered(ls, i + 1, Low(w, FAST_BITS)))
    {
      assert !StartsWith(ls, Low(w, FAST_BITS), i);
    }
  }

  ghost predicate NextCodes(ls: seq<nat>, n: nat, next: seq<nat>) {
    n <= |ls| && |next| == 16
    && forall len :: 1 <= len <= MAX_LENGTH ==> next[len] == First(ls, len) + Rank(ls, n, len)
  }

  method FirstCodes(ls: seq<nat>, count: array<nat>) returns (next: array<nat>)
    requires count.Length == 16 && Counts(ls, |ls|, count[..])
    ensures fresh(next) && next.Length == 16 && NextCodes(ls, 0, next[..])
  {
    hide Count, Rank;
    next := new nat[16](_ => 0);
    var len, code := 1, 0;
    while len < 16
      invariant 1 <= len <= 16 && code == First(ls, len)
      invariant forall k :: 1 <= k < len ==> next[k] == First(ls, k)
    {
      RankEnd(ls, len);
      assert count[..][len] == Rank(ls, |ls|, len);
      next[len] := code;
      code := (code + count[len]) * 2;
      len := len + 1;
    }
    forall k | 1 <= k <= MAX_LENGTH
      ensures next[..][k] == First(ls, k) + Rank(ls, 0, k)
    {
      RankEnd(ls, k);
    }
  }

  lemma {:induction false} CodesStep(ls: seq<nat>, i: nat, before: seq<nat>, next: seq<nat>)
    requires NextCodes(ls, i, before) && i < |ls| && 1 <= ls[i] <= MAX_LENGTH
    requires next == before[ls[i] := before[ls[i]] + 1]
    ensures NextCodes(ls, i + 1, next) && before[ls[i]] == CodeOf(ls, i)
  {
    hide First, Rank;
    forall len | 1 <= len <= MAX_LENGTH
      ensures next[len] == First(ls, len) + Rank(ls, i + 1, len)
    {
      RankStep(ls, i, len);
    }
  }

  lemma {:induction false} CodesSkip(ls: seq<nat>, i: nat, next: seq<nat>)
    requires NextCodes(ls, i, next) && i < |ls| && ls[i] == 0
    ensures NextCodes(ls, i + 1, next)
  {
    hide First, Rank;
    forall len | 1 <= len <= MAX_LENGTH
      ensures next[len] == First(ls, len) + Rank(ls, i + 1, len)
    {
      RankStep(ls, i, len);
    }
  }

  /** The second half of build.  On lengths that do not fit, codes overwrite each other. */
  method FillFast(ls: seq<nat>, count: array<nat>) returns (fast: array<nat>)
    requires LengthsOk(ls) && count.Length == 16 && Counts(ls, |ls|, count[..])
    ensures fresh(fast) && fast.Length == FAST_SIZE && IsFast(ls, |ls|, fast[..])
  {
    hide IsFast, NextCodes, Low, Code, Mask, Pow2, CodeOf;
    var next := FirstCodes(ls, count);
    fast := new nat[FAST_SIZE](_ => 0);
    var i := 0;
    FastNone(ls, fast[..]);
    while i < |ls|
      invariant 0 <= i <= |ls| && next.Length == 16 && NextCodes(ls, i, next[..])
      invariant IsFast(ls, i, fast[..])
    {
      var len := ls[i];
      if len == 0 {
        CodesSkip(ls, i, next[..]);
        FastSkip(ls, i, fast[..]);
      } else {
        var c := next[len];
        ghost var places, before := next[..], fast[..];
        next[len] := c + 1;
        CodesStep(ls, i, places, next[..]);
        if len <= FAST_BITS {
          var r := Reverse(c, len);
          EnterCode(fast, r, len, len * 512 + i);
          FastStep(ls, i, r, before, fast[..]);
        } else {
          FastSkip(ls, i, fast[..]);
        }
      }
      i := i + 1;
    }
  }

  lemma {:induction false} FastNone(ls: seq<nat>, fast: seq<nat>)
    requires |fast| == FAST_SIZE && forall w :: 0 <= w < FAST_SIZE ==> fast[w] == 0
    ensures IsFast(ls, 0, fast)
  {
    hide Low;
  }

  // ----- decoding -----

  /** struct huff. */
  class Huff {
    const fast: array<nat>
    const count: array<nat>
    const symbol: array<nat>

    /** build. */
    constructor (ls: seq<nat>)
      requires LengthsOk(ls)
      ensures fresh(fast) && fresh(count) && fresh(symbol) && Tables(ls)
    {
      hide Counts, Sorted, IsFast;
      var c := CountLengths(ls);
      var s := SortSymbols(ls, c);
      var f := FillFast(ls, c);
      fast, count, symbol := f, c, s;
    }

    ghost predicate Tables(ls: seq<nat>)
      reads fast, count, symbol
    {
      && count.Length == 16 && Counts(ls, |ls|, count[..])
      && symbol.Length == MAX_SYMBOLS && Sorted(ls, |ls|, symbol[..])
      && fast.Length == FAST_SIZE && IsFast(ls, |ls|, fast[..])
      && |ls| <= MAX_SYMBOLS
    }

    /** decode_slow: one bit at a time. */
    method DecodeSlow(s: BitIn, ghost ls: seq<nat>) returns (sym: nat)
      requires Tables(ls) && s.Valid() && !s.err
      modifies s
      ensures s.Valid()
      ensures match Decode(ls, old(s.Rest()), 1)
        case Some(f) => !s.err && sym == f.sym && s.Rest() == old(s.Rest())[f.len..]
        case None => s.err
    {
      hide IsFast, Sorted, Counts, CodeValue, First, Offset, Decode, Count, Value, BitIn.Rest;
      ghost var b := s.Rest();
      var code, first, index := 0, 0, 0;
      var len := 1;
      assert b[0..] == b;
      NoCode(ls, b);
      while len <= MAX_LENGTH
        invariant 1 <= len <= MAX_LENGTH + 1 && s.Valid() && !s.err
        invariant len - 1 <= |b| && s.Rest() == b[len - 1..]
        invariant code == 2 * CodeValue(b[..len - 1]) && first == First(ls, len) && index == Offset(ls, len)
        invariant code >= first
        invariant Decode(ls, b, len) == Decode(ls, b, 1)
      {
        var bit := s.GetBits(1);
        if s.err {
          DecodeStops(ls, b, len);
          return 0;
        }
        DecodeStep(ls, b, len);
        NextBit(b, len);
        code := code + bit;
        CountAt(ls, count[..], len);
        var cnt := count[len];
        if code - first < cnt {
          SymbolAt(ls, symbol[..], len, code - first);
          return symbol[index + (code - first)];
        }
        index := index + cnt;
        first := (first + cnt) * 2;
        code := code * 2;
        len := len + 1;
      }
      DecodeStops(ls, b, len);
      s.Fail();
      sym := 0;
    }
  
    /** decode: short codes at one look, the rest bit by bit. */
    method DecodeSymbol(s: BitIn, ghost ls: seq<nat>) returns (sym: nat)
      requires Tables(ls) && s.Valid() && !s.err
      modifies s
      ensures s.Valid()
      ensures match Lookup(ls, old(s.Rest()))
        case Some(f) => !s.err && sym == f.sym && s.Rest() == old(s.Rest())[f.len..]
        case None => s.err
    {
      hide IsFast, Sorted, Counts, Decode, Mask, Value, Low, LastEntered;
      if s.cnt < FAST_BITS {
        s.Fill();
      }
      if s.cnt >= FAST_BITS {
        var window := Mask(s.buf, FAST_BITS);
        WindowIs(s.buf, s.cnt, s.Rest(), ByteBits(s.input[s.pos..]));
        FastIs(ls, fast[..], window, s.Rest());
        var e := fast[window];
        if e != 0 {
          var _ := s.Take(e / 512);
          return e % 512;
        }
      } else {
        NothingAhead(s);
      }
      sym := DecodeSlow(s, ls);
    }
  }

  /** With the input used up, what is left is in the buffer. */
  lemma {:induction false} NothingAhead(s: BitIn)
    requires s.Valid() && s.pos == |s.input|
    ensures |s.Rest()| == s.cnt
  {
    hide Low;
    assert s.input[s.pos..] == [];
  }

  /** The window is the first ten bits not read. */
  lemma {:induction false} WindowIs(buf: nat, cnt: nat, rest: Bits, bytes: Bits)
    requires cnt >= FAST_BITS && rest == Low(buf, cnt) + bytes
    ensures |rest| >= FAST_BITS && rest[..FAST_BITS] == Low(Mask(buf, FAST_BITS), FAST_BITS)
    ensures Mask(buf, FAST_BITS) < FAST_SIZE
  {
    hide Low, Mask;
    LowSplit(buf, FAST_BITS, cnt - FAST_BITS);
    LowMask(buf, FAST_BITS);
    assert Pow2(10) == 2 * Pow2(9) == 4 * Pow2(8) && Pow2(8) == 2 * Pow2(7) == 4 * Pow2(6);
    assert Pow2(6) == 2 * Pow2(5) == 4 * Pow2(4) && Pow2(4) == 2 * Pow2(3) == 4 * Pow2(2) && Pow2(2) == 4;
  }

  /** An entry is what the table is meant to say of the bits ahead. */
  lemma {:induction false} FastIs(ls: seq<nat>, fast: seq<nat>, w: nat, b: Bits)
    requires |ls| <= MAX_SYMBOLS && IsFast(ls, |ls|, fast) && w < FAST_SIZE
    requires |b| >= FAST_BITS && b[..FAST_BITS] == Low(w, FAST_BITS)
    ensures var r := LastEntered(ls, |ls|, b[..FAST_BITS]);
      if fast[w] == 0 then r == None
      else r == Some(Found(fast[w] % 512, fast[w] / 512)) && fast[w] / 512 <= FAST_BITS
  {
    hide Low, LastEntered, Code, CodeOf;
  }

  lemma {:induction false} DecodeStops(ls: seq<nat>, b: Bits, len: nat)
    requires len > MAX_LENGTH || len > |b|
    ensures len >= 1 && Decode(ls, b, len) == None
  {
  }

  lemma {:induction false} DecodeStep(ls: seq<nat>, b: Bits, len: nat)
    requires 1 <= len <= MAX_LENGTH && len <= |b|
    ensures First(ls, len + 1) == 2 * (First(ls, len) + Count(ls, len))
    ensures Offset(ls, len + 1) == Offset(ls, len) + Count(ls, len)
    ensures var c, first := CodeValue(b[..len]), First(ls, len);
      if first <= c < first + Count(ls, len)
      then Rank(ls, 0, len) == 0 && Decode(ls, b, len) == Some(Found(Nth(ls, 0, len, c - first), len))
      else Decode(ls, b, len) == Decode(ls, b, len + 1)
  {
    hide CodeValue, Count;
    RankEnd(ls, len);
  }

  lemma {:induction false} NoCode(ls: seq<nat>, b: Bits)
    ensures CodeValue(b[..0]) == 0 && First(ls, 1) == 0 && Offset(ls, 1) == 0
  {
  }

  /** Reading one more bit of a prefix. */
  lemma {:induction false} NextBit(b: Bits, n: nat)
    requires 1 <= n <= |b|
    ensures CodeValue(b[..n]) == 2 * CodeValue(b[..n - 1]) + Value(b[n - 1..][..1])
    ensures b[n - 1..][1..] == b[n..]
  {
    assert b[..n][..n - 1] == b[..n - 1];
    assert b[n - 1..][..1] == [b[n - 1]];
    assert Value([b[n - 1]]) == (if b[n - 1] then 1 else 0) + 2 * Value([]);
  }

  lemma {:induction false} CountAt(ls: seq<nat>, c: seq<nat>, len: nat)
    requires Counts(ls, |ls|, c) && 1 <= len <= MAX_LENGTH
    ensures |c| == 16 && c[len] == Count(ls, len)
  {
    RankEnd(ls, len);
  }

  /** The sorted symbols give the k-th symbol of a length. */
  lemma {:induction false} SymbolAt(ls: seq<nat>, s: seq<nat>, len: nat, k: nat)
    requires Sorted(ls, |ls|, s) && len >= 1 && k < Count(ls, len)
    ensures Rank(ls, 0, len) == 0 && Offset(ls, len) + k < |s| && s[Offset(ls, len) + k] == Nth(ls, 0, len, k)
  {
    hide Offset, Count;
    RankEnd(ls, len);
    var sym := Nth(ls, 0, len, k);
    assert Place(ls, sym) == Offset(ls, len) + k;
  }
}
