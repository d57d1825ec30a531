/**
 arc's CRC-32: a table of 256 entries and one table look-up per byte.  It is proved equal
 to the definition that feeds one bit at a time into a reflected shift register, and to
 do what a checksum is for: any change confined to four consecutive bytes is noticed.
 */
module ArcCrc {

  const POLY: bv32 := 0xEDB88320

  type Byte = b: bv32 | b <= 0xFF witness 0

  // ----- the word operations the checksum is made of -----

  function Xor(x: bv32, y: bv32): bv32 { x ^ y }

  function Half(x: bv32): bv32 { x >> 1 }

  function Odd(x: bv32): bool { x & 1 == 1 }

  /** The lowest bit of a word, as a word. */
  function LowBit(x: bv32): bv32 { x & 1 }

  function LowByte(x: bv32): Byte { MaskIsByte(x); x & 0xFF }

  function HighBytes(x: bv32): bv32 { x & 0xFFFF_FF00 }

  /** The word without its lowest byte, moved down. */
  function DropByte(x: bv32): bv32 { x >> 8 }

  /** The word moved up by a byte. */
  function AddByte(x: bv32): bv32 { x << 8 }

  lemma {:induction false} MaskIsByte(x: bv32)
    ensures x & 0xFF <= 0xFF
  {
  }

  lemma {:induction false} XorAssociates(x: bv32, y: bv32, z: bv32)
    ensures Xor(Xor(x, y), z) == Xor(x, Xor(y, z))
  {
  }

  lemma {:induction false} XorCommutes(x: bv32, y: bv32)
    ensures Xor(x, y) == Xor(y, x)
  {
  }

  lemma {:induction false} XorCancels(x: bv32, y: bv32)
    ensures Xor(x, x) == 0 && Xor(x, 0) == x && Xor(0, x) == x && Xor(Xor(x, y), y) == x
    ensures Xor(x, y) == 0 <==> x == y
  {
  }

  lemma {:induction false} XorPairs(a: bv32, b: bv32, c: bv32, d: bv32)
    ensures Xor(Xor(a, b), Xor(c, d)) == Xor(Xor(a, c), Xor(b, d))
  {
    hide Xor;
    XorAssociates(a, b, Xor(c, d));
    XorAssociates(b, c, d);
    XorCommutes(b, c);
    XorAssociates(c, b, d);
    XorAssociates(a, c, Xor(b, d));
  }

  lemma {:induction false} XorParity(x: bv32, y: bv32)
    ensures Odd(Xor(x, y)) <==> Odd(x) != Odd(y)
  {
  }

  lemma {:induction false} XorHalf(x: bv32, y: bv32)
    ensures Half(Xor(x, y)) == Xor(Half(x), Half(y))
  {
  }

  // ----- the register -----

  /** One step of the register. */
  function Shift(c: bv32): bv32 {
    if Odd(c) then Xor(POLY, Half(c)) else Half(c)
  }

  function Shifts(c: bv32, n: nat): bv32
    decreases n
  {
    if n == 0 then c else Shifts(Shift(c), n - 1)
  }

  /** The definition, bit by bit: feed the lowest n bits of b, least significant first. */
  function FeedBits(c: bv32, b: bv32, n: nat): bv32
    decreases n
  {
    if n == 0 then c else FeedBits(Shift(Xor(c, LowBit(b))), Half(b), n - 1)
  }

  /** The register after a byte string. */
  function Feed(c: bv32, d: seq<Byte>): bv32
    decreases |d|
  {
    if d == [] then c else Feed(FeedBits(c, d[0], 8), d[1..])
  }

  /** The checksum of section 8 of RFC 1952: start from all ones, complement at the end. */
  function Crc32(d: seq<Byte>): bv32 {
    Xor(Feed(0xFFFF_FFFF, d), 0xFFFF_FFFF)
  }

  // ----- linearity -----

  /** A step of the register is linear over exclusive or. */
  lemma {:induction false} ShiftLinear(x: bv32, y: bv32)
    ensures Shift(Xor(x, y)) == Xor(Shift(x), Shift(y))
  {
    hide Xor, Half, Odd;
    var a, b := Half(x), Half(y);
    XorParity(x, y);
    XorHalf(x, y);
    XorPairs(POLY, a, POLY, b);
    XorCancels(POLY, 0);
    XorCancels(Xor(a, b), 0);
    XorAssociates(POLY, a, b);
    XorAssociates(a, POLY, b);
    XorCommutes(a, POLY);
  }

  lemma {:induction false} ShiftsLinear(x: bv32, y: bv32, n: nat)
    ensures Shifts(Xor(x, y), n) == Xor(Shifts(x, n), Shifts(y, n))
    decreases n
  {
    hide Shift, Xor;
    if n > 0 {
      ShiftLinear(x, y);
      ShiftsLinear(Shift(x), Shift(y), n - 1);
    }
  }

  lemma {:induction false} ShiftZero(x: bv32)
    ensures Shift(x) == 0 <==> x == 0
  {
  }

  /** The register forgets nothing: only the zero register becomes zero. */
  lemma {:induction false} ShiftsZero(x: bv32, n: nat)
    ensures Shifts(x, n) == 0 <==> x == 0
    decreases n
  {
    hide Shift;
    if n > 0 {
      ShiftZero(x);
      ShiftsZero(Shift(x), n - 1);
    }
  }

  lemma {:induction false} ShiftsAdd(x: bv32, m: nat, n: nat)
    ensures Shifts(x, m + n) == Shifts(Shifts(x, m), n)
    decreases m
  {
    hide Shift;
    if m > 0 {
      ShiftsAdd(Shift(x), m - 1, n);
    }
  }

  /** A register without low bits is only shifted. */
  lemma {:induction false} ShiftsHigh(x: bv32)
    requires x & 0xFF == 0
    ensures Shifts(x, 8) == DropByte(x)
  {
    var a, b, c, d := x >> 1, x >> 2, x >> 3, x >> 4;
    var e, f, g := x >> 5, x >> 6, x >> 7;
    assert Shift(x) == a && Shift(a) == b && Shift(b) == c && Shift(c) == d;
    assert Shift(d) == e && Shift(e) == f && Shift(f) == g && Shift(g) == x >> 8;
    hide Shift;
    assert Shifts(x >> 8, 0) == x >> 8;
    assert Shifts(e, 3) == Shifts(f, 2) == Shifts(g, 1);
    assert Shifts(b, 6) == Shifts(c, 5) == Shifts(d, 4);
  }

  // ----- a byte at a time -----

  /** A word is its lowest bit and an even rest; the rest is only halved. */
  lemma {:induction false} SplitLowBit(x: bv32)
    ensures x == Xor(LowBit(x), x & 0xFFFF_FFFE) && Shift(x & 0xFFFF_FFFE) == Half(x)
  {
  }

  lemma {:induction false} FoldOneBit(c: bv32, x: bv32)
    ensures Shift(Xor(c, x)) == Xor(Shift(Xor(c, LowBit(x))), Half(x))
  {
    hide Xor, Shift, Half, LowBit;
    var even := x & 0xFFFF_FFFE;
    SplitLowBit(x);
    XorAssociates(c, LowBit(x), even);
    ShiftLinear(Xor(c, LowBit(x)), even);
  }

  function HalveTimes(x: bv32, n: nat): bv32
    decreases n
  {
    if n == 0 then x else HalveTimes(Half(x), n - 1)
  }

  /** Feeding bits one by one is folding them in at once and shifting as often, up to the
      bits not fed yet. */
  lemma {:induction false} FeedAtOnce(c: bv32, b: bv32, n: nat)
    ensures FeedBits(c, b, n) == Xor(Shifts(Xor(c, b), n), HalveTimes(b, n))
    decreases n
  {
    hide Xor, Shift, Half, LowBit;
    if n == 0 {
      XorCancels(c, b);
    } else {
      FoldOneBit(c, b);
      FeedAtOnce(Shift(Xor(c, LowBit(b))), Half(b), n - 1);
    }
  }

  lemma {:induction false} ByteBits(x: Byte)
    ensures HalveTimes(x, 8) == 0
  {
    assert x >> 8 == 0;
    var a, b, c, d := x >> 1, x >> 2, x >> 3, x >> 4;
    var e, f, g := x >> 5, x >> 6, x >> 7;
    assert Half(x) == a && Half(a) == b && Half(b) == c && Half(c) == d;
    assert Half(d) == e && Half(e) == f && Half(f) == g && Half(g) == x >> 8;
    hide Half;
    assert HalveTimes(x >> 8, 0) == x >> 8;
    assert HalveTimes(e, 3) == HalveTimes(f, 2) == HalveTimes(g, 1);
    assert HalveTimes(b, 6) == HalveTimes(c, 5) == HalveTimes(d, 4);
  }

  lemma {:induction false} FeedByte(c: bv32, b: Byte)
    ensures FeedBits(c, b, 8) == Shifts(Xor(c, b), 8)
  {
    hide Xor, Shift, Half, Shifts, FeedBits, HalveTimes;
    ByteBits(b);
    FeedAtOnce(c, b, 8);
    XorCancels(Shifts(Xor(c, b), 8), 0);
  }

  // ----- the table -----

  ghost predicate TableUpTo(table: seq<bv32>, n: nat) {
    n <= |table| == 256 && forall i :: 0 <= i < n ==> table[i] == Shifts(Index(i), 8)
  }

  function Index(i: nat): bv32
    requires i < 256
  {
    i as bv32
  }

  function Position(x: Byte): (i: nat)
    ensures i < 256
  {
    x as int
  }

  lemma {:induction false} IndexOfPosition(x: Byte)
    ensures Index(Position(x)) == x
  {
  }

  /** Fill the table: each index shifted eight times. */
  method CrcInit() returns (table: array<bv32>)
    ensures fresh(table) && table.Length == 256 && TableUpTo(table[..], 256)
  {
    hide Index, Xor, Half, Odd;
    table := new bv32[256](_ => 0);
    for i := 0 to 256
      invariant table.Length == 256 && TableUpTo(table[..], i)
    {
      var c := Index(i);
      for k := 0 to 8
        invariant Shifts(c, 8 - k) == Shifts(Index(i), 8)
      {
        c := if Odd(c) then Xor(POLY, Half(c)) else Half(c);
      }
      ghost var before := table[..];
      table[i] := c;
      assert forall j :: 0 <= j < i ==> table[..][j] == before[j];
    }
  }

  lemma {:induction false} Halves(x: bv32)
    ensures x == Xor(LowByte(x), HighBytes(x)) && HighBytes(x) & 0xFF == 0
  {
  }

  lemma {:induction false} HighHalf(c: bv32, b: Byte)
    ensures DropByte(HighBytes(Xor(c, b))) == DropByte(c)
  {
  }

  /** One look-up does what eight shifts do. */
  lemma {:induction false} LookUp(c: bv32, b: Byte)
    ensures Xor(Shifts(LowByte(Xor(c, b)), 8), DropByte(c)) == FeedBits(c, b, 8)
  {
    hide Xor, Shift, Shifts, FeedBits, LowByte, HighBytes, DropByte;
    var x := Xor(c, b);
    FeedByte(c, b);
    Halves(x);
    HighHalf(c, b);
    ShiftsLinear(LowByte(x), HighBytes(x), 8);
    ShiftsHigh(HighBytes(x));
  }

  /** The table-driven checksum is the bitwise one. */
  method Crc32Of(d: seq<Byte>) returns (crc: bv32)
    ensures crc == Crc32(d)
  {
    hide Xor, Shifts, FeedBits, LowByte, DropByte, Position, Index;
    var table := CrcInit();
    var c: bv32 := 0xFFFF_FFFF;
    assert d[0..] == d;
    for i := 0 to |d|
      invariant Feed(c, d[i..]) == Feed(0xFFFF_FFFF, d)
      invariant table.Length == 256 && TableUpTo(table[..], 256)
    {
      var low := LowByte(Xor(c, d[i]));
      LookUp(c, d[i]);
      IndexOfPosition(low);
      assert table[..][Position(low)] == Shifts(low, 8);
      assert d[i..][1..] == d[i + 1..];
      c := Xor(table[Position(low)], DropByte(c));
    }
    crc := Xor(c, 0xFFFF_FFFF);
  }

  // ----- what the checksum notices -----

  lemma {:induction false} FeedAppend(c: bv32, x: seq<Byte>, y: seq<Byte>)
    ensures Feed(c, x + y) == Feed(Feed(c, x), y)
    decreases |x|
  {
    hide FeedBits;
    if x == [] {
      assert x + y == y;
    } else {
      assert (x + y)[1..] == x[1..] + y;
      FeedAppend(FeedBits(c, x[0], 8), x[1..], y);
    }
  }

  /** Up to four bytes as one word, first byte lowest. */
  function Word(d: seq<Byte>): bv32
    decreases |d|
  {
    if d == [] then 0 else Xor(d[0], AddByte(Word(d[1..])))
  }

  /** The word fits in n bytes. */
  predicate Fits(w: bv32, n: nat) {
    if n == 0 then w == 0
    else if n == 1 then w <= 0xFF
    else if n == 2 then w <= 0xFFFF
    else n == 3 ==> w <= 0xFF_FFFF
  }

  lemma {:induction false} WordFits(d: seq<Byte>)
    requires |d| <= 4
    ensures Fits(Word(d), |d|)
    decreases |d|
  {
    if d == [] {
    } else {
      WordFits(d[1..]);
      var w, b := Word(d[1..]), d[0];
      hide Xor, AddByte, Fits;
      WordStep(b, w, |d| - 1);
      assert Word(d) == Xor(b, AddByte(w));
    }
  }

  lemma {:induction false} WordStep(b: Byte, w: bv32, n: nat)
    requires n <= 3 && Fits(w, n)
    ensures Fits(Xor(b, AddByte(w)), n + 1)
    ensures AddByte(w) & 0xFF == 0 && DropByte(AddByte(w)) == w
    ensures Xor(b, AddByte(w)) == 0 <==> b == 0 && w == 0
  {
    ThreeBytes(b, w);
    if n == 0 {
      FitsOne(b);
    } else if n == 1 {
      FitsTwo(b, w);
    } else if n == 2 {
      FitsThree(b, w);
    }
  }

  lemma {:induction false} ThreeBytes(b: bv32, w: bv32)
    requires b <= 0xFF && w <= 0xFF_FFFF
    ensures AddByte(w) & 0xFF == 0 && DropByte(AddByte(w)) == w
    ensures Xor(b, AddByte(w)) == 0 <==> b == 0 && w == 0
  {
    UpAndDown(w);
    LowByteClear(w);
    XorCancels(b, AddByte(w));
    hide Xor, AddByte, DropByte;
    if b == AddByte(w) {
      ByteDropped(b);
    }
    if w == 0 {
      AddNothing();
    }
  }

  lemma {:induction false} UpAndDown(w: bv32)
    requires w <= 0xFF_FFFF
    ensures DropByte(AddByte(w)) == w
  {
  }

  lemma {:induction false} LowByteClear(w: bv32)
    ensures AddByte(w) & 0xFF == 0
  {
  }

  lemma {:induction false} ByteDropped(b: bv32)
    requires b <= 0xFF
    ensures DropByte(b) == 0
  {
  }

  lemma {:induction false} AddNothing()
    ensures AddByte(0) == 0
  {
  }

  lemma {:induction false} FitsOne(b: bv32)
    requires b <= 0xFF
    ensures Xor(b, AddByte(0)) <= 0xFF
  {
  }

  lemma {:induction false} FitsTwo(b: bv32, w: bv32)
    requires b <= 0xFF && w <= 0xFF
    ensures Xor(b, AddByte(w)) <= 0xFFFF
  {
  }

  lemma {:induction false} FitsThree(b: bv32, w: bv32)
    requires b <= 0xFF && w <= 0xFFFF
    ensures Xor(b, AddByte(w)) <= 0xFF_FFFF
  {
  }

  /** The bytes by which two strings differ. */
  function Delta(x: seq<Byte>, y: seq<Byte>): (r: seq<Byte>)
    requires |x| == |y|
    ensures |r| == |x|
    decreases |x|
  {
    if x == [] then [] else [XorByte(x[0], y[0])] + Delta(x[1..], y[1..])
  }

  function XorByte(a: Byte, b: Byte): (r: Byte)
    ensures r == Xor(a, b)
  {
    a ^ b
  }

  /** The word of differences is zero only for equal strings. */
  lemma {:induction false} DeltaZero(x: seq<Byte>, y: seq<Byte>)
    requires |x| == |y| <= 4
    ensures Word(Delta(x, y)) == 0 <==> x == y
    decreases |x|
  {
    hide Xor, AddByte, Fits, XorByte;
    if x != [] {
      DeltaZero(x[1..], y[1..]);
      XorCancels(x[0], y[0]);
      var rest := Delta(x[1..], y[1..]);
      var d := XorByte(x[0], y[0]);
      assert Delta(x, y)[0] == d && Delta(x, y)[1..] == rest;
      WordFits(rest);
      WordStep(d, Word(rest), |rest|);
      SameHeadAndTail(x, y);
    }
  }

  lemma {:induction false} SameHeadAndTail(x: seq<Byte>, y: seq<Byte>)
    requires |x| == |y| > 0
    ensures x == y <==> x[0] == y[0] && x[1..] == y[1..]
  {
    assert x == [x[0]] + x[1..] && y == [y[0]] + y[1..];
  }

  /** How the difference of two registers evolves over up to four bytes. */
  lemma {:induction false} RegisterDifference(c: bv32, e: bv32, x: seq<Byte>, y: seq<Byte>)
    requires |x| == |y| <= 4
    ensures Xor(Feed(c, x), Feed(e, y)) == Shifts(Xor(Xor(c, e), Word(Delta(x, y))), 8 * |x|)
    decreases |x|
  {
    hide Xor, Shift, FeedBits, AddByte, DropByte, Fits, XorByte;
    if x == [] {
      XorCancels(Xor(c, e), 0);
    } else {
      var rest := Delta(x[1..], y[1..]);
      var w := Word(rest);
      var c1, e1 := FeedBits(c, x[0], 8), FeedBits(e, y[0], 8);
      RegisterDifference(c1, e1, x[1..], y[1..]);
      assert Delta(x, y)[1..] == rest && Delta(x, y)[0] == XorByte(x[0], y[0]);
      var all := Xor(Xor(c, e), Xor(Xor(x[0], y[0]), AddByte(w)));
      assert all == Xor(Xor(c, e), Word(Delta(x, y)));
      hide Shifts;
      OneByteDifference(c, e, x[0], y[0], rest);
      ShiftsAdd(all, 8, 8 * |rest|);
    }
  }

  lemma {:induction false} OneByteDifference(c: bv32, e: bv32, x: Byte, y: Byte, rest: seq<Byte>)
    requires |rest| <= 3
    ensures Xor(Xor(FeedBits(c, x, 8), FeedBits(e, y, 8)), Word(rest))
         == Shifts(Xor(Xor(c, e), Xor(Xor(x, y), AddByte(Word(rest)))), 8)
  {
    hide Xor, Shift, Shifts, FeedBits, AddByte, DropByte, Fits;
    var w := Word(rest);
    FeedByte(c, x);
    FeedByte(e, y);
    ShiftsLinear(Xor(c, x), Xor(e, y), 8);
    XorPairs(c, x, e, y);
    WordFits(rest);
    WordStep(0, w, |rest|);
    ShiftsHigh(AddByte(w));
    ShiftsLinear(Xor(Xor(c, e), Xor(x, y)), AddByte(w), 8);
    XorAssociates(Xor(c, e), Xor(x, y), AddByte(w));
  }

  /** Different registers stay different over equal bytes. */
  lemma {:induction false} StaysDifferent(c: bv32, e: bv32, y: seq<Byte>)
    requires c != e
    ensures Feed(c, y) != Feed(e, y)
    decreases |y|
  {
    hide Xor, Shifts, FeedBits;
    if y != [] {
      var b := y[0];
      FeedByte(c, b);
      FeedByte(e, b);
      ShiftsLinear(Xor(c, b), Xor(e, b), 8);
      XorPairs(c, b, e, b);
      XorCancels(b, 0);
      XorCancels(Xor(c, e), 0);
      XorCancels(c, e);
      ShiftsZero(Xor(c, e), 8);
      XorCancels(FeedBits(c, b, 8), FeedBits(e, b, 8));
      StaysDifferent(FeedBits(c, b, 8), FeedBits(e, b, 8), y[1..]);
    }
  }

  /** Any change within four consecutive bytes changes the checksum. */
  lemma {:induction false} BurstIsNoticed(before: seq<Byte>, x: seq<Byte>, y: seq<Byte>, after: seq<Byte>)
    requires |x| == |y| <= 4 && x != y
    ensures Crc32(before + x + after) != Crc32(before + y + after)
  {
    hide Feed, Shifts, Xor, Word;
    var c := Feed(0xFFFF_FFFF, before);
    FeedAppend(0xFFFF_FFFF, before, x);
    FeedAppend(0xFFFF_FFFF, before, y);
    FeedAppend(0xFFFF_FFFF, before + x, after);
    FeedAppend(0xFFFF_FFFF, before + y, after);
    RegisterDifference(c, c, x, y);
    XorCancels(c, 0);
    DeltaZero(x, y);
    var w := Word(Delta(x, y));
    XorCancels(w, 0);
    ShiftsZero(w, 8 * |x|);
    XorCancels(Feed(c, x), Feed(c, y));
    StaysDifferent(Feed(c, x), Feed(c, y), after);
    XorCancels(Feed(Feed(c, x), after), 0xFFFF_FFFF);
    XorCancels(Feed(Feed(c, y), after), 0xFFFF_FFFF);
  }
}
