/** The fixed Huffman code of section 3.2.6 of RFC 1951, and the codes deflate.c writes. */
module FixedCode {

  import opened Bits
  import opened Huffman

  function Rep(n: nat, len: nat): (r: seq<nat>)
    ensures |r| == n
  {
    seq(n, _ => len)
  }

  /** Lengths of the literal and length symbols. */
  const LITERALS: seq<nat> := Rep(144, 8) + Rep(112, 9) + Rep(24, 7) + Rep(8, 8)

  /** Lengths of the distance symbols. */
  const DISTANCES: seq<nat> := Rep(30, 5)

  lemma {:induction false} CountRep(n: nat, len: nat, l: nat)
    ensures Count(Rep(n, len), l) == if l == len then n else 0
    decreases n
  {
    if n > 0 {
      CountRep(n - 1, len, l);
      assert Rep(n, len)[..n - 1] == Rep(n - 1, len);
    }
  }

  lemma {:induction false} CountAppend(a: seq<nat>, b: seq<nat>, l: nat)
    ensures Count(a + b, l) == Count(a, l) + Count(b, l)
    decreases |b|
  {
    if b == [] {
      assert a + b == a;
    } else {
      var n := |b| - 1;
      CountAppend(a, b[..n], l);
      assert (a + b)[..|a| + n] == a + b[..n];
    }
  }

  lemma {:induction false} CountLiterals(a: nat, b: nat, c: nat, d: nat, l: nat)
    ensures Count(Rep(a, 8) + Rep(b, 9) + Rep(c, 7) + Rep(d, 8), l)
         == (if l == 8 then a + d else if l == 9 then b else if l == 7 then c else 0)
  {
    hide Count, Rep;
    CountAppend(Rep(a, 8) + Rep(b, 9) + Rep(c, 7), Rep(d, 8), l);
    CountAppend(Rep(a, 8) + Rep(b, 9), Rep(c, 7), l);
    CountAppend(Rep(a, 8), Rep(b, 9), l);
    CountRep(a, 8, l);
    CountRep(b, 9, l);
    CountRep(c, 7, l);
    CountRep(d, 8, l);
  }

  /** The lengths of the symbols before `sym`, as four runs. */
  lemma {:induction false} LiteralsBefore(sym: nat)
    requires sym < 288
    ensures LITERALS[sym] == (if sym < 144 then 8 else if sym < 256 then 9 else if sym < 280 then 7 else 8)
    ensures var a := if sym < 144 then sym else 144;
      var b := if sym < 144 then 0 else if sym < 256 then sym - 144 else 112;
      var c := if sym < 256 then 0 else if sym < 280 then sym - 256 else 24;
      var d := if sym < 280 then 0 else sym - 280;
      LITERALS[..sym] == Rep(a, 8) + Rep(b, 9) + Rep(c, 7) + Rep(d, 8)
  {
  }

  lemma {:induction false} FirstLiterals(len: nat)
    requires 1 <= len
    ensures len <= 7 ==> First(LITERALS, len) == 0
    ensures len == 8 ==> First(LITERALS, len) == 48
    ensures len == 9 ==> First(LITERALS, len) == 400
    ensures len >= 10 ==> First(LITERALS, len) == Pow2(len)
    decreases len
  {
    hide Count, Rep;
    if len > 1 {
      FirstLiterals(len - 1);
      CountLiterals(144, 112, 24, 8, len - 1);
      if len == 10 {
        assert Pow2(10) == 2 * Pow2(9) == 4 * Pow2(8) && Pow2(8) == 2 * Pow2(7) == 4 * Pow2(6);
        assert Pow2(6) == 2 * Pow2(5) == 4 * Pow2(4) && Pow2(4) == 2 * Pow2(3) == 4 * Pow2(2) && Pow2(2) == 4;
      }
    }
  }

  lemma {:induction false} SmallPowers()
    ensures Pow2(0) == 1 && Pow2(1) == 2 && Pow2(2) == 4 && Pow2(3) == 8 && Pow2(4) == 16 && Pow2(5) == 32
    ensures Pow2(6) == 64 && Pow2(7) == 128 && Pow2(8) == 256 && Pow2(9) == 512
  {
    assert Pow2(3) == 2 * Pow2(2) && Pow2(4) == 2 * Pow2(3) && Pow2(5) == 2 * Pow2(4);
    assert Pow2(6) == 2 * Pow2(5) && Pow2(7) == 2 * Pow2(6) && Pow2(8) == 2 * Pow2(7) && Pow2(9) == 2 * Pow2(8);
  }

  lemma {:induction false} LiteralsFit()
    ensures Fits(LITERALS)
  {
    hide Count, First, Rep, Pow2;
    forall len | 1 <= len <= MAX_LENGTH
      ensures RoomAt(LITERALS, len)
    {
      FirstLiterals(len);
      CountLiterals(144, 112, 24, 8, len);
      SmallPowers();
    }
    forall i | 0 <= i < |LITERALS|
      ensures LITERALS[i] <= MAX_LENGTH
    {
      LiteralsBefore(i);
    }
  }

  /** The code of every literal and length symbol, as the writer computes it. */
  lemma {:induction false} LiteralCode(sym: nat)
    requires sym < 288
    ensures LITERALS[sym] >= 1
    ensures CodeOf(LITERALS, sym)
         == (if sym < 144 then 0x30 + sym
             else if sym < 256 then 0x190 + sym - 144
             else if sym < 280 then sym - 256
             else 0xC0 + sym - 280)
  {
    hide Count, First, Rep;
    LiteralsBefore(sym);
    FirstLiterals(LITERALS[sym]);
    var a := if sym < 144 then sym else 144;
    var b := if sym < 144 then 0 else if sym < 256 then sym - 144 else 112;
    var c := if sym < 256 then 0 else if sym < 280 then sym - 256 else 24;
    var d := if sym < 280 then 0 else sym - 280;
    CountLiterals(a, b, c, d, LITERALS[sym]);
  }

  lemma {:induction false} FirstDistances(len: nat)
    requires 1 <= len
    ensures len <= 5 ==> First(DISTANCES, len) == 0
    ensures len > 5 ==> First(DISTANCES, len) <= Pow2(len)
    decreases len
  {
    hide Rep;
    if len > 1 {
      FirstDistances(len - 1);
      CountRep(30, 5, len - 1);
      SmallPowers();
    }
  }

  lemma {:induction false} DistancesFit()
    ensures Fits(DISTANCES)
  {
    hide Count, First, Pow2;
    forall len | 1 <= len <= MAX_LENGTH
      ensures RoomAt(DISTANCES, len)
    {
      FirstDistances(len);
      CountRep(30, 5, len);
      SmallPowers();
    }
  }

  lemma {:induction false} DistanceCode(sym: nat)
    requires sym < 30
    ensures DISTANCES[sym] == 5 && CodeOf(DISTANCES, sym) == sym
  {
    hide Count, First;
    FirstDistances(5);
    assert DISTANCES[..sym] == Rep(sym, 5);
    CountRep(sym, 5, 5);
  }
}
