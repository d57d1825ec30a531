/**
 Bit strings as deflate uses them: numbers go into the stream low bit first, Huffman codes
 high bit first.
 */
module Bits {

  type Bits = seq<bool>
  type Byte = b: int | 0 <= b < 256

  function Pow2(n: nat): (p: nat)
    ensures p > 0
  {
    if n == 0 then 1 else 2 * Pow2(n - 1)
  }

  /** The n low bits of v, lowest first. */
  function Low(v: nat, n: nat): (r: Bits)
    ensures |r| == n
    decreases n
  {
    if n == 0 then [] else [v % 2 == 1] + Low(v / 2, n - 1)
  }

  /** The number whose bits, lowest first, are b. */
  function Value(b: Bits): nat {
    if b == [] then 0 else (if b[0] then 1 else 0) + 2 * Value(b[1..])
  }

  /** The n low bits of v, highest first. */
  function Code(v: nat, n: nat): (r: Bits)
    ensures |r| == n
    decreases n
  {
    if n == 0 then [] else Code(v / 2, n - 1) + [v % 2 == 1]
  }

  /** The number whose bits, highest first, are b. */
  function CodeValue(b: Bits): nat {
    if b == [] then 0 else 2 * CodeValue(b[..|b| - 1]) + (if b[|b| - 1] then 1 else 0)
  }

  function ByteBits(s: seq<Byte>): (r: Bits)
    ensures |r| == 8 * |s|
  {
    if s == [] then [] else Low(s[0], 8) + ByteBits(s[1..])
  }

  function Zeros(n: nat): Bits {
    seq(n, _ => false)
  }

  // ----- the C operators -----

  /** v << n. */
  function Shl(v: nat, n: nat): nat {
    if n == 0 then v else 2 * Shl(v, n - 1)
  }

  /** v >> n. */
  function Shr(v: nat, n: nat): nat
    decreases n
  {
    if n == 0 then v else Shr(v / 2, n - 1)
  }

  /** v & ((1 << n) - 1). */
  function Mask(v: nat, n: nat): (r: nat)
    ensures r < Pow2(n)
    decreases n
  {
    if n == 0 then 0 else v % 2 + 2 * Mask(v / 2, n - 1)
  }

  /** The low byte. */
  function LowByte(v: nat): (r: Byte)
    ensures r == Mask(v, 8)
  {
    assert Pow2(8) == 256 by {
      assert Pow2(8) == 2 * Pow2(7) == 4 * Pow2(6) && Pow2(6) == 2 * Pow2(5) == 4 * Pow2(4);
      assert Pow2(4) == 2 * Pow2(3) == 4 * Pow2(2) && Pow2(2) == 4;
    }
    Mask(v, 8)
  }

  lemma {:induction false} Pow2Grows(m: nat, n: nat)
    requires m <= n
    ensures Pow2(m) <= Pow2(n)
    decreases n
  {
    if m < n {
      Pow2Grows(m, n - 1);
    }
  }

  lemma {:induction false} ShrFits(v: nat, m: nat, n: nat)
    requires v < Pow2(m + n)
    ensures Shr(v, m) < Pow2(n)
    decreases m
  {
    if m > 0 {
      ShrFits(v / 2, m - 1, n);
    }
  }

  lemma {:induction false} ShlFits(v: nat, n: nat, m: nat, w: nat)
    requires v < Pow2(n) && w < Pow2(m)
    ensures w + Shl(v, m) < Pow2(n + m)
    decreases m
  {
    if m > 0 {
      ShlFits(v, n, m - 1, w / 2);
    }
  }

  lemma {:induction false} MaskAll(v: nat, n: nat)
    requires v < Pow2(n)
    ensures Mask(v, n) == v
    decreases n
  {
    if n > 0 {
      MaskAll(v / 2, n - 1);
    }
  }

  // ----- numbers and their bits -----

  /** Bits above the lowest `cnt` come after them. */
  lemma {:induction false} LowAbove(buf: nat, cnt: nat, v: nat, n: nat)
    requires buf < Pow2(cnt)
    ensures Low(buf + Shl(v, cnt), cnt + n) == Low(buf, cnt) + Low(v, n)
    decreases cnt
  {
    if cnt > 0 {
      var w := Shl(v, cnt - 1);
      assert (buf + 2 * w) % 2 == buf % 2 && (buf + 2 * w) / 2 == buf / 2 + w;
      LowAbove(buf / 2, cnt - 1, v, n);
    }
  }

  /** A number's bits in two parts. */
  lemma {:induction false} LowSplit(v: nat, m: nat, n: nat)
    ensures Low(v, m + n) == Low(v, m) + Low(Shr(v, m), n)
    decreases m
  {
    if m > 0 {
      LowSplit(v / 2, m - 1, n);
    }
  }

  lemma {:induction false} LowMask(v: nat, n: nat)
    ensures Low(Mask(v, n), n) == Low(v, n)
    decreases n
  {
    if n > 0 {
      LowMask(v / 2, n - 1);
    }
  }

  lemma {:induction false} ValueIsMask(v: nat, n: nat)
    ensures Value(Low(v, n)) == Mask(v, n)
    decreases n
  {
    if n > 0 {
      ValueIsMask(v / 2, n - 1);
      assert Low(v, n)[1..] == Low(v / 2, n - 1);
    }
  }

  lemma {:induction false} ValueFits(b: Bits)
    ensures Value(b) < Pow2(|b|)
    decreases |b|
  {
    if b != [] {
      ValueFits(b[1..]);
    }
  }

  lemma {:induction false} LowOfValue(b: Bits)
    ensures Low(Value(b), |b|) == b
    decreases |b|
  {
    if b != [] {
      LowOfValue(b[1..]);
      var w := Value(b[1..]);
      assert Value(b) / 2 == w && (Value(b) % 2 == 1 <==> b[0]);
    }
  }

  lemma {:induction false} CodeValueOfCode(v: nat, n: nat)
    requires v < Pow2(n)
    ensures CodeValue(Code(v, n)) == v
    decreases n
  {
    if n > 0 {
      CodeValueOfCode(v / 2, n - 1);
      assert Code(v, n)[..n - 1] == Code(v / 2, n - 1);
    }
  }

  lemma {:induction false} CodeOfCodeValue(b: Bits)
    ensures CodeValue(b) < Pow2(|b|) && Code(CodeValue(b), |b|) == b
    decreases |b|
  {
    if b != [] {
      var n := |b| - 1;
      CodeOfCodeValue(b[..n]);
      var w := CodeValue(b[..n]);
      assert CodeValue(b) / 2 == w && (CodeValue(b) % 2 == 1 <==> b[n]);
      assert b == b[..n] + [b[n]];
    }
  }

  lemma {:induction false} ByteBitsAppend(a: seq<Byte>, b: seq<Byte>)
    ensures ByteBits(a + b) == ByteBits(a) + ByteBits(b)
    decreases |a|
  {
    hide Low;
    if a == [] {
      assert a + b == b;
    } else {
      ByteBitsAppend(a[1..], b);
      assert (a + b)[1..] == a[1..] + b;
      assert (a + b)[0] == a[0];
    }
  }

  lemma {:induction false} ByteBitsOne(b: Byte)
    ensures ByteBits([b]) == Low(b, 8)
  {
    hide Low;
    assert [b][1..] == [];
    assert Low(b, 8) + [] == Low(b, 8);
  }
}
