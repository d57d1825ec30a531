/** The bit writer of deflate.c and the bit reader of inflate.c. */
module BitIo {

  import opened Bits

  /** bitout_t: whole bytes, and up to seven bits that do not make one yet. */
  class BitOut {
    var out: seq<Byte>
    var buf: nat
    var cnt: nat

    constructor ()
      ensures Valid() && Content() == [] && out == []
    {
      out, buf, cnt := [], 0, 0;
    }

    ghost predicate Valid()
      reads this
    {
      cnt < 8 && buf < Pow2(cnt)
    }

    /** All bits put in so far. */
    ghost function Content(): Bits
      reads this
    {
      ByteBits(out) + Low(buf, cnt)
    }

    /** bo_bits. */
    method PutBits(value: nat, n: nat)
      requires Valid() && n <= 24
      modifies this
      ensures Valid() && Content() == old(Content()) + Low(value, n)
    {
      hide Low, Pow2, Shl, Mask, ByteBits;
      LowMask(value, n);
      LowAbove(buf, cnt, Mask(value, n), n);
      ShlFits(Mask(value, n), n, cnt, buf);
      ghost var before := ByteBits(out) + Low(buf, cnt);
      buf, cnt := buf + Shl(Mask(value, n), cnt), cnt + n;
      assert ByteBits(out) + Low(buf, cnt) == before + Low(value, n);
      while cnt >= 8
        invariant buf < Pow2(cnt)
        invariant Content() == before + Low(value, n)
        decreases cnt
      {
        EmitByte();
      }
    }

    method EmitByte()
      requires cnt >= 8 && buf < Pow2(cnt)
      modifies this
      ensures cnt == old(cnt) - 8 && buf < Pow2(cnt) && Content() == old(Content())
    {
      hide Low, Pow2, Shr, Mask, ByteBits;
      ghost var b := LowByte(buf);
      LowSplit(buf, 8, cnt - 8);
      LowMask(buf, 8);
      ShrFits(buf, 8, cnt - 8);
      ByteBitsAppend(out, [b]);
      ByteBitsOne(b);
      ghost var was := ByteBits(out) + (Low(b, 8) + Low(Shr(buf, 8), cnt - 8));
      out := out + [LowByte(buf)];
      buf, cnt := Shr(buf, 8), cnt - 8;
      assert was == Content();
    }

    /** bo_huff: the code's high bit first. */
    method PutHuff(code: nat, n: nat)
      requires Valid()
      modifies this
      ensures Valid() && Content() == old(Content()) + Code(code, n)
    {
      hide Low, Pow2, Code, ByteBits;
      var i := n;
      CodeNone(Shr(code, n));
      while i > 0
        invariant 0 <= i <= n && Valid()
        invariant Content() == old(Content()) + Code(Shr(code, i), n - i)
      {
        i := i - 1;
        CodeNext(code, i, n - i);
        PutBits(Shr(code, i), 1);
      }
    }

    /** bo_flush: the last byte is filled with zeros. */
    method Flush()
      requires Valid()
      modifies this
      ensures Valid() && cnt == 0
      ensures exists k :: 0 <= k < 8 && ByteBits(out) == old(Content()) + Zeros(k)
    {
      hide Low, Pow2, ByteBits, Mask;
      if cnt > 0 {
        ghost var k := 8 - cnt;
        PadLow(buf, cnt, k);
        ByteBitsAppend(out, [LowByte(buf)]);
        ByteBitsOne(LowByte(buf));
        Pow2Grows(cnt, 8);
        MaskAll(buf, 8);
        ghost var was := Content();
        out := out + [LowByte(buf)];
        buf, cnt := 0, 0;
        PowOfNone();
        assert ByteBits(out) == was + Zeros(k);
      } else {
        LowNone(buf);
        assert ByteBits(out) == old(Content()) + Zeros(0);
      }
    }
  }

  lemma {:induction false} PowOfNone()
    ensures Pow2(0) == 1
  {
  }

  lemma {:induction false} LowNone(v: nat)
    ensures Low(v, 0) == []
  {
  }

  lemma {:induction false} CodeNone(v: nat)
    ensures Code(v, 0) == []
  {
  }

  lemma {:induction false} ShrNext(v: nat, i: nat)
    ensures Shr(v, i) / 2 == Shr(v, i + 1)
    decreases i
  {
    if i > 0 {
      ShrNext(v / 2, i - 1);
    }
  }

  lemma {:induction false} CodeNext(v: nat, i: nat, n: nat)
    requires n > 0
    ensures Code(Shr(v, i), n) == Code(Shr(v, i + 1), n - 1) + Low(Shr(v, i), 1)
  {
    ShrNext(v, i);
    assert Low(Shr(v, i), 1) == [Shr(v, i) % 2 == 1] + Low(Shr(v, i) / 2, 0);
  }

  lemma {:induction false} PadLow(buf: nat, cnt: nat, k: nat)
    requires buf < Pow2(cnt)
    ensures Low(buf, cnt + k) == Low(buf, cnt) + Zeros(k)
    decreases cnt
  {
    if cnt == 0 {
      LowZero(k);
    } else {
      PadLow(buf / 2, cnt - 1, k);
    }
  }

  lemma {:induction false} LowZero(k: nat)
    ensures Low(0, k) == Zeros(k)
    decreases k
  {
    if k > 0 {
      LowZero(k - 1);
    }
  }

  /** b is the end of the whole. */
  predicate IsSuffix(b: Bits, whole: Bits) {
    |b| <= |whole| && b == whole[|whole| - |b|..]
  }

  lemma {:induction false} SuffixOn(b: Bits, whole: Bits, n: nat)
    requires IsSuffix(b, whole) && n <= |b|
    ensures IsSuffix(b[n..], whole)
  {
  }

  lemma {:induction false} BytesSuffix(s: seq<Byte>, i: nat)
    requires i <= |s|
    ensures IsSuffix(ByteBits(s[i..]), ByteBits(s))
  {
    hide ByteBits;
    assert s == s[..i] + s[i..];
    ByteBitsAppend(s[..i], s[i..]);
  }

  /** The reading half of inf_state: bytes ahead, and a 64-bit buffer of bits. */
  class BitIn {
    const input: seq<Byte>
    var pos: nat
    var buf: nat
    var cnt: nat
    var err: bool

    constructor (input: seq<Byte>)
      ensures this.input == input && Valid() && !err && Rest() == ByteBits(input)
    {
      this.input := input;
      pos, buf, cnt, err := 0, 0, 0, false;
      new;
      assert input[0..] == input;
      LowNone(0);
      SuffixSelf(ByteBits(input));
    }

    ghost predicate Valid()
      reads this
    {
      pos <= |input| && cnt <= 64 && buf < Pow2(cnt) && IsSuffix(Rest(), ByteBits(input))
    }

    /** The bits not read yet. */
    ghost function Rest(): Bits
      reads this
    {
      Low(buf, cnt) + ByteBits(if pos <= |input| then input[pos..] else [])
    }

    method Fill()
      requires Valid()
      modifies `pos, `buf, `cnt
      ensures Valid() && Rest() == old(Rest()) && (cnt > 56 || pos == |input|)
    {
      hide Low, Pow2, Shl, ByteBits, IsSuffix;
      while cnt <= 56 && pos < |input|
        invariant Valid() && Rest() == old(Rest())
        decreases |input| - pos
      {
        ghost var b := input[pos];
        ByteFits(b);
        LowAbove(buf, cnt, b, 8);
        ShlFits(b, 8, cnt, buf);
        NextByte(input, pos);
        assert Low(buf, cnt) + (Low(b, 8) + ByteBits(input[pos + 1..]))
            == (Low(buf, cnt) + Low(b, 8)) + ByteBits(input[pos + 1..]);
        buf := buf + Shl(input[pos], cnt);
        pos, cnt := pos + 1, cnt + 8;
      }
    }

    /** bits: too few left is an error that reads nothing. */
    method GetBits(need: nat) returns (v: nat)
      requires Valid() && need <= 32
      modifies this
      ensures Valid()
      ensures old(|Rest()|) >= need
        ==> err == old(err) && v == Value(old(Rest())[..need]) && Rest() == old(Rest())[need..]
      ensures old(|Rest()|) < need ==> err && Rest() == old(Rest())
    {
      hide Low, Pow2, ByteBits, Mask, Shr, Value, IsSuffix;
      if need == 0 {
        ValueNone();
        assert Rest()[..0] == [] && Rest()[0..] == Rest();
        return 0;
      }
      if cnt < need {
        Fill();
        if cnt < need {
          err := true;
          assert input[pos..] == [];
          NoBytes();
          return 0;
        }
      }
      v := Take(need);
    }

    /** Split `need` bits off the buffer. */
    method Take(need: nat) returns (v: nat)
      requires Valid() && need <= cnt
      modifies `buf, `cnt
      ensures Valid() && v == Value(old(Rest())[..need]) && Rest() == old(Rest())[need..]
    {
      hide Low, Pow2, ByteBits, Mask, Shr, Value, IsSuffix;
      ghost var bytes := ByteBits(input[pos..]);
      LowSplit(buf, need, cnt - need);
      ValueIsMask(buf, need);
      ShrFits(buf, need, cnt - need);
      SuffixOn(Rest(), ByteBits(input), need);
      assert Rest()[..need] == Low(buf, need) && Rest()[need..] == Low(Shr(buf, need), cnt - need) + bytes;
      v := Mask(buf, need);
      buf, cnt := Shr(buf, need), cnt - need;
    }
  
    /** No code was found. */
    method Fail()
      requires Valid()
      modifies `err
      ensures Valid() && err && Rest() == old(Rest())
    {
      hide Low, Pow2, ByteBits, IsSuffix;
      err := true;
    }

    /** Go past n bytes of the input. */
    method Skip(n: nat)
      requires Valid() && cnt == 0 && pos + n <= |input|
      modifies `pos
      ensures Valid() && cnt == 0 && pos == old(pos) + n && Rest() == ByteBits(input[pos..])
    {
      hide Pow2, ByteBits, IsSuffix;
      pos := pos + n;
      LowNone(buf);
      BytesSuffix(input, pos);
      assert Rest() == ByteBits(input[pos..]);
    }

    /** Drop the rest of the current byte and give whole bytes back to the input. */
    method Align()
      requires Valid()
      modifies `pos, `buf, `cnt
      ensures Valid() && cnt == 0 && Rest() == old(Rest())[|old(Rest())| % 8..] && Rest() == ByteBits(input[pos..])
    {
      hide Low, Pow2, ByteBits, Shr, IsSuffix;
      ghost var b, all := Rest(), ByteBits(input);
      SuffixSize(b, all);
      WholeBytes(|b|, cnt, |input| - pos, |input|);
      var drop := cnt % 8;
      buf, cnt := Shr(buf, drop), cnt - drop;
      pos := pos - cnt / 8;
      buf, cnt := 0, 0;
      PowOfNone();
      LowNone(0);
      SuffixOn(b, all, drop);
      BytesSuffix(input, pos);
      SuffixUnique(b[drop..], ByteBits(input[pos..]), all);
      assert Rest() == ByteBits(input[pos..]);
    }
  }

  /** Buffered bits and bytes ahead: what is left of the current byte, and the bytes to give back. */
  lemma {:induction false} WholeBytes(n: nat, cnt: nat, ahead: nat, all: nat)
    requires n == cnt + 8 * ahead && n <= 8 * all
    ensures n % 8 == cnt % 8 && (cnt - cnt % 8) / 8 * 8 == cnt - cnt % 8
    ensures (cnt - cnt % 8) / 8 <= all - ahead
  {
  }

  lemma {:induction false} SuffixSelf(b: Bits)
    ensures IsSuffix(b, b)
  {
  }

  lemma {:induction false} SuffixSize(b: Bits, whole: Bits)
    requires IsSuffix(b, whole)
    ensures |b| <= |whole|
  {
  }

  lemma {:induction false} SuffixUnique(a: Bits, b: Bits, whole: Bits)
    requires IsSuffix(a, whole) && IsSuffix(b, whole) && |a| == |b|
    ensures a == b
  {
  }

  lemma {:induction false} ValueNone()
    ensures Value([]) == 0
  {
  }

  lemma {:induction false} NoBytes()
    ensures ByteBits([]) == []
  {
  }

  lemma {:induction false} ByteFits(b: Byte)
    ensures b < Pow2(8)
  {
    assert Pow2(8) == 2 * Pow2(7) == 4 * Pow2(6) && Pow2(6) == 2 * Pow2(5) == 4 * Pow2(4);
    assert Pow2(4) == 2 * Pow2(3) == 4 * Pow2(2) && Pow2(2) == 4;
  }

  lemma {:induction false} NextByte(s: seq<Byte>, i: nat)
    requires i < |s|
    ensures ByteBits(s[i..]) == Low(s[i], 8) + ByteBits(s[i + 1..])
  {
    hide Low;
    assert s[i..][1..] == s[i + 1..];
  }
}
