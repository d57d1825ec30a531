/** raw_deflate as a whole, and inflating what it wrote. */
module DeflateRun {

  import opened Wrappers
  import opened Bits
  import opened BitIo
  import opened Huffman
  import opened FixedCode
  import opened Lz
  import opened LzProof
  import opened Inflate
  import opened Deflate

  // ----- one fixed-code block -----

  /** A final block of type 1 with these tokens. */
  ghost function FixedBits(ts: seq<Token>): Bits
    requires AllGood(ts, 0)
  {
    Low(1, 1) + Low(1, 2) + BlockBits(LITERALS, DISTANCES, ts, 0) + SymbolBits(LITERALS, END_OF_BLOCK)
  }

  /** The bytes hold such a block for tokens that stand for the input, and padding. */
  ghost predicate IsFixed(out: seq<Byte>, input: seq<Byte>, ts: seq<Token>, k: nat) {
    && Covers(ts, input, |input|)
    && ByteBits(out) == FixedBits(ts) + Zeros(k)
  }

  lemma {:induction false} HeaderBits()
    ensures Low(1, 1) == [true] && Low(1, 2) == [true, false] && Value([true, false]) == 1
  {
    assert Low(1, 1) == [true] + Low(0, 0) && Low(1, 2) == [true] + Low(0, 1) && Low(0, 1) == [false] + Low(0, 0);
    assert Value([true, false]) == 1 + 2 * Value([true, false][1..]) && [true, false][1..] == [false];
    assert Value([false]) == 0 + 2 * Value([false][1..]) && [false][1..] == [];
  }

  /** Bytes behind the block do not matter. */
  lemma {:induction false} FixedInflates(out: seq<Byte>, input: seq<Byte>, ts: seq<Token>, k: nat, more: seq<Byte>)
    requires IsFixed(out, input, ts, k)
    ensures InflateBytes(out + more) == Whole(input)
  {
    hide Low, Value, ByteBits, Block, BlockBits, SymbolBits, Expand, AllGood, Run, Fits;
    LiteralsFit();
    DistancesFit();
    AllFixed(ts);
    HeaderBits();
    ByteBitsAppend(out, more);
    var b := ByteBits(out + more);
    var end := Zeros(k) + ByteBits(more);
    var body := BlockBits(LITERALS, DISTANCES, ts, 0) + SymbolBits(LITERALS, END_OF_BLOCK) + end;
    assert b == [true, true, false] + body;
    assert b[1..3] == [true, false] && b[3..] == body;
    RunStep(b, []);
    BlockDecodes(LITERALS, DISTANCES, ts, end, []);
    assert input[..|input|] == input;
  }

  lemma {:induction false} AllFixed(ts: seq<Token>)
    ensures AllWritable(LITERALS, DISTANCES, ts)
  {
    hide Writable;
    FixedCodes(Literal(0));
    forall i | 0 <= i < |ts|
      ensures Writable(LITERALS, DISTANCES, ts[i])
    {
      FixedCodes(ts[i]);
    }
  }

  /** The matching loop and the block around it. */
  method Compress(input: seq<Byte>) returns (out: seq<Byte>, ghost ts: seq<Token>, ghost k: nat)
    ensures IsFixed(out, input, ts, k) && k < 8
  {
    hide Low, ByteBits, BlockBits, SymbolBits, Covers, BitOut.Content, Entered, TokenBits, Code, CodeOf, Repeats,
      AllGood;
    var head := new int[HASH_SIZE](_ => -1);
    var prev := new Option<int>[|input|](_ => None);
    var w := new BitOut();
    w.PutBits(1, 1);
    w.PutBits(1, 2);
    ts := [];
    var i := 0;
    StartChains(|input|, head[..], prev[..]);
    StartCover(input);
    while i < |input|
      invariant 0 <= i <= |input| && w.Valid() && fresh(w) && fresh(head) && fresh(prev)
      invariant Covers(ts, input, i) && AllGood(ts, 0)
      invariant w.Content() == Low(1, 1) + Low(1, 2) + BlockBits(LITERALS, DISTANCES, ts, 0)
      invariant Entered(|input|, i, head[..], prev[..])
    {
      var best, dist := 0, 0;
      if i + MIN_MATCH <= |input| {
        best, dist := FindMatch(input, i, head, prev);
      }
      var n := 1;
      ghost var t := Literal(input[i]);
      if best >= MIN_MATCH {
        RepeatsBound(Match(best, dist), input, i);
        EmitMatch(w, best, dist);
        t := Match(best, dist);
        n := best;
      } else {
        EmitLiteral(w, input[i]);
      }
      CoversMore(ts, t, input, i);
      CoverIsGood(ts + [t], input, i + n);
      AppendBits(ts, t, 0);
      ts := ts + [t];
      EnterAll(input, i, n, head, prev);
      i := i + n;
    }
    LiteralCode(END_OF_BLOCK);
    LiteralsBefore(END_OF_BLOCK);
    EndBits();
    w.PutHuff(0, 7);
    ghost var content := w.Content();
    w.Flush();
    out := w.out;
    k :| 0 <= k < 8 && ByteBits(out) == content + Zeros(k);
  }

  lemma {:induction false} EndBits()
    ensures SymbolBits(LITERALS, END_OF_BLOCK) == Code(0, 7)
  {
    hide Code, CodeOf;
    LiteralCode(END_OF_BLOCK);
    LiteralsBefore(END_OF_BLOCK);
  }

  lemma {:induction false} StartChains(n: nat, head: seq<int>, prev: seq<Option<int>>)
    requires |head| == HASH_SIZE && |prev| == n
    ensures Entered(n, 0, head, prev)
  {
  }

  lemma {:induction false} StartCover(input: seq<Byte>)
    ensures Covers([], input, 0) && AllGood([], 0) && BlockBits(LITERALS, DISTANCES, [], 0) == []
  {
  }

  lemma {:induction false} CoverIsGood(ts: seq<Token>, input: seq<Byte>, i: nat)
    requires Covers(ts, input, i)
    ensures AllGood(ts, 0)
  {
  }

  /** Enter the positions of a token into the chains. */
  method EnterAll(input: seq<Byte>, i: nat, n: nat, head: array<int>, prev: array<Option<int>>)
    requires i + n <= |input| && Entered(|input|, i, head[..], prev[..]) 
    modifies head, prev
    ensures Entered(|input|, i + n, head[..], prev[..])
  {
    hide Entered;
    var k := 0;
    while k < n
      invariant 0 <= k <= n && Entered(|input|, i + k, head[..], prev[..])
    {
      Enter(input, i + k, head, prev);
      k := k + 1;
    }
  }

  // ----- stored blocks -----

  /** The five bytes before the data of a stored block. */
  function StoredHeader(last: bool, n: nat): (r: seq<Byte>)
    requires n <= MAX_STORED
    ensures |r| == 5
  {
    [if last then 1 else 0, n % 256, n / 256, 255 - n % 256, 255 - n / 256]
  }

  /** raw_stored's output. */
  function StoredBytes(input: seq<Byte>): seq<Byte> {
    if |input| <= MAX_STORED then StoredHeader(true, |input|) + input
    else StoredHeader(false, MAX_STORED) + input[..MAX_STORED] + StoredBytes(input[MAX_STORED..])
  }

  /** The stored form fits the buffer that is set aside for it. */
  lemma {:induction false} StoredFits(input: seq<Byte>)
    ensures |StoredBytes(input)| <= |input| + (|input| / MAX_STORED + 1) * 5
    decreases |input|
  {
    hide StoredHeader;
    if |input| > MAX_STORED {
      StoredFits(input[MAX_STORED..]);
      assert (|input| - MAX_STORED) / MAX_STORED == |input| / MAX_STORED - 1;
    }
  }

  /** One stored block, read from its first bit. */
  lemma {:induction false} StoredRuns(last: bool, data: seq<Byte>, more: seq<Byte>, out: seq<Byte>)
    requires |data| <= MAX_STORED
    ensures var b := ByteBits(StoredHeader(last, |data|) + data + more);
      Run(b, out) == if last then Whole(out + data) else Run(ByteBits(more), out + data)
  {
    hide Low, Value, ByteBits, Stored, Run, Block, OwnCodes;
    var header := StoredHeader(last, |data|);
    var s := header + data + more;
    var b := ByteBits(s);
    var rest := s[1..];
    NextByte(s, 0);
    assert s[0..] == s;
    TypeBits(last);
    assert b == Low(s[0], 8) + ByteBits(rest);
    assert b[0] == last && b[1..3] == Low(s[0], 8)[1..3];
    RunStep(b, out);
    assert |b[3..]| % 8 == 5;
    assert b[3..][5..] == b[8..] == ByteBits(rest);
    StoredInBytes(b[3..], rest, out);
    HeaderWord(last, |data|);
    assert rest[0] == header[1] && rest[1] == header[2];
    assert Word(rest) == |data|;
    assert rest == header[1..] + (data + more);
    assert rest[4..] == data + more;
    assert rest[4..4 + |data|] == rest[4..][..|data|] == data;
    assert rest[4 + |data|..] == rest[4..][|data|..] == more;
  }

  lemma {:induction false} HeaderWord(last: bool, n: nat)
    requires n <= MAX_STORED
    ensures var h := StoredHeader(last, n); h[1] as int + 256 * h[2] as int == n
  {
  }

  /** The first three bits of a stored block's header byte. */
  lemma {:induction false} TypeBits(last: bool)
    ensures var b := Low(if last then 1 else 0, 8); b[0] == last && Value(b[1..3]) == 0
  {
    var v := if last then 1 else 0;
    var b := Low(v, 8);
    assert b == [v % 2 == 1] + Low(0, 7) && Low(0, 7) == [false] + Low(0, 6) && Low(0, 6) == [false] + Low(0, 5);
    assert b[1..3] == [false, false];
    assert Value([false, false]) == 2 * Value([false, false][1..]) && [false, false][1..] == [false];
    assert Value([false]) == 2 * Value([false][1..]) && [false][1..] == [];
  }

  lemma {:induction false} StoredInflates(input: seq<Byte>, more: seq<Byte>, out: seq<Byte>)
    ensures Run(ByteBits(StoredBytes(input) + more), out) == Whole(out + input)
    decreases |input|
  {
    hide ByteBits, Run, StoredHeader;
    if |input| <= MAX_STORED {
      StoredRuns(true, input, more, out);
    } else {
      var data, rest := input[..MAX_STORED], input[MAX_STORED..];
      StoredRuns(false, data, StoredBytes(rest) + more, out);
      StoredInflates(rest, more, out + data);
      assert StoredBytes(input) + more == StoredHeader(false, MAX_STORED) + data + (StoredBytes(rest) + more);
      assert (out + data) + rest == out + input;
    }
  }

  /** raw_stored. */
  method RawStored(input: seq<Byte>) returns (out: seq<Byte>)
    ensures out == StoredBytes(input)
  {
    hide StoredHeader, StoredBytes;
    out := [];
    var done := 0;
    assert input[0..] == input && [] + StoredBytes(input) == StoredBytes(input);
    while |input| - done > MAX_STORED
      invariant 0 <= done <= |input| && out + StoredBytes(input[done..]) == StoredBytes(input)
      decreases |input| - done
    {
      StoredStep(input, done, out);
      out := out + StoredHeader(false, MAX_STORED) + input[done..done + MAX_STORED];
      done := done + MAX_STORED;
    }
    StoredStep(input, done, out);
    out := out + StoredHeader(true, |input| - done) + input[done..];
  }

  /** One block more behind `out`. */
  lemma {:induction false} StoredStep(input: seq<Byte>, done: nat, out: seq<Byte>)
    requires done <= |input|
    ensures |input| - done <= MAX_STORED ==>
      out + StoredBytes(input[done..]) == out + StoredHeader(true, |input| - done) + input[done..]
    ensures |input| - done > MAX_STORED ==>
      out + StoredBytes(input[done..])
      == (out + StoredHeader(false, MAX_STORED) + input[done..done + MAX_STORED])
         + StoredBytes(input[done + MAX_STORED..])
  {
    hide StoredHeader;
    if |input| - done > MAX_STORED {
      assert input[done..][..MAX_STORED] == input[done..done + MAX_STORED];
      assert input[done..][MAX_STORED..] == input[done + MAX_STORED..];
    }
  }

  // ----- the round trip -----

  /** What raw_deflate may write for an input: one fixed-code block or stored blocks. */
  ghost predicate Encodes(out: seq<Byte>, input: seq<Byte>) {
    out == StoredBytes(input) || exists ts, k: nat :: IsFixed(out, input, ts, k)
  }

  /** Inflating any of it gives the input back, whatever bytes follow. */
  lemma {:induction false} InflateInverts(out: seq<Byte>, input: seq<Byte>, more: seq<Byte>)
    requires Encodes(out, input)
    ensures InflateBytes(out + more) == Whole(input) && out != []
  {
    hide IsFixed, StoredBytes, Run, ByteBits;
    if out == StoredBytes(input) {
      StoredInflates(input, more, []);
      assert [] + input == input;
      StoredNotEmpty(input);
    } else {
      var ts, k: nat :| IsFixed(out, input, ts, k);
      FixedInflates(out, input, ts, k, more);
      FixedNotEmpty(out, input, ts, k);
    }
  }

  lemma {:induction false} StoredNotEmpty(input: seq<Byte>)
    ensures StoredBytes(input) != []
  {
  }

  lemma {:induction false} FixedNotEmpty(out: seq<Byte>, input: seq<Byte>, ts: seq<Token>, k: nat)
    requires IsFixed(out, input, ts, k)
    ensures out != []
  {
    hide Low, BlockBits, SymbolBits, Covers;
    assert |ByteBits(out)| >= 3;
  }

  /** raw_deflate: stored blocks when they are smaller. */
  method RawDeflate(input: seq<Byte>) returns (out: seq<Byte>)
    ensures Encodes(out, input)
    ensures InflateBytes(out) == Whole(input)
  {
    hide IsFixed, StoredBytes, Run;
    ghost var ts, k;
    out, ts, k := Compress(input);
    if input != [] && |out| >= |input| + |input| / 1000 + 5 {
      var stored := RawStored(input);
      if |stored| < |out| {
        out := stored;
      }
    }
    InflateInverts(out, input, []);
    assert out + [] == out;
  }
}
