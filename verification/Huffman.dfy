/**
 Canonical Huffman codes.  A table is the code length of every symbol, 0 for a symbol without
 a code; equal lengths get consecutive codes in the order of the symbols.
 */
module Huffman {

  import opened Wrappers
  import opened Bits

  const MAX_LENGTH: nat := 15

  /** How many symbols have a code of this length. */
  function Count(ls: seq<nat>, len: nat): (r: nat)
    ensures r <= |ls|
  {
    if ls == [] then 0
    else Count(ls[..|ls| - 1], len) + (if ls[|ls| - 1] == len then 1 else 0)
  }

  /** How many symbols before `sym` do. */
  function Rank(ls: seq<nat>, sym: nat, len: nat): nat
    requires sym <= |ls|
  {
    Count(ls[..sym], len)
  }

  /** The first code of a length. */
  function First(ls: seq<nat>, len: nat): nat
    requires len >= 1
  {
    if len == 1 then 0 else 2 * (First(ls, len - 1) + Count(ls, len - 1))
  }

  /** The code of a symbol. */
  function CodeOf(ls: seq<nat>, sym: nat): nat
    requires sym < |ls| && ls[sym] >= 1
  {
    First(ls, ls[sym]) + Rank(ls, sym, ls[sym])
  }

  /** No length has more codes than it has room for. */
  ghost predicate Fits(ls: seq<nat>) {
    && (forall i :: 0 <= i < |ls| ==> ls[i] <= MAX_LENGTH)
    && (forall len :: 1 <= len <= MAX_LENGTH ==> RoomAt(ls, len))
  }

  predicate RoomAt(ls: seq<nat>, len: nat)
    requires len >= 1
  {
    First(ls, len) + Count(ls, len) <= Pow2(len)
  }

  /** The bits start with the code of the symbol. */
  predicate StartsWith(ls: seq<nat>, b: Bits, sym: nat) {
    && sym < |ls| && 1 <= ls[sym] <= |b|
    && b[..ls[sym]] == Code(CodeOf(ls, sym), ls[sym])
  }

  // ----- ranks -----

  lemma {:induction false} RankStep(ls: seq<nat>, sym: nat, len: nat)
    requires sym < |ls|
    ensures Rank(ls, sym + 1, len) == Rank(ls, sym, len) + (if ls[sym] == len then 1 else 0)
  {
    assert ls[..sym + 1][..sym] == ls[..sym];
  }

  lemma {:induction false} RankGrows(ls: seq<nat>, i: nat, j: nat, len: nat)
    requires i <= j <= |ls|
    ensures Rank(ls, i, len) <= Rank(ls, j, len) <= Count(ls, len)
    decreases |ls| - i, |ls| - j
  {
    if i < j {
      RankGrows(ls, i + 1, j, len);
      RankStep(ls, i, len);
    } else if j < |ls| {
      RankGrows(ls, i + 1, j + 1, len);
      RankStep(ls, i, len);
    } else {
      assert ls[..j] == ls;
    }
  }

  /** The k-th symbol with a code of this length, looking from symbol i on. */
  function Nth(ls: seq<nat>, i: nat, len: nat, k: nat): (sym: nat)
    requires i <= |ls| && Rank(ls, i, len) <= k < Count(ls, len)
    ensures i <= sym < |ls| && ls[sym] == len && Rank(ls, sym, len) == k
    decreases |ls| - i
  {
    RankEnd(ls, len);
    assert i < |ls|;
    RankStep(ls, i, len);
    if ls[i] == len && Rank(ls, i, len) == k then i else Nth(ls, i + 1, len, k)
  }

  lemma {:induction false} RankEnd(ls: seq<nat>, len: nat)
    ensures Rank(ls, |ls|, len) == Count(ls, len) && Rank(ls, 0, len) == 0
  {
    assert ls[..|ls|] == ls;
  }

  /** A symbol is told by its length and rank. */
  lemma {:induction false} RankUnique(ls: seq<nat>, i: nat, j: nat)
    requires i < j < |ls| && ls[i] == ls[j]
    ensures Rank(ls, i, ls[i]) < Rank(ls, j, ls[i])
  {
    RankStep(ls, i, ls[i]);
    RankGrows(ls, i + 1, j, ls[i]);
  }

  /** The code of a symbol lies in the range of its length. */
  lemma {:induction false} CodeInRange(ls: seq<nat>, sym: nat)
    requires sym < |ls| && ls[sym] >= 1
    ensures First(ls, ls[sym]) <= CodeOf(ls, sym) < First(ls, ls[sym]) + Count(ls, ls[sym])
  {
    RankStep(ls, sym, ls[sym]);
    RankGrows(ls, sym + 1, |ls|, ls[sym]);
  }

  // ----- decoding -----

  /** What a decoder finds: a symbol and how many bits its code has. */
  datatype Found = Found(sym: nat, len: nat)

  /** Lengthen the prefix bit by bit until it is a code. */
  function Decode(ls: seq<nat>, b: Bits, len: nat): (r: Option<Found>)
    requires len >= 1
    ensures r.Some? ==> len <= r.value.len <= |b| && r.value.len <= MAX_LENGTH && r.value.sym < |ls|
    decreases MAX_LENGTH + 1 - len
  {
    if len > MAX_LENGTH || len > |b| then None
    else
      var c, first := CodeValue(b[..len]), First(ls, len);
      if first <= c < first + Count(ls, len) then
        RankEnd(ls, len);
        Some(Found(Nth(ls, 0, len, c - first), len))
      else Decode(ls, b, len + 1)
  }

  /** Dropping the last bit of a prefix halves its value. */
  lemma {:induction false} PrefixHalves(b: Bits, n: nat)
    requires 1 <= n <= |b|
    ensures CodeValue(b[..n]) / 2 == CodeValue(b[..n - 1])
  {
    assert b[..n][..n - 1] == b[..n - 1];
  }

  /** A prefix as large as the first code of its length has no shorter code in front. */
  lemma {:induction false} NoShorterCode(ls: seq<nat>, b: Bits, m: nat, n: nat)
    requires 1 <= m < n <= |b| && CodeValue(b[..n]) >= First(ls, n)
    ensures CodeValue(b[..m]) >= First(ls, m) + Count(ls, m)
    decreases n
  {
    PrefixHalves(b, n);
    assert CodeValue(b[..n - 1]) >= First(ls, n - 1) + Count(ls, n - 1);
    if m < n - 1 {
      NoShorterCode(ls, b, m, n - 1);
    }
  }

  /** The decoder finds a symbol exactly when the bits start with its code: no code is the start
      of another, and decoding undoes encoding. */
  lemma {:induction false} DecodeFinds(ls: seq<nat>, b: Bits, sym: nat)
    requires Fits(ls) && StartsWith(ls, b, sym)
    ensures Decode(ls, b, 1) == Some(Found(sym, ls[sym]))
  {
    hide Fits, Code, CodeValue, Pow2, First, Count;
    var n := ls[sym];
    FitsAt(ls, sym);
    CodeInRange(ls, sym);
    CodeValueOfCode(CodeOf(ls, sym), n);
    FromLength(ls, b, sym, 1);
  }

  lemma {:induction false} FitsAt(ls: seq<nat>, sym: nat)
    requires Fits(ls) && sym < |ls|
    ensures ls[sym] <= MAX_LENGTH && (ls[sym] >= 1 ==> First(ls, ls[sym]) + Count(ls, ls[sym]) <= Pow2(ls[sym]))
  {
    if ls[sym] >= 1 {
      assert RoomAt(ls, ls[sym]);
    }
  }

  lemma {:induction false} FromLength(ls: seq<nat>, b: Bits, sym: nat, len: nat)
    requires sym < |ls| && 1 <= len <= ls[sym] <= |b| && ls[sym] <= MAX_LENGTH
    requires CodeValue(b[..ls[sym]]) == CodeOf(ls, sym)
    ensures Decode(ls, b, len) == Some(Found(sym, ls[sym]))
    decreases ls[sym] - len
  {
    hide CodeValue, First, Count;
    var n := ls[sym];
    CodeInRange(ls, sym);
    if len < n {
      NoShorterCode(ls, b, len, n);
      FromLength(ls, b, sym, len + 1);
    } else {
      RankEnd(ls, n);
      var k := Rank(ls, sym, n);
      var found := Nth(ls, 0, n, k);
      if found < sym {
        RankUnique(ls, found, sym);
      } else if sym < found {
        RankUnique(ls, sym, found);
      }
    }
  }

  lemma {:induction false} DecodeMeans(ls: seq<nat>, b: Bits, len: nat)
    requires len >= 1 && Decode(ls, b, len).Some?
    ensures StartsWith(ls, b, Decode(ls, b, len).value.sym)
    ensures ls[Decode(ls, b, len).value.sym] == Decode(ls, b, len).value.len
    decreases MAX_LENGTH + 1 - len
  {
    hide CodeValue, First, Count, Code;
    var c, first := CodeValue(b[..len]), First(ls, len);
    if first <= c < first + Count(ls, len) {
      RankEnd(ls, len);
      CodeOfCodeValue(b[..len]);
    } else {
      DecodeMeans(ls, b, len + 1);
    }
  }

  // ----- short codes at one look -----

  const FAST_BITS: nat := 10

  /** Of the symbols before n, the last one whose code stands at the start of the window. */
  function LastEntered(ls: seq<nat>, n: nat, window: Bits): (r: Option<Found>)
    requires n <= |ls|
    ensures r.Some? ==>
      r.value.sym < n && r.value.len == ls[r.value.sym] && StartsWith(ls, window, r.value.sym)
    decreases n
  {
    if n == 0 then None
    else if StartsWith(ls, window, n - 1) then Some(Found(n - 1, ls[n - 1]))
    else LastEntered(ls, n - 1, window)
  }

  /** What decode finds, for any lengths: the last short code entered for the next ten bits, or,
      where there is none or fewer bits are left, a code found bit by bit. */
  function Lookup(ls: seq<nat>, b: Bits): (r: Option<Found>)
    ensures r.Some? ==> 1 <= r.value.len <= |b| && r.value.sym < |ls|
  {
    if |b| >= FAST_BITS && LastEntered(ls, |ls|, b[..FAST_BITS]).Some?
    then LastEntered(ls, |ls|, b[..FAST_BITS])
    else Decode(ls, b, 1)
  }

  /** On lengths that fit, the table only saves time. */
  lemma {:induction false} LookupIsDecode(ls: seq<nat>, b: Bits)
    requires Fits(ls)
    ensures Lookup(ls, b) == Decode(ls, b, 1)
  {
    hide Fits, Decode, CodeOf, Code;
    if |b| >= FAST_BITS && LastEntered(ls, |ls|, b[..FAST_BITS]).Some? {
      var f := LastEntered(ls, |ls|, b[..FAST_BITS]).value;
      assert b[..FAST_BITS][..f.len] == b[..f.len];
      DecodeFinds(ls, b, f.sym);
    }
  }

  /** On others it can answer differently: of three one-bit codes the table knows the last one
      entered, the bit-by-bit decoder the first. */
  lemma {:induction false} LookupCanDiffer(b: Bits)
    requires |b| >= FAST_BITS && !b[0]
    ensures var ls := [1, 1, 1];
      !Fits(ls) && Lookup(ls, b) == Some(Found(2, 1)) && Decode(ls, b, 1) == Some(Found(0, 1))
  {
    var ls := [1, 1, 1];
    var window := b[..FAST_BITS];
    assert ls[..2] == [1, 1] && [1, 1][..1] == [1] && [1][..0] == [];
    assert Count([], 1) == 0 && Count([1], 1) == 1 && Count([1, 1], 1) == 2 && Count(ls, 1) == 3;
    assert !RoomAt(ls, 1);
    assert Code(2, 1) == Code(1, 0) + [false] && Code(1, 0) == [];
    assert window[..1] == [false];
    assert StartsWith(ls, window, 2);
    assert b[..1] == [false] && [false][..0] == [];
    assert CodeValue([]) == 0 && CodeValue(b[..1]) == 0;
    RankEnd(ls, 1);
  }
}
