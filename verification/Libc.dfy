/**
 The part of the system's C library that the tools depend on: two classes of characters, and
 `strtoull` in base ten.  It does not saturate: every digit is accumulated modulo 2^64.
 */
module Libc {

  const TWO64: nat := 0x1_0000_0000_0000_0000

  predicate IsDigit(c: char) {
    '0' <= c <= '9'
  }

  predicate IsSpace(c: char) {
    c == ' ' || c == '\t' || c == '\n' || c == '\r' || c == 11 as char || c == 12 as char
  }

  function DigitValue(c: char): nat
    requires IsDigit(c)
  {
    c as int - '0' as int
  }

  /** How many leading characters are digits. */
  function DigitRun(s: string): (n: nat)
    ensures n <= |s|
    ensures s != [] && IsDigit(s[0]) ==> n > 0
  {
    if s == [] || !IsDigit(s[0]) then 0 else 1 + DigitRun(s[1..])
  }

  predicate AllDigits(s: string) {
    forall i :: 0 <= i < |s| ==> IsDigit(s[i])
  }

  /** The number written by digits. */
  function Number(s: string): nat
    requires AllDigits(s)
  {
    if s == [] then 0 else 10 * Number(s[..|s| - 1]) + DigitValue(s[|s| - 1])
  }

  /** A number written in base ten. */
  function Decimal(n: nat): (r: string)
    ensures AllDigits(r)
  {
    var last := ["0123456789"[n % 10]];
    if n < 10 then last else Decimal(n / 10) + last
  }

  /** Digits are read as they are written. */
  lemma {:induction false} NumberOfDecimal(n: nat)
    ensures Number(Decimal(n)) == n
    decreases n
  {
    hide IsDigit, DigitValue;
    var r := Decimal(n);
    LastDigit(n % 10);
    if n >= 10 {
      NumberOfDecimal(n / 10);
      assert r[..|r| - 1] == Decimal(n / 10);
    } else {
      assert r[..|r| - 1] == [];
    }
  }

  lemma {:induction false} LastDigit(d: nat)
    requires d < 10
    ensures IsDigit("0123456789"[d]) && DigitValue("0123456789"[d]) == d
  {
  }

  /** The run is the longest prefix of digits. */
  lemma {:induction false} RunIsLongest(s: string)
    ensures AllDigits(s[..DigitRun(s)])
    ensures DigitRun(s) < |s| ==> !IsDigit(s[DigitRun(s)])
    decreases |s|
  {
    if s != [] && IsDigit(s[0]) {
      RunIsLongest(s[1..]);
      assert s[..DigitRun(s)] == [s[0]] + s[1..][..DigitRun(s[1..])];
    }
  }

  lemma {:induction false} RunUnique(s: string, n: nat)
    requires n <= |s| && AllDigits(s[..n]) && (n < |s| ==> !IsDigit(s[n]))
    ensures DigitRun(s) == n
    decreases |s|
  {
    if n > 0 {
      assert s[..n][0] == s[0];
      assert s[1..][..n - 1] == s[..n][1..];
      RunUnique(s[1..], n - 1);
    }
  }

  /** Accumulate the digits from `start` on in 64-bit arithmetic. */
  method ReadDigits(s: string, start: nat) returns (v: nat, p: nat)
    requires start <= |s|
    ensures p == start + DigitRun(s[start..]) <= |s|
    ensures AllDigits(s[start..p]) && v == Number(s[start..p]) % TWO64
  {
    hide DigitRun;
    v, p := 0, start;
    while p < |s| && IsDigit(s[p])
      invariant start <= p <= |s| && AllDigits(s[start..p])
      invariant v == Number(s[start..p]) % TWO64
    {
      NumberNext(s, start, p);
      v := (v * 10 + DigitValue(s[p])) % TWO64;
      p := p + 1;
    }
    assert s[start..][..p - start] == s[start..p];
    RunUnique(s[start..], p - start);
  }

  lemma {:induction false} NumberNext(s: string, start: nat, p: nat)
    requires start <= p < |s| && AllDigits(s[start..p]) && IsDigit(s[p])
    ensures AllDigits(s[start..p + 1])
    ensures (Number(s[start..p]) % TWO64 * 10 + DigitValue(s[p])) % TWO64 == Number(s[start..p + 1]) % TWO64
  {
    var t := s[start..p + 1];
    assert t[..|t| - 1] == s[start..p];
    WrapStep(Number(s[start..p]), DigitValue(s[p]));
  }

  /** Wrapping at every digit gives the number modulo 2^64. */
  lemma {:induction false} WrapStep(n: nat, d: nat)
    ensures (n % TWO64 * 10 + d) % TWO64 == (10 * n + d) % TWO64
  {
    var q := n / TWO64;
    assert 10 * n + d == (n % TWO64 * 10 + d) + TWO64 * (10 * q);
    ModPlusMultiple(n % TWO64 * 10 + d, 10 * q);
  }

  lemma {:induction false} ModPlusMultiple(x: nat, k: nat)
    ensures (x + TWO64 * k) % TWO64 == x % TWO64
    decreases k
  {
    if k > 0 {
      ModPlusMultiple(x, k - 1);
      assert x + TWO64 * k == (x + TWO64 * (k - 1)) + TWO64;
    }
  }
}
