/**
 brew's version order.  `vercmp` walks two version strings at once, comparing runs of
 digits as numbers and everything else byte by byte; it is handed to qsort, which needs
 a total preorder.  It is proved to be the lexicographic order of the strings' tokens.

 Digit runs are read by a `strtoull` that wraps around, so their value is the number
 modulo 2^64.
 */
module Brew {

  import opened Libc

  datatype Token = Num(value: nat) | Byte(c: char)

  /** The tokens of a version: whole digit runs, and single other characters. */
  function Tokens(s: string): seq<Token>
    decreases |s|
  {
    if s == [] then []
    else if IsDigit(s[0]) then
      RunIsLongest(s);
      [Num(Number(s[..DigitRun(s)]) % TWO64)] + Tokens(s[DigitRun(s)..])
    else [Byte(s[0])] + Tokens(s[1..])
  }

  /** The order of tokens: numbers by value, bytes by code, and a number stands where the
      digits stand among the bytes. */
  function TokenCompare(t: Token, u: Token): int {
    match (t, u)
    case (Num(x), Num(y)) => if x < y then -1 else if x > y then 1 else 0
    case (Num(x), Byte(c)) => if '0' < c then -1 else 1
    case (Byte(c), Num(y)) => if c < '0' then -1 else 1
    case (Byte(c), Byte(d)) => if c < d then -1 else if c > d then 1 else 0
  }

  /** Lexicographic order of token lists, a proper prefix first. */
  function Lex(ts: seq<Token>, us: seq<Token>): int {
    if ts == [] || us == [] then if ts != [] then 1 else if us != [] then -1 else 0
    else
      var c := TokenCompare(ts[0], us[0]);
      if c != 0 then c else Lex(ts[1..], us[1..])
  }

  /** Tokens that come from a string: its single characters are not digits. */
  ghost predicate Proper(ts: seq<Token>) {
    forall i :: 0 <= i < |ts| && ts[i].Byte? ==> !IsDigit(ts[i].c)
  }

  lemma {:induction false} TokensProper(s: string)
    ensures Proper(Tokens(s))
    decreases |s|
  {
    if s != [] {
      var rest := if IsDigit(s[0]) then s[DigitRun(s)..] else s[1..];
      TokensProper(rest);
    }
  }

  // ----- the order -----

  lemma {:induction false} LexAntisymmetric(ts: seq<Token>, us: seq<Token>)
    requires Proper(ts) && Proper(us)
    ensures Lex(us, ts) == -Lex(ts, us)
    ensures -1 <= Lex(ts, us) <= 1
    ensures Lex(ts, us) == 0 <==> ts == us
    decreases |ts|
  {
    if ts != [] && us != [] {
      assert !(ts[0].Byte? && IsDigit(ts[0].c)) && !(us[0].Byte? && IsDigit(us[0].c));
      if TokenCompare(ts[0], us[0]) == 0 {
        LexAntisymmetric(ts[1..], us[1..]);
        assert ts == [ts[0]] + ts[1..] && us == [us[0]] + us[1..];
      }
    }
  }

  lemma {:induction false} LexTransitive(ts: seq<Token>, us: seq<Token>, vs: seq<Token>)
    requires Proper(ts) && Proper(us) && Proper(vs)
    requires Lex(ts, us) <= 0 && Lex(us, vs) <= 0
    ensures Lex(ts, vs) <= 0
    decreases |ts|
  {
    if ts != [] && us != [] && vs != [] {
      var t, u, v := ts[0], us[0], vs[0];
      assert !(t.Byte? && IsDigit(t.c)) && !(u.Byte? && IsDigit(u.c)) && !(v.Byte? && IsDigit(v.c));
      if TokenCompare(t, u) == 0 && TokenCompare(u, v) == 0 {
        LexTransitive(ts[1..], us[1..], vs[1..]);
      }
    }
  }

  /** The order of versions. */
  function Order(a: string, b: string): int {
    Lex(Tokens(a), Tokens(b))
  }

  /** What qsort needs of its comparator: it is total, antisymmetric in sign and transitive;
      and versions compare equal exactly when their tokens are the same. */
  lemma {:induction false} OrderIsTotalPreorder(a: string, b: string, c: string)
    ensures Order(b, a) == -Order(a, b)
    ensures Order(a, a) == 0
    ensures Order(a, b) <= 0 && Order(b, c) <= 0 ==> Order(a, c) <= 0
    ensures Order(a, b) < 0 && Order(b, c) <= 0 ==> Order(a, c) < 0
    ensures Order(a, b) == 0 <==> Tokens(a) == Tokens(b)
  {
    TokensProper(a);
    TokensProper(b);
    TokensProper(c);
    LexAntisymmetric(Tokens(a), Tokens(b));
    LexAntisymmetric(Tokens(b), Tokens(c));
    LexAntisymmetric(Tokens(a), Tokens(c));
    LexAntisymmetric(Tokens(a), Tokens(a));
    if Order(a, b) <= 0 && Order(b, c) <= 0 {
      LexTransitive(Tokens(a), Tokens(b), Tokens(c));
      if Order(a, c) == 0 {
        LexAntisymmetric(Tokens(b), Tokens(a));
      }
    }
  }

  // ----- the comparison -----

  /** The comparison of the order, with two moving pointers. */
  method Vercmp(a: string, b: string) returns (r: int)
    ensures r == Order(a, b)
  {
    var i, j := 0, 0;
    assert a[0..] == a && b[0..] == b;
    while i < |a| && j < |b|
      invariant 0 <= i <= |a| && 0 <= j <= |b|
      invariant Order(a[i..], b[j..]) == Order(a, b)
      decreases |a| - i
    {
      if IsDigit(a[i]) && IsDigit(b[j]) {
        var x, i' := ReadDigits(a, i);
        var y, j' := ReadDigits(b, j);
        TokensNumber(a, i, i');
        TokensNumber(b, j, j');
        if x != y {
          return if x < y then -1 else 1;
        }
        i, j := i', j';
        continue;
      }
      TokensStart(a, i);
      TokensStart(b, j);
      if a[i] != b[j] {
        return if a[i] < b[j] then -1 else 1;
      }
      i, j := i + 1, j + 1;
    }
    TokensEmpty(a[i..]);
    TokensEmpty(b[j..]);
    r := if i < |a| then 1 else if j < |b| then -1 else 0;
  }

  lemma {:induction false} TokensEmpty(s: string)
    ensures Tokens(s) == [] <==> s == []
  {
  }

  lemma {:induction false} TokensNumber(s: string, i: nat, i': nat)
    requires i < |s| && IsDigit(s[i]) && i' == i + DigitRun(s[i..]) <= |s|
    requires AllDigits(s[i..i'])
    ensures Tokens(s[i..]) == [Num(Number(s[i..i']) % TWO64)] + Tokens(s[i'..])
  {
    assert s[i..][..i' - i] == s[i..i'];
    assert s[i..][i' - i..] == s[i'..];
  }

  /** What stands at the front of the tokens: a number if a digit does, else that character. */
  lemma {:induction false} TokensStart(s: string, i: nat)
    requires i < |s|
    ensures Tokens(s[i..]) != []
    ensures IsDigit(s[i]) ==> Tokens(s[i..])[0].Num?
    ensures !IsDigit(s[i]) ==> Tokens(s[i..]) == [Byte(s[i])] + Tokens(s[i + 1..])
  {
    assert s[i..][1..] == s[i + 1..];
  }

  /** The order, character by character: nothing comes before something; where two digits meet their
      whole runs are compared as numbers modulo 2^64; else the smaller character comes first, and
      what is equal is passed over. */
  lemma {:induction false} OrderByCharacters(a: string, b: string)
    ensures a == "" || b == "" ==> Order(a, b) == (if a != "" then 1 else if b != "" then -1 else 0)
    ensures a != "" && b != "" && !(a[0] in "0123456789" && b[0] in "0123456789") ==>
      Order(a, b) == if a[0] < b[0] then -1 else if a[0] > b[0] then 1 else Order(a[1..], b[1..])
  {
    hide Lex, IsDigit;
    TokensEmpty(a);
    TokensEmpty(b);
    if a == "" || b == "" {
      LexEnds(Tokens(a), Tokens(b));
    } else {
      assert a[0..] == a && b[0..] == b;
      TokensStart(a, 0);
      TokensStart(b, 0);
      DigitsAre(a[0]);
      DigitsAre(b[0]);
      LexStep(Tokens(a), Tokens(b));
    }
  }

  lemma {:induction false} OrderByNumbers(a: string, b: string, m: nat, n: nat)
    requires 0 < m <= |a| && 0 < n <= |b| && AllDigits(a[..m]) && AllDigits(b[..n])
    requires (m < |a| ==> !IsDigit(a[m])) && (n < |b| ==> !IsDigit(b[n]))
    ensures var x, y := Number(a[..m]) % 0x1_0000_0000_0000_0000, Number(b[..n]) % 0x1_0000_0000_0000_0000;
      Order(a, b) == if x < y then -1 else if x > y then 1 else Order(a[m..], b[n..])
  {
    hide Lex, Number, DigitRun;
    assert a[0..] == a && b[0..] == b && a[0..m] == a[..m] && b[0..n] == b[..n];
    assert a[..m][0] == a[0] && b[..n][0] == b[0];
    RunUnique(a, m);
    RunUnique(b, n);
    TokensNumber(a, 0, m);
    TokensNumber(b, 0, n);
    LexStep(Tokens(a), Tokens(b));
  }

  lemma {:induction false} DigitsAre(c: char)
    ensures IsDigit(c) <==> c in "0123456789"
  {
  }

  lemma {:induction false} LexEnds(ts: seq<Token>, us: seq<Token>)
    requires ts == [] || us == []
    ensures Lex(ts, us) == if ts != [] then 1 else if us != [] then -1 else 0
  {
  }

  lemma {:induction false} LexStep(ts: seq<Token>, us: seq<Token>)
    requires ts != [] && us != []
    ensures var c := TokenCompare(ts[0], us[0]); Lex(ts, us) == if c != 0 then c else Lex(ts[1..], us[1..])
  {
  }

  /** The comparator given to qsort: newest first. */
  method VercmpDesc(x: string, y: string) returns (r: int)
    ensures r == Order(y, x) == -Order(x, y)
  {
    OrderIsTotalPreorder(x, y, x);
    r := Vercmp(y, x);
  }

  // ----- numbers by value -----

  /** The tokens with every number as it is written. */
  function ExactTokens(s: string): seq<Token>
    decreases |s|
  {
    if s == [] then []
    else if IsDigit(s[0]) then
      RunIsLongest(s);
      [Num(Number(s[..DigitRun(s)]))] + ExactTokens(s[DigitRun(s)..])
    else [Byte(s[0])] + ExactTokens(s[1..])
  }

  function Wrapped(t: Token): Token {
    match t
    case Num(v) => Num(v % TWO64)
    case Byte(_) => t
  }

  function AllWrapped(ts: seq<Token>): seq<Token> {
    seq(|ts|, i requires 0 <= i < |ts| => Wrapped(ts[i]))
  }

  /** The comparison sees every number modulo 2^64. */
  lemma {:induction false} TokensAreWrapped(s: string)
    ensures Tokens(s) == AllWrapped(ExactTokens(s))
    decreases |s|
  {
    hide Tokens, ExactTokens, Wrapped, AllWrapped;
    if s == [] {
      NoTokens();
    } else {
      var t, rest := FirstToken(s);
      TokensAreWrapped(rest);
      WrapNext(t, ExactTokens(rest));
    }
  }

  lemma {:induction false} NoTokens()
    ensures Tokens([]) == AllWrapped(ExactTokens([]))
  {
  }

  lemma {:induction false} FirstToken(s: string) returns (t: Token, rest: string)
    requires s != []
    ensures |rest| < |s|
    ensures Tokens(s) == [Wrapped(t)] + Tokens(rest) && ExactTokens(s) == [t] + ExactTokens(rest)
  {
    if IsDigit(s[0]) {
      RunIsLongest(s);
      t, rest := Num(Number(s[..DigitRun(s)])), s[DigitRun(s)..];
    } else {
      t, rest := Byte(s[0]), s[1..];
    }
  }

  lemma {:induction false} WrapNext(t: Token, ts: seq<Token>)
    ensures AllWrapped([t] + ts) == [Wrapped(t)] + AllWrapped(ts)
  {
    hide Wrapped;
  }

  /** Every number in it is below 2^64. */
  predicate Small(ts: seq<Token>) {
    forall i :: 0 <= i < |ts| && ts[i].Num? ==> ts[i].value < TWO64
  }

  /** Versions whose numbers are all below 2^64 are ordered by the values of the numbers. */
  lemma {:induction false} OrderByValue(a: string, b: string)
    requires Small(ExactTokens(a)) && Small(ExactTokens(b))
    ensures Order(a, b) == Lex(ExactTokens(a), ExactTokens(b))
  {
    TokensAreWrapped(a);
    TokensAreWrapped(b);
    SmallUnchanged(ExactTokens(a));
    SmallUnchanged(ExactTokens(b));
  }

  lemma {:induction false} SmallUnchanged(ts: seq<Token>)
    requires Small(ts)
    ensures AllWrapped(ts) == ts
  {
    forall i | 0 <= i < |ts|
      ensures Wrapped(ts[i]) == ts[i]
    {
    }
  }

  /** In general two versions are ordered by value exactly when, at the first place where they
      differ, the remainders modulo 2^64 are in the same order as the tokens, or are equal and the
      remainders behind them are in that order. */
  lemma {:induction false} OrderedByValueWhen(a: string, b: string, k: nat)
    requires var ts, us := ExactTokens(a), ExactTokens(b);
      k < |ts| && k < |us| && ts[..k] == us[..k] && ts[k] != us[k]
    ensures var ts, us := ExactTokens(a), ExactTokens(b);
      var c, right := TokenCompare(Wrapped(ts[k]), Wrapped(us[k])), TokenCompare(ts[k], us[k]);
      && Lex(ts, us) == right
      && (Order(a, b) == right
          <==> c == right || (c == 0 && Lex(AllWrapped(ts[k + 1..]), AllWrapped(us[k + 1..])) == right))
  {
    hide ExactTokens, Tokens, Wrapped, TokenCompare;
    var ts, us := ExactTokens(a), ExactTokens(b);
    TokensAreWrapped(a);
    TokensAreWrapped(b);
    ExactProper(a);
    ExactProper(b);
    LexFrom(ts, us, k);
    LexFrom(AllWrapped(ts), AllWrapped(us), k);
    assert AllWrapped(ts)[..k] == AllWrapped(us)[..k];
    assert AllWrapped(ts)[k + 1..] == AllWrapped(ts[k + 1..]) && AllWrapped(us)[k + 1..] == AllWrapped(us[k + 1..]);
    DifferentTokens(ts[k], us[k]);
  }

  /** Where the numbers of one version are the first numbers of the other, the order is that of the
      values: the longer one is greater. */
  lemma {:induction false} PrefixByValue(a: string, b: string)
    requires ExactTokens(a) <= ExactTokens(b) || ExactTokens(b) <= ExactTokens(a)
    ensures var ts, us := ExactTokens(a), ExactTokens(b);
      Order(a, b) == Lex(ts, us) == if |ts| < |us| then -1 else if |ts| > |us| then 1 else 0
  {
    hide ExactTokens, Tokens, Wrapped;
    var ts, us := ExactTokens(a), ExactTokens(b);
    TokensAreWrapped(a);
    TokensAreWrapped(b);
    LexPrefix(ts, us);
    LexPrefix(AllWrapped(ts), AllWrapped(us));
  }

  lemma {:induction false} LexPrefix(ts: seq<Token>, us: seq<Token>)
    requires ts <= us || us <= ts
    ensures Lex(ts, us) == if |ts| < |us| then -1 else if |ts| > |us| then 1 else 0
    decreases |ts|
  {
    if ts != [] && us != [] {
      assert ts[0] == us[0];
      LexPrefix(ts[1..], us[1..]);
    }
  }

  /** Where two lists have the same start, the rest decides. */
  lemma {:induction false} LexFrom(ts: seq<Token>, us: seq<Token>, k: nat)
    requires k < |ts| && k < |us| && ts[..k] == us[..k]
    ensures var c := TokenCompare(ts[k], us[k]);
      Lex(ts, us) == if c != 0 then c else Lex(ts[k + 1..], us[k + 1..])
    decreases k
  {
    if k > 0 {
      assert ts[0] == ts[..k][0] == us[0];
      assert ts[1..][..k - 1] == ts[..k][1..] && us[1..][..k - 1] == us[..k][1..];
      LexFrom(ts[1..], us[1..], k - 1);
      assert ts[1..][k..] == ts[k + 1..] && us[1..][k..] == us[k + 1..];
    }
  }

  lemma {:induction false} ExactProper(s: string)
    ensures Proper(ExactTokens(s))
    decreases |s|
  {
    if s != [] {
      var rest := if IsDigit(s[0]) then s[DigitRun(s)..] else s[1..];
      ExactProper(rest);
    }
  }

  lemma {:induction false} DifferentTokens(t: Token, u: Token)
    requires t != u && !(t.Byte? && IsDigit(t.c)) && !(u.Byte? && IsDigit(u.c))
    ensures TokenCompare(t, u) != 0
  {
  }

  /** Two plain numbers, the first of 2^64 or more: the larger one sorts first exactly when its
      remainder is larger too. */
  lemma {:induction false} WrappedNumberSortsLow(a: string, b: string)
    requires a != [] && b != [] && AllDigits(a) && AllDigits(b)
    requires Number(b) < TWO64 <= Number(a)
    ensures Order(a, b) == 1 <==> Number(a) % TWO64 > Number(b)
  {
    OneNumber(a);
    OneNumber(b);
    assert Tokens(a)[1..] == [] && Tokens(b)[1..] == [];
    hide Tokens, Number;
    assert Lex([], []) == 0;
    assert Number(b) % TWO64 == Number(b);
  }

  lemma {:induction false} OneNumber(a: string)
    requires a != [] && AllDigits(a)
    ensures Tokens(a) == [Num(Number(a) % TWO64)]
  {
    RunUnique(a, |a|);
    assert a[..|a|] == a && a[|a|..] == [];
    assert Tokens([]) == [];
  }
}
