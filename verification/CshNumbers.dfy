/** What the texts of integer expressions mean, written out: literals as sums over their digits, and
    every operator by its own characters. */
module CshNumbers {

  import opened Wrappers
  import opened CshEval
  import opened CshExpr

  // ----- literals -----

  function Power(base: int, n: nat): int {
    if n == 0 then 1 else base * Power(base, n - 1)
  }

  /** Every digit counts its worth times ten, or sixteen, to the power of its place. */
  function PlaceSum(hex: bool, digits: Chars): int {
    if digits == [] then 0
    else Worth(digits[0]) * Power(if hex then 16 else 10, |digits| - 1) + PlaceSum(hex, digits[1..])
  }

  lemma {:induction false} TimesPower(d: int, base: int, n: nat)
    ensures d * Power(base, n + 1) == base * (d * Power(base, n))
  {
    var p := Power(base, n);
    assert d * (base * p) == base * (d * p);
  }

  /** One more digit behind the others. */
  lemma {:induction false} PlaceSumLast(hex: bool, digits: Chars, c: char)
    ensures PlaceSum(hex, digits + [c]) == (if hex then 16 else 10) * PlaceSum(hex, digits) + Worth(c)
    decreases |digits|
  {
    hide Worth, Power;
    var base := if hex then 16 else 10;
    if digits == [] {
      assert ([] + [c])[1..] == [];
      assert Power(base, 0) == 1 by {
        PowerNone(base);
      }
    } else {
      assert (digits + [c])[1..] == digits[1..] + [c];
      PlaceSumLast(hex, digits[1..], c);
      TimesPower(Worth(digits[0]), base, |digits| - 1);
    }
  }

  lemma {:induction false} PowerNone(base: int)
    ensures Power(base, 0) == 1
  {
  }

  /** With exact addition and multiplication a literal is the sum of its places. */
  lemma {:induction false} LiteralIsSum(ar: Arith, hex: bool, digits: Chars)
    requires forall a, b :: ar.op(Add, a, b) == a + b
    requires forall a, b :: ar.op(Mul, a, b) == a * b
    ensures Value(ar, Number(hex, digits)) == PlaceSum(hex, digits)
    decreases |digits|
  {
    hide Worth, PlaceSum;
    if digits == [] {
      SumOfNothing(hex);
    } else {
      var n := |digits| - 1;
      LiteralIsSum(ar, hex, digits[..n]);
      PlaceSumLast(hex, digits[..n], digits[n]);
      assert digits[..n] + [digits[n]] == digits;
    }
  }

  lemma {:induction false} SumOfNothing(hex: bool)
    ensures PlaceSum(hex, []) == 0
  {
  }

  const WORD: int := 0x1_0000_0000_0000_0000

  /** Both operations are right modulo 2^64. */
  ghost predicate Wraps(ar: Arith) {
    && (forall a, b :: ar.op(Add, a, b) % WORD == (a + b) % WORD)
    && (forall a, b :: ar.op(Mul, a, b) % WORD == (a * b) % WORD)
  }

  lemma {:induction false} SameRest(x: int, y: int, k: int)
    requires x == y + k * WORD
    ensures x % WORD == y % WORD
  {
  }

  lemma {:induction false} RestOf(x: int) returns (k: int)
    ensures x == x % WORD + k * WORD
  {
    k := x / WORD;
  }

  lemma {:induction false} NextDigitWraps(ar: Arith, v: int, sum: int, base: int, d: int)
    requires Wraps(ar) && v % WORD == sum % WORD && (base == 10 || base == 16)
    ensures ar.op(Add, ar.op(Mul, v, base), d) % WORD == (base * sum + d) % WORD
  {
    var m := ar.op(Mul, v, base);
    var i := RestOf(v);
    var j := RestOf(sum);
    assert m % WORD == (v * base) % WORD;
    var k := RestOf(m);
    var l := RestOf(v * base);
    if base == 10 {
      SameRest(m + d, 10 * sum + d, k - l + 10 * (i - j));
    } else {
      SameRest(m + d, 16 * sum + d, k - l + 16 * (i - j));
    }
  }

  /** On a machine word a literal is the sum of its places modulo 2^64. */
  lemma {:induction false} LiteralWraps(ar: Arith, hex: bool, digits: Chars)
    requires Wraps(ar)
    ensures Value(ar, Number(hex, digits)) % WORD == PlaceSum(hex, digits) % WORD
    decreases |digits|
  {
    hide Worth, PlaceSum, Wraps;
    if digits == [] {
      SumOfNothing(hex);
    } else {
      var n := |digits| - 1;
      LiteralWraps(ar, hex, digits[..n]);
      var v := Value(ar, Number(hex, digits[..n]));
      NextDigitWraps(ar, v, PlaceSum(hex, digits[..n]), if hex then 16 else 10, Worth(digits[n]));
      PlaceSumLast(hex, digits[..n], digits[n]);
      assert digits[..n] + [digits[n]] == digits;
    }
  }

  /** The prefix may be written with a capital. */
  lemma {:induction false} CapitalPrefix(ar: Arith, s: Chars)
    ensures Eval(ar, 0, "0X" + s) == Eval(ar, 0, "0x" + s)
  {
    hide Digits, Eval;
    var t, u := "0X" + s, "0x" + s;
    assert t[0] == '0' && t[1] == 'X' && t[2..] == s && u[0] == '0' && u[1] == 'x' && u[2..] == s;
    SkipNothing(t);
    SkipNothing(u);
    PrimaryUnfolds(ar, t);
    PrimaryUnfolds(ar, u);
  }

  // ----- operators -----

  /** An operand on which no operator can fasten: a literal, a parenthesis or a prefixed one. */
  ghost predicate Operand(d: Doc) {
    Grammatical(d) && LevelOf(d) == 0
  }

  lemma {:induction false} TwoOperands(ar: Arith, x: Doc, op: BinOp, y: Doc)
    requires Operand(x) && Operand(y)
    ensures Eval(ar, 6, Render(x) + OpText(op) + Render(y))
      == (Apply(ar, op, Value(ar, Tree(x)), Value(ar, Tree(y))), [])
  {
    hide Eval, Apply, OpText, LevelOfOp;
    var d := Infix(x, [], op, y);
    assert Grammatical(d) by {
      LevelsAreSome(op);
    }
    EvaluatesText(ar, d);
    RenderTwo(x, op, y);
  }

  lemma {:induction false} LevelsAreSome(op: BinOp)
    ensures LevelOfOp(op) > 0
  {
  }

  /** Which characters stand for which operation; a division by zero is zero. */
  lemma {:induction false} OperatorsMean(ar: Arith, x: Doc, y: Doc)
    requires Operand(x) && Operand(y)
    ensures var a, b := Value(ar, Tree(x)), Value(ar, Tree(y));
      && Eval(ar, 6, Render(x) + "*" + Render(y)) == (ar.op(Mul, a, b), [])
      && Eval(ar, 6, Render(x) + "/" + Render(y)) == (if b == 0 then 0 else ar.op(Div, a, b), [])
      && Eval(ar, 6, Render(x) + "%" + Render(y)) == (if b == 0 then 0 else ar.op(Mod, a, b), [])
      && Eval(ar, 6, Render(x) + "+" + Render(y)) == (ar.op(Add, a, b), [])
      && Eval(ar, 6, Render(x) + "-" + Render(y)) == (ar.op(Sub, a, b), [])
      && Eval(ar, 6, Render(x) + "<<" + Render(y)) == (ar.op(Shl, a, b), [])
      && Eval(ar, 6, Render(x) + ">>" + Render(y)) == (ar.op(Shr, a, b), [])
      && Eval(ar, 6, Render(x) + "&" + Render(y)) == (ar.op(And, a, b), [])
      && Eval(ar, 6, Render(x) + "^" + Render(y)) == (ar.op(Xor, a, b), [])
      && Eval(ar, 6, Render(x) + "|" + Render(y)) == (ar.op(Or, a, b), [])
  {
    hide Eval, Render, Operand, Value, Tree;
    TwoOperands(ar, x, Mul, y);
    TwoOperands(ar, x, Div, y);
    TwoOperands(ar, x, Mod, y);
    TwoOperands(ar, x, Add, y);
    TwoOperands(ar, x, Sub, y);
    TwoOperands(ar, x, Shl, y);
    TwoOperands(ar, x, Shr, y);
    TwoOperands(ar, x, And, y);
    TwoOperands(ar, x, Xor, y);
    TwoOperands(ar, x, Or, y);
  }

  lemma {:induction false} OnePrefix(ar: Arith, op: UnOp, x: Doc)
    requires Operand(x)
    ensures Eval(ar, 6, [UnText(op)] + Render(x)) == (ApplyUnary(ar, op, Value(ar, Tree(x))), [])
  {
    hide Eval, ApplyUnary, UnText;
    var d := Prefix([], op, x);
    EvaluatesText(ar, d);
    assert Render(d) == [UnText(op)] + Render(x);
  }

  lemma {:induction false} PrefixesMean(ar: Arith, x: Doc)
    requires Operand(x)
    ensures var a := Value(ar, Tree(x));
      && Eval(ar, 6, "-" + Render(x)) == (ar.minus(a), [])
      && Eval(ar, 6, "+" + Render(x)) == (a, [])
      && Eval(ar, 6, "~" + Render(x)) == (ar.invert(a), [])
      && Eval(ar, 6, "!" + Render(x)) == (if a == 0 then 1 else 0, [])
  {
    hide Eval, Render, Operand, Value, Tree;
    OnePrefix(ar, Minus, x);
    OnePrefix(ar, Plus, x);
    OnePrefix(ar, Invert, x);
    OnePrefix(ar, Not, x);
  }

  /** The operators from the tightest to the loosest. */
  const TIGHTEST_FIRST: seq<set<BinOp>> := [{Mul, Div, Mod}, {Add, Sub}, {Shl, Shr}, {And}, {Xor}, {Or}]

  lemma {:induction false} LevelIsPlace(op: BinOp, k: nat)
    requires k < 6 && op in TIGHTEST_FIRST[k]
    ensures LevelOfOp(op) == k + 1
  {
  }

  /** Of two operators the tighter one is applied first, and of two equally tight ones the left one. */
  lemma {:induction false} TighterFirst(ar: Arith, x: Doc, o: BinOp, j: nat, y: Doc, p: BinOp, k: nat, z: Doc)
    requires Operand(x) && Operand(y) && Operand(z)
    requires j < 6 && o in TIGHTEST_FIRST[j] && k < 6 && p in TIGHTEST_FIRST[k]
    ensures var a, b, c := Value(ar, Tree(x)), Value(ar, Tree(y)), Value(ar, Tree(z));
      Eval(ar, 6, Render(x) + OpText(o) + Render(y) + OpText(p) + Render(z)).0 ==
        if k < j then Apply(ar, o, a, Apply(ar, p, b, c)) else Apply(ar, p, Apply(ar, o, a, b), c)
  {
    hide Eval, Apply, OpText, LevelOfOp, Render, Grammatical, TIGHTEST_FIRST;
    LevelIsPlace(o, j);
    LevelIsPlace(p, k);
    ThreeGrammatical(x, o, y, p, z);
    RenderThree(x, o, y, p, z);
    if k < j {
      EvaluatesText(ar, Infix(x, [], o, Infix(y, [], p, z)));
    } else {
      EvaluatesText(ar, Infix(Infix(x, [], o, y), [], p, z));
    }
  }

  lemma {:induction false} ThreeGrammatical(x: Doc, o: BinOp, y: Doc, p: BinOp, z: Doc)
    requires Operand(x) && Operand(y) && Operand(z)
    ensures LevelOfOp(p) < LevelOfOp(o) ==> Grammatical(Infix(x, [], o, Infix(y, [], p, z)))
    ensures LevelOfOp(p) >= LevelOfOp(o) ==> Grammatical(Infix(Infix(x, [], o, y), [], p, z))
  {
    hide LevelOfOp;
    LevelsAreSome(o);
    LevelsAreSome(p);
  }

  lemma {:induction false} RenderThree(x: Doc, o: BinOp, y: Doc, p: BinOp, z: Doc)
    ensures var s := Render(x) + OpText(o) + Render(y) + OpText(p) + Render(z);
      && Render(Infix(x, [], o, Infix(y, [], p, z))) == s
      && Render(Infix(Infix(x, [], o, y), [], p, z)) == s
  {
    hide OpText, Render;
    RenderTwo(y, p, z);
    RenderTwo(x, o, y);
    RenderTwo(x, o, Infix(y, [], p, z));
    RenderTwo(Infix(x, [], o, y), p, z);
  }

  lemma {:induction false} RenderTwo(x: Doc, op: BinOp, y: Doc)
    ensures Render(Infix(x, [], op, y)) == Render(x) + OpText(op) + Render(y)
  {
    hide OpText;
  }
}
