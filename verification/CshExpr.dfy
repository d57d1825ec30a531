/**
 Texts of integer expressions.  A `Doc` is a way to write an expression down: with any
 blanks between tokens and any redundant parentheses.  Evaluating its text gives the
 value of the tree it denotes; printing a tree with the fewest parentheses is one such text.
 */
module CshExpr {
  import opened Wrappers
  import opened CshEval

  datatype Expr =
    | Number(hex: bool, digits: Chars)
    | Unary(uop: UnOp, arg: Expr)
    | Binary(op: BinOp, left: Expr, right: Expr)

  datatype Doc =
    | Literal(ws: Chars, hex: bool, digits: Chars)
    | Parens(ws: Chars, inner: Doc, ws2: Chars)
    | Prefix(ws: Chars, uop: UnOp, arg: Doc)
    | Infix(left: Doc, ws: Chars, op: BinOp, right: Doc)

  predicate IsDigit(hex: bool, c: char) {
    c in "0123456789" || (hex && c in "abcdefABCDEF")
  }

  predicate ValidDigits(hex: bool, digits: Chars) {
    digits != [] && forall i :: 0 <= i < |digits| ==> IsDigit(hex, digits[i])
  }

  /** What a digit counts. */
  function Worth(c: char): int {
    match c
    case '0' => 0 case '1' => 1 case '2' => 2 case '3' => 3 case '4' => 4
    case '5' => 5 case '6' => 6 case '7' => 7 case '8' => 8 case '9' => 9
    case 'a' => 10 case 'b' => 11 case 'c' => 12 case 'd' => 13 case 'e' => 14 case 'f' => 15
    case 'A' => 10 case 'B' => 11 case 'C' => 12 case 'D' => 13 case 'E' => 14 case 'F' => 15
    case _ => 0
  }

  /** The number that digits write: ten, or sixteen, times what the digits before the last write,
      and the last. */
  function Written(ar: Arith, hex: bool, digits: Chars): int {
    if digits == [] then 0
    else
      var before := Written(ar, hex, digits[..|digits| - 1]);
      ar.op(Add, ar.op(Mul, before, if hex then 16 else 10), Worth(digits[|digits| - 1]))
  }

  ghost predicate ValidExpr(e: Expr) {
    match e
    case Number(hex, digits) => ValidDigits(hex, digits)
    case Unary(_, a) => ValidExpr(a)
    case Binary(_, l, r) => ValidExpr(l) && ValidExpr(r)
  }

  /** The value of an expression tree. */
  function Value(ar: Arith, e: Expr): int {
    match e
    case Number(hex, digits) => Written(ar, hex, digits)
    case Unary(op, a) => ApplyUnary(ar, op, Value(ar, a))
    case Binary(op, l, r) => Apply(ar, op, Value(ar, l), Value(ar, r))
  }

  function UnText(op: UnOp): char {
    match op
    case Minus => '-'
    case Plus => '+'
    case Invert => '~'
    case Not => '!'
  }

  function Render(d: Doc): Chars {
    match d
    case Literal(ws, hex, digits) => ws + ((if hex then "0x" else "") + digits)
    case Parens(ws, inner, ws2) => ws + (['('] + (Render(inner) + (ws2 + [')'])))
    case Prefix(ws, op, arg) => ws + ([UnText(op)] + Render(arg))
    case Infix(l, ws, op, r) => Render(l) + (ws + (OpText(op) + Render(r)))
  }

  /** The tree a text stands for. */
  function Tree(d: Doc): Expr {
    match d
    case Literal(_, hex, digits) => Number(hex, digits)
    case Parens(_, inner, _) => Tree(inner)
    case Prefix(_, op, arg) => Unary(op, Tree(arg))
    case Infix(l, _, op, r) => Binary(op, Tree(l), Tree(r))
  }

  function LevelOf(d: Doc): nat {
    if d.Infix? then LevelOfOp(d.op) else 0
  }

  predicate Blanks(ws: Chars) {
    forall i :: 0 <= i < |ws| ==> IsBlank(ws[i])
  }

  /** Grammatical: operands bind tighter than their operator, on the left at least as tight. */
  ghost predicate Grammatical(d: Doc) {
    match d
    case Literal(ws, hex, digits) => Blanks(ws) && ValidDigits(hex, digits)
    case Parens(ws, inner, ws2) => Blanks(ws) && Grammatical(inner) && Blanks(ws2)
    case Prefix(ws, _, arg) => Blanks(ws) && Grammatical(arg) && LevelOf(arg) == 0
    case Infix(l, ws, op, r) =>
      && Grammatical(l) && Blanks(ws) && Grammatical(r)
      && LevelOf(l) <= LevelOfOp(op) && LevelOf(r) < LevelOfOp(op)
  }

  /** A text that does not prolong a number. */
  predicate NoDigit(rest: Chars) {
    rest == [] || (Digit(true, rest[0]) < 0 && rest[0] != 'x' && rest[0] != 'X')
  }

  /** A text that goes on with no operator of a level below k. */
  ghost predicate NoOpBelow(k: nat, rest: Chars) {
    forall j :: 1 <= j < k ==> OpAt(j, SkipWs(rest)).None?
  }

  // ----- blanks and digits -----

  lemma {:induction false} SkipBlankPrefix(ws: Chars, s: Chars)
    requires Blanks(ws)
    ensures SkipWs(ws + s) == SkipWs(s)
    decreases |ws|
  {
    if ws == [] {
      assert ws + s == s;
    } else {
      assert (ws + s)[1..] == ws[1..] + s;
      SkipBlankPrefix(ws[1..], s);
    }
  }

  lemma {:induction false} SkipNothing(s: Chars)
    requires s == [] || !IsBlank(s[0])
    ensures SkipWs(s) == s
  {
  }

  lemma {:induction false} SkipTwice(s: Chars)
    ensures SkipWs(SkipWs(s)) == SkipWs(s)
    decreases |s|
  {
    if s != [] && IsBlank(s[0]) {
      SkipTwice(s[1..]);
    }
  }

  lemma {:induction false} DigitIsWorth(hex: bool, c: char)
    ensures IsDigit(hex, c) <==> Digit(hex, c) >= 0
    ensures IsDigit(hex, c) ==> Digit(hex, c) == Worth(c)
  {
  }

  /** The last digit is added last. */
  lemma {:induction false} DigitsLast(ar: Arith, hex: bool, v: int, digits: Chars, c: char)
    requires (forall i :: 0 <= i < |digits| ==> IsDigit(hex, digits[i])) && IsDigit(hex, c)
    ensures Digits(ar, hex, v, digits + [c]).0 ==
      ar.op(Add, ar.op(Mul, Digits(ar, hex, v, digits).0, if hex then 16 else 10), Worth(c))
    decreases |digits|
  {
    hide IsDigit, Digit, Worth;
    DigitIsWorth(hex, (digits + [c])[0]);
    if digits == [] {
      assert ([] + [c])[1..] == [];
    } else {
      assert (digits + [c])[1..] == digits[1..] + [c];
      DigitsLast(ar, hex, ar.op(Add, ar.op(Mul, v, Base(hex)), Digit(hex, digits[0])), digits[1..], c);
    }
  }

  lemma {:induction false} DigitsAreWritten(ar: Arith, hex: bool, digits: Chars)
    requires forall i :: 0 <= i < |digits| ==> IsDigit(hex, digits[i])
    ensures Digits(ar, hex, 0, digits).0 == Written(ar, hex, digits)
    decreases |digits|
  {
    hide IsDigit, Worth;
    if digits != [] {
      var n := |digits| - 1;
      DigitsAreWritten(ar, hex, digits[..n]);
      DigitsLast(ar, hex, 0, digits[..n], digits[n]);
      assert digits[..n] + [digits[n]] == digits;
    }
  }

  /** Digits are read up to the first character that is none. */
  lemma {:induction false} ReadsDigits(ar: Arith, hex: bool, v: int, digits: Chars, rest: Chars)
    requires forall i :: 0 <= i < |digits| ==> IsDigit(hex, digits[i])
    requires NoDigit(rest)
    ensures Digits(ar, hex, v, digits + rest) == (Digits(ar, hex, v, digits).0, rest)
    decreases |digits|
  {
    if digits == [] {
      assert digits + rest == rest;
    } else {
      assert (digits + rest)[1..] == digits[1..] + rest;
      DigitIsWorth(hex, digits[0]);
      ReadsDigits(ar, hex, ar.op(Add, ar.op(Mul, v, Base(hex)), Digit(hex, digits[0])), digits[1..], rest);
    }
  }

  // ----- operators -----

  /** An operator's text, followed by an operand, is read as that operator and no tighter one. */
  lemma {:induction false} ReadsOp(op: BinOp, s: Chars)
    requires s != [] && s[0] != '&' && s[0] != '|'
    ensures OpAt(LevelOfOp(op), OpText(op) + s) == Some(op)
    ensures forall j :: 1 <= j < LevelOfOp(op) ==> OpAt(j, OpText(op) + s).None?
    ensures SkipWs(OpText(op) + s) == OpText(op) + s
    ensures (OpText(op) + s)[|OpText(op)|..] == s
  {
    var t := OpText(op) + s;
    assert t[0] == OpText(op)[0];
    assert |OpText(op)| == 1 ==> t[1] == s[0];
    assert |OpText(op)| == 2 ==> t[1] == OpText(op)[1];
    SkipNothing(t);
  }

  /** Every operand starts with a blank, a digit, a parenthesis or a prefix operator. */
  lemma {:induction false} RenderStarts(d: Doc)
    requires Grammatical(d)
    ensures Render(d) != [] && Render(d)[0] != '&' && Render(d)[0] != '|'
  {
    match d
    case Literal(ws, hex, digits) =>
      if ws == [] && !hex {
        assert Render(d)[0] == digits[0];
        DigitIsWorth(hex, digits[0]);
      } else if ws != [] {
        assert IsBlank(ws[0]);
      }
    case Parens(ws, inner, ws2) =>
      if ws != [] { assert IsBlank(ws[0]); }
    case Prefix(ws, op, arg) =>
      if ws != [] { assert IsBlank(ws[0]); }
    case Infix(l, ws, op, r) =>
      RenderStarts(l);
  }

  lemma {:induction false} FoldSkips(ar: Arith, level: nat, v: int, s: Chars)
    requires level > 0
    ensures Fold(ar, level, v, SkipWs(s)) == Fold(ar, level, v, s)
  {
    hide Eval, OpAt, Apply;
    SkipTwice(s);
    FoldUnfolds(ar, level, v, s);
    FoldUnfolds(ar, level, v, SkipWs(s));
  }

  // ----- evaluation -----

  /** A primary is read exactly, and nothing after it. */
  lemma {:induction false} EvaluatesPrimary(ar: Arith, d: Doc, rest: Chars)
    requires Grammatical(d) && LevelOf(d) == 0 && NoDigit(rest)
    ensures Eval(ar, 0, Render(d) + rest) == (Value(ar, Tree(d)), rest)
    decreases d, 1
  {
    hide Eval, Render, Grammatical, Value, Tree;
    match d
    case Literal(ws, hex, digits) => EvaluatesLiteral(ar, d, ws, hex, digits, rest);
    case Parens(ws, inner, ws2) => EvaluatesParens(ar, d, ws, inner, ws2, rest);
    case Prefix(ws, op, arg) => EvaluatesPrefix(ar, d, ws, op, arg, rest);
  }

  lemma {:induction false} EvaluatesPrefix(ar: Arith, d: Doc, ws: Chars, op: UnOp, arg: Doc, rest: Chars)
    requires d == Prefix(ws, op, arg) && Grammatical(d) && NoDigit(rest)
    ensures Eval(ar, 0, Render(d) + rest) == (Value(ar, Tree(d)), rest)
    decreases d, 0
  {
    var t := [UnText(op)] + (Render(arg) + rest);
    Regroup(ws, [UnText(op)], Render(arg), rest);
    SkipBlankPrefix(ws, t);
    SkipNothing(t);
    assert t[1..] == Render(arg) + rest;
    EvaluatesPrimary(ar, arg, rest);
  }

  lemma {:induction false} Regroup(a: Chars, b: Chars, c: Chars, rest: Chars)
    ensures (a + (b + c)) + rest == a + (b + (c + rest))
  {
  }

  lemma {:induction false} Regroup4(a: Chars, b: Chars, c: Chars, d: Chars, rest: Chars)
    ensures (a + (b + (c + d))) + rest == a + (b + (c + (d + rest)))
  {
    Regroup(b, c, d, rest);
    Regroup(a, b, c + d, rest);
  }

  /** A decimal digit is no blank, no parenthesis and no prefix operator, nor does it make a prefix. */
  lemma {:induction false} DecimalStarts(c: char)
    requires IsDigit(false, c)
    ensures '0' <= c <= '9'
  {
  }

  lemma {:induction false} ReadsDecimal(ar: Arith, digits: Chars, rest: Chars)
    requires ValidDigits(false, digits) && NoDigit(rest)
    ensures SkipWs(digits + rest) == digits + rest
    ensures PrimaryOf(ar, digits + rest) == (Written(ar, false, digits), rest)
  {
    hide Digits, Written, IsDigit, Worth, Eval, Fold;
    var t := digits + rest;
    assert t[0] == digits[0];
    DecimalStarts(digits[0]);
    SkipNothing(t);
    assert !HexPrefix(t) by {
      if |digits| > 1 {
        assert t[1] == digits[1];
        DecimalStarts(digits[1]);
      } else if rest != [] {
        assert t[1] == rest[0];
      }
    }
    ReadsDigits(ar, false, 0, digits, rest);
    DigitsAreWritten(ar, false, digits);
  }

  lemma {:induction false} ReadsHex(ar: Arith, digits: Chars, rest: Chars)
    requires ValidDigits(true, digits) && NoDigit(rest)
    ensures var t := "0x" + (digits + rest); SkipWs(t) == t && PrimaryOf(ar, t) == (Written(ar, true, digits), rest)
  {
    hide Digits, Written, IsDigit, Worth, Eval, Fold;
    var t := "0x" + (digits + rest);
    assert t[0] == '0' && t[1] == 'x' && t[2..] == digits + rest;
    SkipNothing(t);
    ReadsDigits(ar, true, 0, digits, rest);
    DigitsAreWritten(ar, true, digits);
  }

  lemma {:induction false} EvaluatesLiteral(ar: Arith, d: Doc, ws: Chars, hex: bool, digits: Chars, rest: Chars)
    requires d == Literal(ws, hex, digits) && Grammatical(d) && NoDigit(rest)
    ensures Eval(ar, 0, Render(d) + rest) == (Value(ar, Tree(d)), rest)
    decreases d, 0
  {
    hide Digits, Written, ValidDigits, Eval, PrimaryOf, SkipWs, NoDigit;
    var t := (if hex then "0x" else "") + (digits + rest);
    Regroup(ws, if hex then "0x" else "", digits, rest);
    SkipBlankPrefix(ws, t);
    PrimaryUnfolds(ar, Render(d) + rest);
    if hex {
      ReadsHex(ar, digits, rest);
    } else {
      assert t == digits + rest;
      ReadsDecimal(ar, digits, rest);
    }
  }

  lemma {:induction false} EvaluatesParens(ar: Arith, d: Doc, ws: Chars, inner: Doc, ws2: Chars, rest: Chars)
    requires d == Parens(ws, inner, ws2) && Grammatical(d)
    ensures Eval(ar, 0, Render(d) + rest) == (Value(ar, Tree(d)), rest)
    decreases d, 0
  {
    var after := ws2 + ([')'] + rest);
    var t := ['('] + (Render(inner) + after);
    ParensText(d, ws, inner, ws2, rest);
    SkipBlankPrefix(ws, t);
    SkipNothing(t);
    assert t[1..] == Render(inner) + after;
    AfterParens(ws2, rest);
    hide Render, SkipWs, OpAt, NoDigit, Grammatical;
    EvaluatesAt(ar, inner, 6, after);
    FoldUnfolds(ar, 6, Value(ar, Tree(inner)), after);
    assert ([')'] + rest)[1..] == rest;
    SkipTwice(after);
  }

  lemma {:induction false} ParensText(d: Doc, ws: Chars, inner: Doc, ws2: Chars, rest: Chars)
    requires d == Parens(ws, inner, ws2)
    ensures Render(d) + rest == ws + (['('] + (Render(inner) + (ws2 + ([')'] + rest))))
  {
    Regroup4(ws, ['('], Render(inner), ws2 + [')'], rest);
    assert (ws2 + [')']) + rest == ws2 + ([')'] + rest);
  }

  lemma {:induction false} AfterParens(ws2: Chars, rest: Chars)
    requires Blanks(ws2)
    ensures var after := ws2 + ([')'] + rest);
      SkipWs(after) == [')'] + rest && NoDigit(after) && NoOpBelow(7, after)
  {
    SkipBlankPrefix(ws2, [')'] + rest);
    SkipNothing([')'] + rest);
    if ws2 != [] {
      assert IsBlank(ws2[0]);
    }
  }

  /**
   At a level at least its own, a text is read as its tree's value, and the loop of that
   level goes on with what follows; operators that bind tighter must not follow.
   */
  lemma {:induction false} EvaluatesAt(ar: Arith, d: Doc, level: nat, rest: Chars)
    requires Grammatical(d) && LevelOf(d) <= level && level > 0
    requires NoDigit(rest) && NoOpBelow(level, rest)
    ensures Eval(ar, level, Render(d) + rest) == Fold(ar, level, Value(ar, Tree(d)), rest)
    decreases d, 2 * level + 2
  {
    if LevelOf(d) < level {
      EvaluatesOperand(ar, d, level, rest);
      FoldSkips(ar, level, Value(ar, Tree(d)), rest);
    } else {
      EvaluatesInfix(ar, d, level, rest);
    }
  }

  /** As an operand of a level, a text is read completely; blanks after it may be gone. */
  lemma {:induction false} EvaluatesOperand(ar: Arith, d: Doc, level: nat, rest: Chars)
    requires Grammatical(d) && LevelOf(d) < level
    requires NoDigit(rest) && NoOpBelow(level, rest)
    ensures Eval(ar, level - 1, Render(d) + rest).0 == Value(ar, Tree(d))
    ensures var after := Eval(ar, level - 1, Render(d) + rest).1; after == rest || after == SkipWs(rest)
    decreases d, 2 * level + 1
  {
    if level == 1 {
      EvaluatesPrimary(ar, d, rest);
    } else {
      EvaluatesAt(ar, d, level - 1, rest);
      FoldUnfolds(ar, level - 1, Value(ar, Tree(d)), rest);
    }
  }

  lemma {:induction false} EvaluatesInfix(ar: Arith, d: Doc, level: nat, rest: Chars)
    requires Grammatical(d) && d.Infix? && LevelOf(d) == level
    requires NoDigit(rest) && NoOpBelow(level, rest)
    ensures Eval(ar, level, Render(d) + rest) == Fold(ar, level, Value(ar, Tree(d)), rest)
    decreases d, 0
  {
    var Infix(l, ws, op, r) := d;
    var tail := Render(r) + rest;
    var after := ws + (OpText(op) + tail);
    Regroup4(Render(l), ws, OpText(op), Render(r), rest);
    RenderStarts(r);
    AfterOperand(ws, op, tail);
    hide Eval, Fold, OpAt, Apply, SkipWs, NoDigit, Render, OpText;
    EvaluatesAt(ar, l, level, after);
    FoldUnfolds(ar, level, Value(ar, Tree(l)), after);
    EvaluatesOperand(ar, r, level, rest);
    FoldSkips(ar, level, Value(ar, Tree(d)), rest);
  }

  lemma {:induction false} AfterOperand(ws: Chars, op: BinOp, s: Chars)
    requires Blanks(ws) && s != [] && s[0] != '&' && s[0] != '|'
    ensures var after := ws + (OpText(op) + s);
      && NoDigit(after) && NoOpBelow(LevelOfOp(op), after)
      && SkipWs(after) == OpText(op) + s
      && OpAt(LevelOfOp(op), SkipWs(after)) == Some(op)
      && SkipWs(after)[|OpText(op)|..] == s
  {
    ReadsOp(op, s);
    SkipBlankPrefix(ws, OpText(op) + s);
    if ws != [] {
      assert IsBlank(ws[0]);
    }
  }

  /** Every grammatical text evaluates to the value of its tree, and is read to the end. */
  lemma {:induction false} EvaluatesText(ar: Arith, d: Doc)
    requires Grammatical(d)
    ensures Eval(ar, 6, Render(d)) == (Value(ar, Tree(d)), [])
  {
    assert Render(d) + [] == Render(d);
    EvaluatesAt(ar, d, 6, []);
    FoldUnfolds(ar, 6, Value(ar, Tree(d)), []);
  }

  // ----- printing -----

  function Bracket(limit: nat, d: Doc): Doc {
    if LevelOf(d) <= limit then d else Parens([], d, [])
  }

  /** A tree written without blanks and with parentheses only where the grammar needs them. */
  function Print(e: Expr): Doc {
    match e
    case Number(hex, digits) => Literal([], hex, digits)
    case Unary(op, a) => Prefix([], op, Bracket(0, Print(a)))
    case Binary(op, l, r) =>
      Infix(Bracket(LevelOfOp(op), Print(l)), [], op, Bracket(LevelOfOp(op) - 1, Print(r)))
  }

  lemma {:induction false} PrintGrammatical(e: Expr)
    requires ValidExpr(e)
    ensures Grammatical(Print(e)) && Tree(Print(e)) == e
  {
    match e
    case Number(hex, digits) =>
    case Unary(op, a) =>
      PrintGrammatical(a);
      BracketGrammatical(0, Print(a));
    case Binary(op, l, r) =>
      PrintGrammatical(l);
      PrintGrammatical(r);
      BracketGrammatical(LevelOfOp(op), Print(l));
      BracketGrammatical(LevelOfOp(op) - 1, Print(r));
  }

  lemma {:induction false} BracketGrammatical(limit: nat, d: Doc)
    requires Grammatical(d)
    ensures Grammatical(Bracket(limit, d)) && Tree(Bracket(limit, d)) == Tree(d) && LevelOf(Bracket(limit, d)) <= limit
  {
  }

  /** Printing a tree and evaluating the text gives the tree's value. */
  lemma {:induction false} PrintThenEvaluate(ar: Arith, e: Expr)
    requires ValidExpr(e)
    ensures Eval(ar, 6, Render(Print(e))) == (Value(ar, e), [])
  {
    PrintGrammatical(e);
    EvaluatesText(ar, Print(e));
  }

  /** The number of pairs of parentheses in a text. */
  function Pairs(d: Doc): nat {
    match d
    case Literal(_, _, _) => 0
    case Parens(_, inner, _) => 1 + Pairs(inner)
    case Prefix(_, _, arg) => Pairs(arg)
    case Infix(l, _, _, r) => Pairs(l) + Pairs(r)
  }

  /** No grammatical text of the same tree has fewer parentheses. */
  lemma {:induction false} PrintIsMinimal(d: Doc)
    requires Grammatical(d)
    ensures Pairs(Print(Tree(d))) <= Pairs(d)
    ensures Pairs(d) == Pairs(Print(Tree(d))) ==> LevelOf(Print(Tree(d))) <= LevelOf(d)
  {
    match d
    case Literal(_, _, _) =>
    case Parens(_, inner, _) => PrintIsMinimal(inner);
    case Prefix(_, _, arg) => PrintIsMinimal(arg);
    case Infix(l, _, op, r) => PrintIsMinimal(l); PrintIsMinimal(r);
  }
}
