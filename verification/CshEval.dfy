/**
 Integer expressions of the shell's `@`: a seven-level recursive-descent evaluator that
 computes while it reads.  It is proved to give every well-formed text the value of the
 tree the text denotes, for every arithmetic of the machine's `long`.
 */
module CshEval {

  import opened Wrappers

  type Chars = seq<char>

  datatype BinOp = Mul | Div | Mod | Add | Sub | Shl | Shr | And | Xor | Or

  datatype UnOp = Minus | Plus | Invert | Not

  /** The operations of `long`; quotient and remainder are asked for nonzero divisors only. */
  datatype Arith = Arith(op: (BinOp, int, int) -> int, minus: int -> int, invert: int -> int)

  function Apply(ar: Arith, op: BinOp, a: int, b: int): int {
    if (op == Div || op == Mod) && b == 0 then 0 else ar.op(op, a, b)
  }

  function ApplyUnary(ar: Arith, op: UnOp, a: int): int {
    match op
    case Minus => ar.minus(a)
    case Plus => a
    case Invert => ar.invert(a)
    case Not => if a == 0 then 1 else 0
  }

  // ----- reading characters -----

  predicate IsBlank(c: char) {
    c == ' ' || c == '\t'
  }

  /** The text after its leading blanks. */
  function SkipWs(s: Chars): (r: Chars)
    ensures |r| <= |s|
    ensures r == [] || !IsBlank(r[0])
  {
    if s != [] && IsBlank(s[0]) then SkipWs(s[1..]) else s
  }

  /** The value of a digit in a base, or -1. */
  function Digit(hex: bool, c: char): int {
    if '0' <= c <= '9' then c as int - '0' as int
    else if hex && 'a' <= c <= 'f' then c as int - 'a' as int + 10
    else if hex && 'A' <= c <= 'F' then c as int - 'A' as int + 10
    else -1
  }

  function Base(hex: bool): int {
    if hex then 16 else 10
  }

  /** Accumulate digits as long as there are any. */
  function Digits(ar: Arith, hex: bool, v: int, s: Chars): (r: (int, Chars))
    ensures |r.1| <= |s|
    decreases |s|
  {
    if s == [] || Digit(hex, s[0]) < 0 then (v, s)
    else Digits(ar, hex, ar.op(Add, ar.op(Mul, v, Base(hex)), Digit(hex, s[0])), s[1..])
  }

  predicate HexPrefix(s: Chars) {
    |s| >= 2 && s[0] == '0' && (s[1] == 'x' || s[1] == 'X')
  }

  function LevelOfOp(op: BinOp): nat {
    match op
    case Mul => 1 case Div => 1 case Mod => 1
    case Add => 2 case Sub => 2
    case Shl => 3 case Shr => 3
    case And => 4
    case Xor => 5
    case Or => 6
  }

  function OpText(op: BinOp): Chars {
    match op
    case Mul => "*" case Div => "/" case Mod => "%"
    case Add => "+" case Sub => "-"
    case Shl => "<<" case Shr => ">>"
    case And => "&"
    case Xor => "^"
    case Or => "|"
  }

  /** The operator of the given level that the text starts with. `&&` and `||` are none. */
  function OpAt(level: nat, s: Chars): Option<BinOp> {
    if s == [] then None
    else if level == 1 then
      if s[0] == '*' then Some(Mul) else if s[0] == '/' then Some(Div) else if s[0] == '%' then Some(Mod) else None
    else if level == 2 then
      if s[0] == '+' then Some(Add) else if s[0] == '-' then Some(Sub) else None
    else if level == 3 then
      if |s| >= 2 && s[0] == '<' && s[1] == '<' then Some(Shl)
      else if |s| >= 2 && s[0] == '>' && s[1] == '>' then Some(Shr)
      else None
    else if level == 4 then
      if s[0] == '&' && (|s| == 1 || s[1] != '&') then Some(And) else None
    else if level == 5 then
      if s[0] == '^' then Some(Xor) else None
    else
      if s[0] == '|' && (|s| == 1 || s[1] != '|') then Some(Or) else None
  }

  lemma {:induction false} OpAtLength(level: nat, s: Chars)
    requires OpAt(level, s).Some?
    ensures 1 <= |OpText(OpAt(level, s).value)| <= |s|
  {
  }

  // ----- the evaluator as a function -----

  /**
   Evaluate at a level: 0 is a primary, 1 to 6 are the binary levels from `*` to `|`.
   Returns the value and the unread text.
   */
  function Eval(ar: Arith, level: nat, s: Chars): (r: (int, Chars))
    ensures |r.1| <= |s|
    decreases |s|, 2 * level + 1
  {
    if level == 0 then
      var t := SkipWs(s);
      if t == [] then (0, t)
      else if t[0] == '(' then
        var (v, rest) := Eval(ar, 6, t[1..]);
        var after := SkipWs(rest);
        (v, if after != [] && after[0] == ')' then after[1..] else after)
      else if t[0] == '-' then var (v, rest) := Eval(ar, 0, t[1..]); (ar.minus(v), rest)
      else if t[0] == '+' then Eval(ar, 0, t[1..])
      else if t[0] == '~' then var (v, rest) := Eval(ar, 0, t[1..]); (ar.invert(v), rest)
      else if t[0] == '!' then var (v, rest) := Eval(ar, 0, t[1..]); (if v == 0 then 1 else 0, rest)
      else if HexPrefix(t) then Digits(ar, true, 0, t[2..])
      else Digits(ar, false, 0, t)
    else
      var (v, rest) := Eval(ar, level - 1, s);
      Fold(ar, level, v, rest)
  }

  /** The loop of a binary level: apply operators from left to right. */
  function Fold(ar: Arith, level: nat, v: int, s: Chars): (r: (int, Chars))
    requires level > 0
    ensures |r.1| <= |s|
    decreases |s|, 2 * level
  {
    var t := SkipWs(s);
    var op := OpAt(level, t);
    if op.None? then (v, t)
    else
      OpAtLength(level, t);
      var (w, rest) := Eval(ar, level - 1, t[|OpText(op.value)|..]);
      Fold(ar, level, Apply(ar, op.value, v, w), rest)
  }

  lemma {:induction false} FoldUnfolds(ar: Arith, level: nat, v: int, s: Chars)
    requires level > 0
    ensures var t := SkipWs(s); var op := OpAt(level, t);
      && (op.None? ==> Fold(ar, level, v, s) == (v, t))
      && (op.Some? ==>
            && |OpText(op.value)| <= |t|
            && var (w, rest) := Eval(ar, level - 1, t[|OpText(op.value)|..]);
               Fold(ar, level, v, s) == Fold(ar, level, Apply(ar, op.value, v, w), rest))
  {
    hide OpAt, Apply, OpText;
    if OpAt(level, SkipWs(s)).Some? {
      OpAtLength(level, SkipWs(s));
    }
  }

  /** A primary after its leading blanks. */
  function PrimaryOf(ar: Arith, t: Chars): (int, Chars) {
    if t == [] then (0, t)
    else
      var (v, rest) := Eval(ar, if t[0] == '(' then 6 else 0, t[1..]);
      var after := SkipWs(rest);
      match t[0]
      case '(' => (v, if after != [] && after[0] == ')' then after[1..] else after)
      case '-' => (ar.minus(v), rest)
      case '+' => (v, rest)
      case '~' => (ar.invert(v), rest)
      case '!' => (if v == 0 then 1 else 0, rest)
      case _ => if HexPrefix(t) then Digits(ar, true, 0, t[2..]) else Digits(ar, false, 0, t)
  }

  lemma {:induction false} PrimaryUnfolds(ar: Arith, s: Chars)
    ensures Eval(ar, 0, s) == PrimaryOf(ar, SkipWs(s))
  {
    hide Fold, Digits, SkipWs;
  }

  // ----- the evaluator with its moving pointer -----

  method SkipBlanks(text: Chars, start: nat) returns (p: nat)
    requires start <= |text|
    ensures start <= p <= |text| && text[p..] == SkipWs(text[start..])
  {
    p := start;
    while p < |text| && IsBlank(text[p])
      invariant start <= p <= |text|
      invariant SkipWs(text[p..]) == SkipWs(text[start..])
    {
      assert text[p..][1..] == text[p + 1..];
      p := p + 1;
    }
  }

  method ReadDigits(ar: Arith, text: Chars, start: nat, hex: bool) returns (v: int, p: nat)
    requires start <= |text|
    ensures start <= p <= |text| && (v, text[p..]) == Digits(ar, hex, 0, text[start..])
  {
    v, p := 0, start;
    while p < |text| && Digit(hex, text[p]) >= 0
      invariant start <= p <= |text|
      invariant Digits(ar, hex, v, text[p..]) == Digits(ar, hex, 0, text[start..])
    {
      assert text[p..][1..] == text[p + 1..];
      v := ar.op(Add, ar.op(Mul, v, Base(hex)), Digit(hex, text[p]));
      p := p + 1;
    }
  }

  method EvalPrimary(ar: Arith, text: Chars, start: nat) returns (v: int, p: nat)
    requires start <= |text|
    ensures start <= p <= |text| && (v, text[p..]) == Eval(ar, 0, text[start..])
    decreases |text| - start, 0
  {
    hide Eval, Fold, Digits, SkipWs;
    PrimaryUnfolds(ar, text[start..]);
    p := SkipBlanks(text, start);
    if p == |text| {
      return 0, p;
    }
    assert text[p..][1..] == text[p + 1..];
    if text[p] == '(' {
      v, p := EvalLevel(ar, 6, text, p + 1);
      p := SkipBlanks(text, p);
      if p < |text| && text[p] == ')' {
        assert text[p..][1..] == text[p + 1..];
        p := p + 1;
      }
    } else if text[p] == '-' {
      v, p := EvalPrimary(ar, text, p + 1);
      v := ar.minus(v);
    } else if text[p] == '+' {
      v, p := EvalPrimary(ar, text, p + 1);
    } else if text[p] == '~' {
      v, p := EvalPrimary(ar, text, p + 1);
      v := ar.invert(v);
    } else if text[p] == '!' {
      v, p := EvalPrimary(ar, text, p + 1);
      v := if v == 0 then 1 else 0;
    } else if HexPrefix(text[p..]) {
      assert text[p..][2..] == text[p + 2..];
      v, p := ReadDigits(ar, text, p + 2, true);
    } else {
      v, p := ReadDigits(ar, text, p, false);
    }
  }

  /** The six binary levels share this shape: one operand, then operators while they last. */
  method EvalLevel(ar: Arith, level: nat, text: Chars, start: nat) returns (v: int, p: nat)
    requires 0 < level && start <= |text|
    ensures start <= p <= |text| && (v, text[p..]) == Eval(ar, level, text[start..])
    decreases |text| - start, 2 * level
  {
    v, p := EvalOperand(ar, level - 1, text, start);
    assert Fold(ar, level, v, text[p..]) == Eval(ar, level, text[start..]);
    hide Eval, Fold, OpAt, Apply, OpText;
    while true
      invariant start <= p <= |text|
      invariant Fold(ar, level, v, text[p..]) == Eval(ar, level, text[start..])
      decreases |text| - p
    {
      FoldUnfolds(ar, level, v, text[p..]);
      p := SkipBlanks(text, p);
      var op := OpAt(level, text[p..]);
      if op.None? {
        return;
      }
      OpAtLength(level, text[p..]);
      var w;
      var next := p + |OpText(op.value)|;
      assert text[p..][|OpText(op.value)|..] == text[next..];
      w, p := EvalOperand(ar, level - 1, text, next);
      v := Apply(ar, op.value, v, w);
    }
  }

  method EvalOperand(ar: Arith, level: nat, text: Chars, start: nat) returns (v: int, p: nat)
    requires start <= |text|
    ensures start <= p <= |text| && (v, text[p..]) == Eval(ar, level, text[start..])
    decreases |text| - start, 2 * level + 1
  {
    if level == 0 {
      v, p := EvalPrimary(ar, text, start);
    } else {
      v, p := EvalLevel(ar, level, text, start);
    }
  }

  /** Evaluate a whole expression; text after it is ignored. */
  method EvalInt(ar: Arith, text: Chars) returns (v: int)
    ensures v == Eval(ar, 6, text).0
  {
    var p;
    assert text[0..] == text;
    v, p := EvalLevel(ar, 6, text, 0);
  }
}
