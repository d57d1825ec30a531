/**
 What the general highlighter makes of the parts of a row, with positions and characters spelled
 out: quoted text, line and block comments, numbers, words and everything else.
 */
module NeoLaws {

  import opened Wrappers
  import opened Libc
  import opened NeoSyntax
  import opened NeoPaint

  /** The first n positions are of class c, and behind them comes `rest`. */
  ghost predicate Paints(r: Painted, c: Class, n: nat, rest: Painted) {
    && |r.hl| == n + |rest.hl|
    && (forall k :: 0 <= k < n ==> r.hl[k] == c)
    && r.hl[n..] == rest.hl
    && r.open == rest.open
  }

  lemma {:induction false} ThenPaints(c: Class, n: nat, rest: Painted)
    ensures Paints(Then(c, n, rest), c, n, rest)
  {
  }

  /** The text t stands in s at i. */
  predicate StandsAt(s: string, i: nat, t: string) {
    i + |t| <= |s| && s[i..i + |t|] == t
  }

  lemma {:induction false} StandsParts(s: string, i: nat, t: string, u: string)
    requires StandsAt(s, i, t + u)
    ensures StandsAt(s, i, t) && StandsAt(s, i + |t|, u)
  {
    var w := s[i..i + |t + u|];
    assert s[i..i + |t|] == w[..|t|] == t;
    assert s[i + |t|..i + |t| + |u|] == w[|t|..] == u;
  }

  lemma {:induction false} StandsFirst(s: string, i: nat, t: string)
    requires StandsAt(s, i, t) && t != ""
    ensures s[i] == t[0] && i + |t| <= |s|
  {
    assert s[i] == s[i..i + |t|][0];
  }

  // ----- the state between tokens -----

  /** Neither a comment nor a string starts at i. */
  ghost predicate NoComment(l: Language, s: string, i: nat) {
    (l.lineComment != "" ==> !StandsAt(s, i, l.lineComment)) && (l.blockOpen != "" ==> !StandsAt(s, i, l.blockOpen))
  }

  ghost predicate Plain(l: Language, s: string, i: nat) {
    && i < |s|
    && NoComment(l, s, i)
    && s[i] != '"'
    && (l.singleQuotes ==> s[i] != '\'')
    && (l.backTicks ==> s[i] != '`')
  }

  lemma {:induction false} NotAt(l: Language, s: string, i: nat)
    requires NoComment(l, s, i)
    ensures !At(s, i, l.lineComment) && !At(s, i, l.blockOpen)
  {
  }

  lemma {:induction false} PlainScan(l: Language, s: string, i: nat, sep: bool)
    requires Plain(l, s, i)
    ensures i < |s| && !Quotes(l, s[i]) && !At(s, i, l.lineComment) && !At(s, i, l.blockOpen)
  {
  }

  /** The characters that part words. */
  predicate Parts(c: char) {
    c in " \t\n\r\U{b}\U{c}\0,.()+-/*=~%<>[]{};:&|!?^"
  }

  lemma {:induction false} SeparatorParts(c: char)
    ensures IsSeparator(c) <==> Parts(c)
  {
    assert 11 as char == '\U{b}' && 12 as char == '\U{c}';
  }

  // ----- comments -----

  /** A line comment takes the rest of the row. */
  lemma {:induction false} LineComment(l: Language, s: string, i: nat, sep: bool)
    requires l.lineComment != "" && StandsAt(s, i, l.lineComment)
    ensures Paints(Scan(l, s, i, sep, NONE, false), Comment, |s| - i, Painted([], 0))
  {
    assert At(s, i, l.lineComment);
  }

  /** A block comment that is closed in its row, at the first closing delimiter behind the opening one. */
  lemma {:induction false} ClosedComment(l: Language, s: string, i: nat, j: nat, sep: bool)
    requires l.lineComment != "" ==> !StandsAt(s, i, l.lineComment)
    requires l.blockOpen != "" && StandsAt(s, i, l.blockOpen)
    requires l.blockClose != "" && i + |l.blockOpen| <= j && StandsAt(s, j, l.blockClose)
    requires forall k :: i + |l.blockOpen| <= k < j ==> !StandsAt(s, k, l.blockClose)
    ensures var n := j + |l.blockClose|;
      Paints(Scan(l, s, i, sep, NONE, false), BlockComment, n - i, Scan(l, s, n, true, NONE, false))
  {
    hide Scan, Then;
    var m, n := i + |l.blockOpen|, j + |l.blockClose|;
    var rest := Scan(l, s, n, true, NONE, false);
    CommentOpens(l, s, i, sep);
    NotClosed(s, m, j, l.blockClose);
    CommentRunsToClose(l, s, m, j, sep);
    assert Paints(Scan(l, s, m, sep, NONE, true), BlockComment, n - m, rest) by {
      ThenPaints(BlockComment, n - m, rest);
    }
    PaintsMore(Scan(l, s, i, sep, NONE, false), BlockComment, m - i, Scan(l, s, m, sep, NONE, true), n - m, rest);
  }

  /** A block comment that is not closed in its row takes the rest and stays open. */
  lemma {:induction false} OpenComment(l: Language, s: string, i: nat, sep: bool)
    requires l.lineComment != "" ==> !StandsAt(s, i, l.lineComment)
    requires l.blockOpen != "" && StandsAt(s, i, l.blockOpen)
    requires forall k :: i + |l.blockOpen| <= k <= |s| && l.blockClose != "" ==> !StandsAt(s, k, l.blockClose)
    ensures Paints(Scan(l, s, i, sep, NONE, false), BlockComment, |s| - i, Painted([], 1))
  {
    hide Scan, Then;
    var m := i + |l.blockOpen|;
    CommentOpens(l, s, i, sep);
    NotClosed(s, m, |s|, l.blockClose);
    CommentStaysOpen(l, s, m, sep);
    PaintsMore(
      Scan(l, s, i, sep, NONE, false), BlockComment, m - i, Scan(l, s, m, sep, NONE, true), |s| - m, Painted([], 1));
  }

  lemma {:induction false} NotClosed(s: string, i: nat, j: nat, close: string)
    requires forall k :: i <= k < j && close != "" ==> !StandsAt(s, k, close)
    ensures NotBefore(s, i, j, close)
  {
    forall k | i <= k < j
      ensures !At(s, k, close)
    {
      assert close != "" ==> !StandsAt(s, k, close);
    }
  }

  lemma {:induction false} CommentOpens(l: Language, s: string, i: nat, sep: bool)
    requires l.lineComment != "" ==> !StandsAt(s, i, l.lineComment)
    requires l.blockOpen != "" && StandsAt(s, i, l.blockOpen)
    ensures var m := i + |l.blockOpen|;
      Paints(Scan(l, s, i, sep, NONE, false), BlockComment, |l.blockOpen|, Scan(l, s, m, sep, NONE, true))
  {
    assert At(s, i, l.blockOpen) && !At(s, i, l.lineComment);
    ThenPaints(BlockComment, |l.blockOpen|, Scan(l, s, i + |l.blockOpen|, sep, NONE, true));
  }

  lemma {:induction false} PaintsMore(r: Painted, c: Class, n: nat, mid: Painted, m: nat, rest: Painted)
    requires Paints(r, c, n, mid) && Paints(mid, c, m, rest)
    ensures Paints(r, c, n + m, rest)
  {
    assert r.hl[n + m..] == r.hl[n..][m..];
    forall k | n <= k < n + m
      ensures r.hl[k] == c
    {
      assert r.hl[k] == r.hl[n..][k - n];
    }
  }

  // ----- quoted text -----

  /** Quoted text in pieces: a backslash with the character behind it, or one character that is
      neither a backslash nor the quote. */
  predicate Piece(q: char, p: string) {
    (|p| == 1 && p[0] != q && p[0] != '\\') || (|p| == 2 && p[0] == '\\')
  }

  predicate Pieces(q: char, ps: seq<string>) {
    forall k :: 0 <= k < |ps| ==> Piece(q, ps[k])
  }

  function Text(ps: seq<string>): string {
    if ps == [] then "" else ps[0] + Text(ps[1..])
  }

  /** Backslash pairs are escapes, the rest is string. */
  function ClassesOf(p: string): seq<Class> {
    if |p| == 2 then [Escape, Escape] else [String]
  }

  function Classes(ps: seq<string>): seq<Class> {
    if ps == [] then [] else ClassesOf(ps[0]) + Classes(ps[1..])
  }

  function SepAfter(sep: bool, ps: seq<string>): bool
    decreases |ps|
  {
    if ps == [] then sep else SepAfter(|ps[0]| == 1 || sep, ps[1..])
  }

  lemma {:induction false} StringStep(l: Language, s: string, i: nat, sep: bool, q: char, p: string)
    requires q != NONE && Piece(q, p) && StandsAt(s, i, p)
    ensures i + |p| <= |s|
    ensures var r := Scan(l, s, i + |p|, |p| == 1 || sep, q, false);
      Scan(l, s, i, sep, q, false) == Painted(ClassesOf(p) + r.hl, r.open)
  {
    StandsFirst(s, i, p);
    assert Fill(Escape, 2) == [Escape, Escape] && Fill(String, 1) == [String];
  }

  /** Inside a string the pieces are painted one by one. */
  lemma {:induction false} PiecesPainted(l: Language, s: string, i: nat, sep: bool, q: char, ps: seq<string>)
    requires q != NONE && StandsAt(s, i, Text(ps)) && Pieces(q, ps)
    ensures i + |Text(ps)| <= |s|
    ensures var r := Scan(l, s, i + |Text(ps)|, SepAfter(sep, ps), q, false);
      Scan(l, s, i, sep, q, false) == Painted(Classes(ps) + r.hl, r.open)
    decreases |ps|
  {
    hide Scan, StandsAt, Piece, Text, Classes, SepAfter;
    if ps == [] {
      PiecesNone(ps, sep);
      StandsEnd(s, i, Text(ps));
      assert [] + Scan(l, s, i, sep, q, false).hl == Scan(l, s, i, sep, q, false).hl;
    } else {
      var p, more := ps[0], ps[1..];
      PiecesSome(ps, sep);
      StandsParts(s, i, p, Text(more));
      StringStep(l, s, i, sep, q, p);
      PiecesPainted(l, s, i + |p|, |p| == 1 || sep, q, more);
      Regroup(ClassesOf(p), Classes(more), Scan(l, s, i + |Text(ps)|, SepAfter(sep, ps), q, false).hl);
    }
  }

  lemma {:induction false} PiecesNone(ps: seq<string>, sep: bool)
    requires ps == []
    ensures Text(ps) == "" && Classes(ps) == [] && SepAfter(sep, ps) == sep
  {
  }

  lemma {:induction false} PiecesSome(ps: seq<string>, sep: bool)
    requires ps != []
    ensures Text(ps) == ps[0] + Text(ps[1..]) && Classes(ps) == ClassesOf(ps[0]) + Classes(ps[1..])
    ensures SepAfter(sep, ps) == SepAfter(|ps[0]| == 1 || sep, ps[1..])
  {
  }

  lemma {:induction false} Regroup<T>(a: seq<T>, b: seq<T>, c: seq<T>)
    ensures a + (b + c) == (a + b) + c
  {
  }

  lemma {:induction false} StandsEnd(s: string, i: nat, t: string)
    requires StandsAt(s, i, t)
    ensures i + |t| <= |s|
  {
  }

  predicate QuoteOf(l: Language, q: char) {
    q == '"' || (l.singleQuotes && q == '\'') || (l.backTicks && q == '`')
  }

  lemma {:induction false} QuoteOpens(l: Language, s: string, i: nat, sep: bool)
    requires i < |s| && QuoteOf(l, s[i]) && NoComment(l, s, i)
    ensures var r := Scan(l, s, i + 1, sep, s[i], false);
      Scan(l, s, i, sep, NONE, false) == Painted([String] + r.hl, r.open)
  {
    NotAt(l, s, i);
    assert Quotes(l, s[i]) && Fill(String, 1) == [String];
  }

  lemma {:induction false} QuoteCloses(l: Language, s: string, i: nat, sep: bool, q: char)
    requires i < |s| && s[i] == q && q != NONE && q != '\\'
    ensures var r := Scan(l, s, i + 1, true, NONE, false);
      Scan(l, s, i, sep, q, false) == Painted([String] + r.hl, r.open)
  {
    assert Fill(String, 1) == [String];
  }

  /** A quoted text runs from its quote to the next quote that is not behind a backslash; the row
      goes on behind it as plain text. */
  lemma {:induction false} QuotedText(l: Language, s: string, i: nat, sep: bool, q: char, ps: seq<string>)
    requires QuoteOf(l, q) && NoComment(l, s, i) && Pieces(q, ps) && StandsAt(s, i, [q] + Text(ps) + [q])
    ensures i + |Text(ps)| + 2 <= |s|
    ensures var r := Scan(l, s, i + |Text(ps)| + 2, true, NONE, false);
      Scan(l, s, i, sep, NONE, false) == Painted([String] + Classes(ps) + [String] + r.hl, r.open)
  {
    hide Scan, StandsAt, NoComment, Pieces, Classes, Text;
    var j := i + 1 + |Text(ps)|;
    StandsParts(s, i, [q] + Text(ps), [q]);
    StandsParts(s, i, [q], Text(ps));
    StandsFirst(s, i, [q]);
    StandsFirst(s, j, [q]);
    QuoteOpens(l, s, i, sep);
    PiecesPainted(l, s, i + 1, sep, q, ps);
    QuoteCloses(l, s, j, SepAfter(sep, ps), q);
    var r := Scan(l, s, j + 1, true, NONE, false);
    assert [String] + (Classes(ps) + ([String] + r.hl)) == [String] + Classes(ps) + [String] + r.hl;
  }

  /** A quoted text that is not closed takes the rest of the row; a backslash that ends the row is string. */
  lemma {:induction false} UnclosedText(
      l: Language, s: string, i: nat, sep: bool, q: char, ps: seq<string>, end: string)
    requires QuoteOf(l, q) && NoComment(l, s, i) && Pieces(q, ps) && (end == "" || end == "\\")
    requires i <= |s| && s[i..] == [q] + Text(ps) + end
    ensures Scan(l, s, i, sep, NONE, false) ==
      Painted([String] + Classes(ps) + (if end == "" then [] else [String]), 0)
  {
    hide Scan, NoComment, Pieces, Classes, Text;
    var j := i + 1 + |Text(ps)|;
    assert s[i..] == s[i..i + |[q] + Text(ps) + end|];
    assert StandsAt(s, i, [q] + Text(ps) + end);
    StandsParts(s, i, [q] + Text(ps), end);
    StandsParts(s, i, [q], Text(ps));
    StandsFirst(s, i, [q]);
    QuoteOpens(l, s, i, sep);
    PiecesPainted(l, s, i + 1, sep, q, ps);
    RowEnds(l, s, j, SepAfter(sep, ps), q, end);
    var r := if end == "" then [] else [String];
    assert [String] + (Classes(ps) + r) == [String] + Classes(ps) + r;
  }

  lemma {:induction false} RowEnds(l: Language, s: string, j: nat, sep: bool, q: char, end: string)
    requires j + |end| == |s| && StandsAt(s, j, end) && (end == "" || end == "\\") && q != '\\' && q != NONE
    ensures Scan(l, s, j, sep, q, false) == Painted(if end == "" then [] else [String], 0)
  {
    if end != "" {
      StandsFirst(s, j, end);
      assert Fill(String, 1) + [] == [String];
    }
  }

  /** Every row behind a quote is one of the two: closed text and a rest, or unclosed text. */
  lemma {:induction false} QuotedOrNot(q: char, s: string) returns (ps: seq<string>, end: string)
    requires q != '\\'
    ensures Pieces(q, ps) && Text(ps) + end == s && (end == "" || end == "\\" || end[0] == q)
    decreases |s|
  {
    if s == "" || s == "\\" || s[0] == q {
      return [], s;
    }
    var n := if s[0] == '\\' then 2 else 1;
    var more;
    more, end := QuotedOrNot(q, s[n..]);
    ps := [s[..n]] + more;
    assert ps[1..] == more && Piece(q, ps[0]);
    assert s[..n] + (Text(more) + end) == s;
  }

  // ----- numbers -----

  predicate Digit(c: char) {
    c in "0123456789"
  }

  predicate GoesOn(c: char) {
    c in "0123456789.xXabcdefABCDEFul"
  }

  lemma {:induction false} GoesOnSame(c: char)
    ensures InNumber(c) <==> GoesOn(c)
  {
  }

  lemma {:induction false} DigitSame(c: char)
    ensures IsDigit(c) <==> Digit(c)
  {
  }

  lemma {:induction false} NumberRun(s: string, i: nat, n: nat)
    requires i <= n <= |s| && (forall k :: i <= k < n ==> GoesOn(s[k])) && (n < |s| ==> !GoesOn(s[n]))
    ensures NumberEnd(s, i) == n
    decreases n - i
  {
    hide GoesOn, InNumber;
    if i < |s| {
      GoesOnSame(s[i]);
    }
    if i < n {
      NumberRun(s, i + 1, n);
    }
  }

  /** A digit behind a separator starts a number, which goes on as far as its characters do. */
  lemma {:induction false} NumberPainted(l: Language, s: string, i: nat, n: nat)
    requires Plain(l, s, i) && Digit(s[i]) && i < n <= |s|
    requires (forall k :: i < k < n ==> GoesOn(s[k])) && (n < |s| ==> !GoesOn(s[n]))
    ensures Paints(Scan(l, s, i, true, NONE, false), Number, n - i, Scan(l, s, n, false, NONE, false))
  {
    hide NumberEnd, At, Quotes, FindWord, GoesOn, Digit, Then, Plain;
    PlainScan(l, s, i, true);
    DigitSame(s[i]);
    NumberRun(s, i + 1, n);
    ThenPaints(Number, n - i, Scan(l, s, n, false, NONE, false));
  }

  // ----- words -----

  /** Word k of group g stands at i: anywhere for a group of symbols, else between separators. */
  ghost predicate Fits(l: Language, s: string, i: nat, sep: bool, g: nat, k: nat) {
    && g < |l.groups|
    && k < |l.groups[g].words|
    && var w := l.groups[g].words[k];
      w != "" && StandsAt(s, i, w) && (l.groups[g].symbols || (sep && (i + |w| == |s| || Parts(s[i + |w|]))))
  }

  lemma {:induction false} FitsSame(l: Language, s: string, i: nat, sep: bool, g: nat, k: nat)
    requires g < |l.groups| && k < |l.groups[g].words|
    ensures Fits(l, s, i, sep, g, k) <==>
      (l.groups[g].symbols || sep) && WordFits(l.groups[g], s, i, l.groups[g].words[k])
  {
    hide IsSeparator, Parts;
    var w := l.groups[g].words[k];
    SeparatorParts(NONE);
    if i + |w| < |s| {
      SeparatorParts(s[i + |w|]);
    }
    assert Parts('\0') by {
      ZeroParts();
    }
  }

  lemma {:induction false} ZeroParts()
    ensures Parts('\0')
  {
    assert " \t\n\r\U{b}\U{c}\0,.()+-/*=~%<>[]{};:&|!?^"[6] == '\0';
  }

  lemma {:induction false} InGroupIs(l: Language, s: string, i: nat, sep: bool, g: nat, from: nat, k: nat)
    requires g < |l.groups| && (l.groups[g].symbols || sep) && from <= k <= |l.groups[g].words|
    requires forall m :: from <= m < k ==> !Fits(l, s, i, sep, g, m)
    requires k < |l.groups[g].words| ==> Fits(l, s, i, sep, g, k)
    ensures InGroup(l.groups[g], from, s, i) ==
      if k < |l.groups[g].words| then Some(|l.groups[g].words[k]|) else None
    decreases k - from
  {
    hide Fits, WordFits;
    if from < |l.groups[g].words| {
      FitsSame(l, s, i, sep, g, from);
    }
    if from < k {
      assert !Fits(l, s, i, sep, g, from);
      InGroupIs(l, s, i, sep, g, from + 1, k);
    }
  }

  /** No word of the groups from `from` to g fits. */
  ghost predicate NoneFits(l: Language, s: string, i: nat, sep: bool, from: nat, g: nat) {
    forall f, m :: from <= f < g ==> !Fits(l, s, i, sep, f, m)
  }

  lemma {:induction false} FindWordIs(l: Language, s: string, i: nat, sep: bool, from: nat, g: nat, k: nat)
    requires from <= g <= |l.groups| && NoneFits(l, s, i, sep, from, g)
    requires g < |l.groups| ==> Fits(l, s, i, sep, g, k) && forall m :: 0 <= m < k ==> !Fits(l, s, i, sep, g, m)
    ensures g == |l.groups| ==> FindWord(l, from, s, i, sep) == None
    ensures g < |l.groups| ==> FindWord(l, from, s, i, sep) == Some((g, |l.groups[g].words[k]| as nat))
    decreases g - from
  {
    hide WordFits, InGroup, StandsAt, Parts;
    if from < g {
      FindWordIs(l, s, i, sep, from + 1, g, k);
      if l.groups[from].symbols || sep {
        InGroupIs(l, s, i, sep, from, 0, |l.groups[from].words|);
      }
    } else if g < |l.groups| {
      InGroupIs(l, s, i, sep, g, 0, k);
    }
  }

  /** The first word, by group and then by place in the group, that fits is painted in the colour
      of its group. */
  lemma {:induction false} WordPainted(l: Language, s: string, i: nat, sep: bool, g: nat, k: nat)
    requires Plain(l, s, i) && !(sep && Digit(s[i]))
    requires Fits(l, s, i, sep, g, k) && (forall m :: 0 <= m < k ==> !Fits(l, s, i, sep, g, m))
    requires NoneFits(l, s, i, sep, 0, g)
    ensures var n := |l.groups[g].words[k]|;
      i + n <= |s|
      && Paints(Scan(l, s, i, sep, NONE, false), Keyword(g), n, Scan(l, s, i + n, false, NONE, false))
  {
    hide FindWord, At, Quotes, NumberEnd, Digit, Then, Plain, Parts, NoneFits;
    PlainScan(l, s, i, sep);
    DigitSame(s[i]);
    FindWordIs(l, s, i, sep, 0, g, k);
    var n := |l.groups[g].words[k]|;
    ThenPaints(Keyword(g), n, Scan(l, s, i + n, false, NONE, false));
  }

  /** Where no word fits, one character stays plain. */
  lemma {:induction false} OtherPainted(l: Language, s: string, i: nat, sep: bool)
    requires Plain(l, s, i) && !(sep && Digit(s[i])) && NoneFits(l, s, i, sep, 0, |l.groups|)
    ensures Paints(Scan(l, s, i, sep, NONE, false), Normal, 1, Scan(l, s, i + 1, Parts(s[i]), NONE, false))
  {
    hide FindWord, At, Quotes, NumberEnd, Digit, Then, Plain, Parts, IsSeparator, NoneFits;
    PlainScan(l, s, i, sep);
    DigitSame(s[i]);
    SeparatorParts(s[i]);
    FindWordIs(l, s, i, sep, 0, |l.groups|, 0);
    ThenPaints(Normal, 1, Scan(l, s, i + 1, Parts(s[i]), NONE, false));
  }

  // ----- where words are found -----

  /** Position k is in a word of group g that starts at a: of symbols, or with a separator, a string
      or a comment before it and a separator or the end of the row behind it. */
  ghost predicate InWord(l: Language, s: string, hl: seq<Class>, g: nat, k: nat, a: nat, w: string)
    requires |hl| == |s|
  {
    && g < |l.groups|
    && w in l.groups[g].words
    && a <= k < a + |w|
    && StandsAt(s, a, w)
    && (l.groups[g].symbols ||
        (Before(s, hl, a) && (a + |w| == |s| || Parts(s[a + |w|]))))
  }

  ghost predicate Before(s: string, hl: seq<Class>, a: nat)
    requires |hl| == |s|
  {
    a <= |s| && (a == 0 || Parts(s[a - 1]) || hl[a - 1] == String || hl[a - 1] == BlockComment)
  }

  /** From i on, when a word may start at i and the row before i is as given. */
  ghost predicate WordsFrom(l: Language, s: string, hl: seq<Class>, i: nat)
    requires |hl| == |s|
  {
    forall k :: i <= k < |s| && hl[k].Keyword? ==> exists a, w :: InWord(l, s, hl, hl[k].group, k, a, w)
  }

  /** A word may start here. */
  predicate MayStart(l: Language, sep: bool, quote: char, comment: bool) {
    sep && quote == NONE && !(comment && l.blockOpen != "")
  }

  /** The token from i to n is not a word. */
  lemma {:induction false} NoWord(l: Language, s: string, hl: seq<Class>, i: nat, n: nat, c: Class)
    requires |hl| == |s| && i <= n <= |s| && (forall k :: i <= k < n ==> hl[k] == c) && !c.Keyword?
    requires WordsFrom(l, s, hl, n)
    ensures WordsFrom(l, s, hl, i)
  {
    hide InWord;
  }

  lemma {:induction false} OneWord(l: Language, s: string, hl: seq<Class>, i: nat, g: nat, w: string)
    requires |hl| == |s| && i + |w| <= |s| && (forall k :: i <= k < i + |w| ==> hl[k] == Keyword(g))
    requires w != "" && InWord(l, s, hl, g, i, i, w) && WordsFrom(l, s, hl, i + |w|)
    ensures WordsFrom(l, s, hl, i)
  {
    forall k | i <= k < |s| && hl[k].Keyword?
      ensures exists a, w :: InWord(l, s, hl, hl[k].group, k, a, w)
    {
      if k < i + |w| {
        assert InWord(l, s, hl, g, k, i, w);
      }
    }
  }

  /** The classes of a token, seen in the whole row. */
  lemma {:induction false} TokenAt(hl: seq<Class>, i: nat, r: Painted, c: Class, n: nat, rest: Painted)
    requires i <= |hl| && hl[i..] == r.hl && r == Then(c, n, rest)
    ensures i + n <= |hl| && hl[i + n..] == rest.hl && forall k :: i <= k < i + n ==> hl[k] == c
  {
    ThenPaints(c, n, rest);
    assert hl[i + n..] == hl[i..][n..];
    forall k | i <= k < i + n
      ensures hl[k] == c
    {
      assert hl[k] == hl[i..][k - i];
    }
  }

  lemma {:induction false} InGroupSays(g: Group, k: nat, s: string, i: nat) returns (w: string)
    requires k <= |g.words| && InGroup(g, k, s, i).Some?
    ensures w in g.words && WordFits(g, s, i, w) && |w| == InGroup(g, k, s, i).value
    decreases |g.words| - k
  {
    hide WordFits;
    if WordFits(g, s, i, g.words[k]) {
      w := g.words[k];
    } else {
      w := InGroupSays(g, k + 1, s, i);
    }
  }

  /** A word that was found: its group, its text and what is behind it. */
  ghost predicate Found(l: Language, s: string, i: nat, sep: bool, g: nat, w: string) {
    && g < |l.groups|
    && w in l.groups[g].words
    && w != ""
    && StandsAt(s, i, w)
    && (l.groups[g].symbols || (sep && (i + |w| == |s| || Parts(s[i + |w|]))))
  }

  lemma {:induction false} FindWordSays(l: Language, from: nat, s: string, i: nat, sep: bool) returns (w: string)
    requires from <= |l.groups| && FindWord(l, from, s, i, sep).Some?
    ensures Found(l, s, i, sep, FindWord(l, from, s, i, sep).value.0, w)
    ensures |w| == FindWord(l, from, s, i, sep).value.1
    decreases |l.groups| - from
  {
    hide Parts, IsSeparator;
    var g := l.groups[from];
    if (g.symbols || sep) && InGroup(g, 0, s, i).Some? {
      w := InGroupSays(g, 0, s, i);
      if i + |w| < |s| {
        SeparatorParts(s[i + |w|]);
      }
    } else {
      w := FindWordSays(l, from + 1, s, i, sep);
    }
  }

  /** One token of the row: its class, its length and the state behind it. */
  datatype Step = Step(kind: Class, size: nat, sep: bool, quote: char, comment: bool)

  /** What a token tells about words: a word is found, and a word may start behind it only where a
      string or comment has ended or a separator stands. */
  ghost predicate Apart(l: Language, s: string, i: nat, sep: bool, quote: char, comment: bool, t: Step) {
    && 0 < t.size
    && i + t.size <= |s|
    && (t.kind.Keyword? ==> exists w ::
          |w| == t.size && Found(l, s, i, MayStart(l, sep, quote, comment), t.kind.group, w))
    && (MayStart(l, t.sep, t.quote, t.comment) ==>
          Parts(s[i + t.size - 1]) || t.kind == String || t.kind == BlockComment)
  }

  lemma {:induction false} PlainToken(l: Language, s: string, i: nat, sep: bool, comment: bool) returns (t: Step)
    requires i < |s| && !Quotes(l, s[i]) && !(comment && l.blockOpen != "")
    requires !comment ==> !At(s, i, l.lineComment) && !At(s, i, l.blockOpen)
    ensures Apart(l, s, i, sep, NONE, comment, t)
    ensures Scan(l, s, i, sep, NONE, comment) ==
      Then(t.kind, t.size, Scan(l, s, i + t.size, t.sep, t.quote, t.comment))
  {
    hide Then, At, FindWord, NumberEnd, Quotes, IsSeparator, Parts, Found;
    NotAtNothing(s, i, l.blockOpen);
    if IsDigit(s[i]) && sep {
      t := Step(Number, NumberEnd(s, i + 1) - i, false, NONE, comment);
    } else if FindWord(l, 0, s, i, sep).Some? {
      var g, n := FindWord(l, 0, s, i, sep).value.0, FindWord(l, 0, s, i, sep).value.1;
      var w := FindWordSays(l, 0, s, i, sep);
      t := Step(Keyword(g), n, false, NONE, comment);
      assert |w| == t.size && Found(l, s, i, MayStart(l, sep, NONE, comment), g, w);
    } else {
      SeparatorParts(s[i]);
      t := Step(Normal, 1, IsSeparator(s[i]), NONE, comment);
    }
  }

  lemma {:induction false} AnyToken(l: Language, s: string, i: nat, sep: bool, quote: char, comment: bool)
    returns (t: Step)
    requires i < |s|
    ensures Apart(l, s, i, sep, quote, comment, t)
    ensures Scan(l, s, i, sep, quote, comment) ==
      Then(t.kind, t.size, Scan(l, s, i + t.size, t.sep, t.quote, t.comment))
  {
    hide Then, At, FindWord, NumberEnd, IsSeparator, Parts, Found;
    NotAtNothing(s, i, l.blockOpen);
    if quote == NONE && !comment && At(s, i, l.lineComment) {
      FillAll(Comment, |s| - i, 0);
      t := Step(Comment, |s| - i, false, NONE, false);
    } else if quote == NONE && l.blockOpen != "" && comment {
      if At(s, i, l.blockClose) {
        AtFits(s, i, l.blockClose);
        t := Step(BlockComment, |l.blockClose|, true, NONE, false);
      } else {
        t := Step(BlockComment, 1, sep, NONE, true);
      }
    } else if quote == NONE && At(s, i, l.blockOpen) {
      AtFits(s, i, l.blockOpen);
      t := Step(BlockComment, |l.blockOpen|, sep, NONE, true);
    } else if quote != NONE {
      if s[i] == '\\' && i + 1 < |s| {
        t := Step(Escape, 2, sep, quote, comment);
      } else {
        t := Step(String, 1, true, if s[i] == quote then NONE else quote, comment);
      }
    } else if Quotes(l, s[i]) {
      t := Step(String, 1, sep, s[i], comment);
    } else {
      t := PlainToken(l, s, i, sep, comment);
    }
  }

  /** Words of the groups that are not symbols are coloured only where they stand by themselves. */
  lemma {:induction false} WordsApart(
      l: Language, s: string, hl: seq<Class>, i: nat, sep: bool, quote: char, comment: bool)
    requires |hl| == |s| && i <= |s| && hl[i..] == Scan(l, s, i, sep, quote, comment).hl
    requires MayStart(l, sep, quote, comment) ==> Before(s, hl, i)
    ensures WordsFrom(l, s, hl, i)
    decreases |s| - i
  {
    hide Scan, Then, Parts, MayStart, StandsAt;
    if i < |s| {
      var t := AnyToken(l, s, i, sep, quote, comment);
      var n := i + t.size;
      TokenAt(hl, i, Scan(l, s, i, sep, quote, comment), t.kind, t.size, Scan(l, s, n, t.sep, t.quote, t.comment));
      WordsApart(l, s, hl, n, t.sep, t.quote, t.comment);
      if t.kind.Keyword? {
        var w :| |w| == t.size && Found(l, s, i, MayStart(l, sep, quote, comment), t.kind.group, w);
        assert InWord(l, s, hl, t.kind.group, i, i, w);
        OneWord(l, s, hl, i, t.kind.group, w);
      } else {
        NoWord(l, s, hl, i, n, t.kind);
      }
    }
  }

  /** In a row, a character has the colour of a word group only inside a word of that group; one
      that is not of symbols has, before it, the start of the row, a separator or the end of a
      string or comment, and behind it a separator or the end of the row. */
  lemma {:induction false} KeywordsStandAlone(l: Language, open: int, s: string, k: nat)
    requires k < |s| && !l.html && Highlight(Some(l), open, s).hl[k].Keyword?
    ensures var hl := Highlight(Some(l), open, s).hl;
      exists a, w :: InWord(l, s, hl, hl[k].group, k, a, w)
  {
    hide Scan, InWord;
    var r := Scan(l, s, 0, true, NONE, open == 1);
    assert r.hl[0..] == r.hl;
    WordsApart(l, s, r.hl, 0, true, NONE, open == 1);
  }
}
