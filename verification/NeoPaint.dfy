/** The highlighters as loops over a class array, and what they guarantee about comments. */
module NeoPaint {

  import opened Wrappers
  import opened Libc
  import opened NeoSyntax

  /** memset over part of the array. */
  method Paint(hl: array<Class>, i: nat, n: nat, c: Class)
    requires i + n <= hl.Length
    modifies hl
    ensures hl[..i] == old(hl[..i]) && hl[i..i + n] == Fill(c, n) && hl[i + n..] == old(hl[i + n..])
  {
    var k := 0;
    while k < n
      invariant 0 <= k <= n
      invariant hl[..i] == old(hl[..i]) && hl[i + n..] == old(hl[i + n..])
      invariant forall j :: i <= j < i + k ==> hl[j] == c
    {
      hl[i + k] := c;
      k := k + 1;
    }
  }

  /** Everything from i on is still as cleared. */
  ghost predicate ClearFrom(hl: seq<Class>, i: nat) {
    i <= |hl| && hl[i..] == Fill(Normal, |hl| - i)
  }

  /** The part before i is done: with the rest it is the whole. */
  ghost predicate DoneTo(hl: seq<Class>, i: nat, rest: Painted, whole: Painted) {
    i <= |hl| && Painted(hl[..i] + rest.hl, rest.open) == whole
  }

  lemma {:induction false} Advance(
      before: seq<Class>, hl: seq<Class>, i: nat, n: nat, c: Class, rest: Painted, whole: Painted)
    requires i + n <= |hl| == |before| && hl[..i] == before[..i] && hl[i..i + n] == Fill(c, n)
    requires DoneTo(before, i, Then(c, n, rest), whole)
    ensures DoneTo(hl, i + n, rest, whole)
  {
    assert hl[..i + n] == hl[..i] + hl[i..i + n];
    assert hl[..i + n] + rest.hl == hl[..i] + (hl[i..i + n] + rest.hl);
  }

  lemma {:induction false} StillClear(before: seq<Class>, hl: seq<Class>, i: nat, n: nat)
    requires i + n <= |hl| == |before| && hl[i + n..] == before[i + n..] && ClearFrom(before, i)
    ensures ClearFrom(hl, i + n)
  {
    assert before[i + n..] == before[i..][n..];
  }

  lemma {:induction false} ClearRun(hl: seq<Class>, i: nat, n: nat)
    requires i + n <= |hl| && ClearFrom(hl, i)
    ensures hl[i..i + n] == Fill(Normal, n)
  {
    assert hl[i..i + n] == hl[i..][..n];
  }

  /** One token: class it, step over it. */
  method Token(
      hl: array<Class>, i: nat, n: nat, c: Class, ghost rest: Painted, ghost whole: Painted)
    returns (next: nat)
    requires i + n <= hl.Length && ClearFrom(hl[..], i) && DoneTo(hl[..], i, Then(c, n, rest), whole)
    modifies hl
    ensures next == i + n && ClearFrom(hl[..], next) && DoneTo(hl[..], next, rest, whole)
  {
    hide Then, DoneTo, ClearFrom;
    ghost var before := hl[..];
    assert before[..i] == hl[..i] && before[i + n..] == hl[i + n..];
    Paint(hl, i, n, c);
    assert hl[..][..i] == hl[..i] && hl[..][i..i + n] == hl[i..i + n] && hl[..][i + n..] == hl[i + n..];
    Advance(before, hl[..], i, n, c, rest, whole);
    StillClear(before, hl[..], i, n);
    next := i + n;
  }

  /** The search through the groups and their words. */
  method MatchWord(l: Language, s: string, i: nat, sep: bool) returns (r: Option<(nat, nat)>)
    requires i < |s|
    ensures r == FindWord(l, 0, s, i, sep)
  {
    hide WordFits;
    r := None;
    var g := 0;
    while g < |l.groups|
      invariant 0 <= g <= |l.groups|
      invariant FindWord(l, g, s, i, sep) == FindWord(l, 0, s, i, sep)
    {
      if l.groups[g].symbols || sep {
        var k := 0;
        while k < |l.groups[g].words|
          invariant 0 <= k <= |l.groups[g].words|
          invariant InGroup(l.groups[g], k, s, i) == InGroup(l.groups[g], 0, s, i)
        {
          if WordFits(l.groups[g], s, i, l.groups[g].words[k]) {
            return Some((g, |l.groups[g].words[k]|));
          }
          k := k + 1;
        }
      }
      g := g + 1;
    }
  }

  method ScanNumber(s: string, i: nat) returns (n: nat)
    requires i <= |s|
    ensures n == NumberEnd(s, i)
  {
    n := i;
    while n < |s| && InNumber(s[n])
      invariant i <= n <= |s| && NumberEnd(s, n) == NumberEnd(s, i)
    {
      n := n + 1;
    }
  }

  /** Outside comments and strings: a number, a word or one plain character. */
  method PaintPlain(l: Language, s: string, i: nat, sep: bool, comment: bool, hl: array<Class>, ghost whole: Painted)
    returns (next: nat, sepAfter: bool)
    requires hl.Length == |s| && i < |s| && ClearFrom(hl[..], i)
    requires DoneTo(hl[..], i, Scan(l, s, i, sep, NONE, comment), whole)
    requires !Quotes(l, s[i]) && !(comment && l.blockOpen != "")
    requires !comment ==> !At(s, i, l.lineComment) && !At(s, i, l.blockOpen)
    modifies hl
    ensures i < next <= |s| && ClearFrom(hl[..], next)
    ensures DoneTo(hl[..], next, Scan(l, s, next, sepAfter, NONE, comment), whole)
  {
    hide Then, DoneTo, ClearFrom, At, FindWord, NumberEnd, Quotes, IsSeparator;
    NotAtNothing(s, i, l.blockOpen);
    if IsDigit(s[i]) && sep {
      var n := ScanNumber(s, i + 1);
      next := Token(hl, i, n - i, Number, Scan(l, s, n, false, NONE, comment), whole);
      return next, false;
    }
    var word := MatchWord(l, s, i, sep);
    if word.Some? {
      var rest := i + word.value.1;
      next := Token(hl, i, word.value.1, Keyword(word.value.0), Scan(l, s, rest, false, NONE, comment), whole);
      return next, false;
    }
    sepAfter := IsSeparator(s[i]);
    PassOver(hl[..], i, Scan(l, s, i + 1, sepAfter, NONE, comment), whole);
    next := i + 1;
  }

  /** hl_generic on a cleared class array. */
  method PaintGeneric(l: Language, s: string, open: int, hl: array<Class>) returns (out: int)
    requires hl.Length == |s| && ClearFrom(hl[..], 0)
    modifies hl
    ensures Painted(hl[..], out) == Scan(l, s, 0, true, NONE, open == 1)
  {
    hide Then, DoneTo, ClearFrom, At, FindWord, NumberEnd, Quotes, IsSeparator;
    var i, sep, quote, comment := 0, true, NONE, open == 1;
    ghost var whole := Scan(l, s, 0, true, NONE, comment);
    DoneNothing(hl[..], whole);
    while i < |s|
      invariant 0 <= i <= |s|
      invariant ClearFrom(hl[..], i)
      invariant DoneTo(hl[..], i, Scan(l, s, i, sep, quote, comment), whole)
    {
      if quote == NONE && !comment && At(s, i, l.lineComment) {
        FillAll(Comment, |s| - i, 0);
        i := Token(hl, i, |s| - i, Comment, Painted([], 0), whole);
        break;
      }
      if quote == NONE && l.blockOpen != "" {
        if comment {
          if At(s, i, l.blockClose) {
            AtFits(s, i, l.blockClose);
            i := Token(hl, i, |l.blockClose|, BlockComment, Scan(l, s, i + |l.blockClose|, true, NONE, false), whole);
            comment, sep := false, true;
          } else {
            i := Token(hl, i, 1, BlockComment, Scan(l, s, i + 1, sep, NONE, true), whole);
          }
          continue;
        } else if At(s, i, l.blockOpen) {
          AtFits(s, i, l.blockOpen);
          i := Token(hl, i, |l.blockOpen|, BlockComment, Scan(l, s, i + |l.blockOpen|, sep, NONE, true), whole);
          comment := true;
          continue;
        }
      }
      NotAtNothing(s, i, l.blockOpen);
      if quote != NONE {
        if s[i] == '\\' && i + 1 < |s| {
          i := Token(hl, i, 2, Escape, Scan(l, s, i + 2, sep, quote, comment), whole);
          continue;
        }
        var after := if s[i] == quote then NONE else quote;
        i := Token(hl, i, 1, String, Scan(l, s, i + 1, true, after, comment), whole);
        quote, sep := after, true;
        continue;
      } else if Quotes(l, s[i]) {
        QuoteIsOne(l, s[i]);
        var c := s[i];
        i := Token(hl, i, 1, String, Scan(l, s, i + 1, sep, c, comment), whole);
        quote := c;
        continue;
      }
      i, sep := PaintPlain(l, s, i, sep, comment, hl, whole);
    }
    out := if comment then 1 else 0;
    DoneAll(hl[..], Painted([], out), whole);
  }

  lemma {:induction false} DoneNothing(hl: seq<Class>, whole: Painted)
    ensures DoneTo(hl, 0, whole, whole)
  {
    assert hl[..0] + whole.hl == whole.hl;
  }

  lemma {:induction false} DoneAll(hl: seq<Class>, end: Painted, whole: Painted)
    requires DoneTo(hl, |hl|, end, whole) && end.hl == []
    ensures Painted(hl, end.open) == whole
  {
    assert hl[..|hl|] + [] == hl;
  }

  lemma {:induction false} FillAll(c: Class, n: nat, open: int)
    ensures Then(c, n, Painted([], open)) == Painted(Fill(c, n), open)
  {
  }

  lemma {:induction false} AtFits(s: string, i: nat, word: string)
    requires At(s, i, word)
    ensures word != "" && i + |word| <= |s|
  {
  }

  lemma {:induction false} NotAtNothing(s: string, i: nat, word: string)
    ensures word == "" ==> !At(s, i, word)
  {
  }

  lemma {:induction false} QuoteIsOne(l: Language, c: char)
    requires Quotes(l, c)
    ensures c != NONE
  {
  }

  /** A character that keeps its class. */
  lemma {:induction false} PassOver(hl: seq<Class>, i: nat, rest: Painted, whole: Painted)
    requires i < |hl| && ClearFrom(hl, i) && DoneTo(hl, i, Then(Normal, 1, rest), whole)
    ensures ClearFrom(hl, i + 1) && DoneTo(hl, i + 1, rest, whole)
  {
    hide Then, DoneTo, ClearFrom;
    ClearRun(hl, i, 1);
    Advance(hl, hl, i, 1, Normal, rest, whole);
    StillClear(hl, hl, i, 1);
  }

  // ----- html -----

  method ScanTag(s: string, i: nat) returns (n: nat)
    requires i <= |s|
    ensures n == TagEnd(s, i)
  {
    n := i;
    while n < |s| && InTagName(s[n])
      invariant i <= n <= |s| && TagEnd(s, n) == TagEnd(s, i)
    {
      n := n + 1;
    }
  }

  method ScanAttribute(s: string, i: nat) returns (n: nat)
    requires i <= |s|
    ensures n == AttributeEnd(s, i)
  {
    n := i;
    while n < |s| && InAttribute(s[n])
      invariant i <= n <= |s| && AttributeEnd(s, n) == AttributeEnd(s, i)
    {
      n := n + 1;
    }
  }

  method ScanEntity(s: string, i: nat) returns (j: nat)
    requires i < |s|
    ensures j == EntityEnd(s, i, i + 1)
  {
    j := i + 1;
    while j < |s| && s[j] != ';' && s[j] != ' ' && j - i < 12
      invariant i < j <= |s| && EntityEnd(s, i, j) == EntityEnd(s, i, i + 1)
    {
      j := j + 1;
    }
  }

  /** In text: a comment, a tag, an entity or one plain character. */
  method PaintText(
      s: string, i: nat, hl: array<Class>, quote: char, ghost whole: Painted)
    returns (next: nat, state: int)
    requires hl.Length == |s| && i < |s| && ClearFrom(hl[..], i)
    requires DoneTo(hl[..], i, HtmlScan(s, i, 0, quote), whole)
    modifies hl
    ensures i < next <= |s| && ClearFrom(hl[..], next)
    ensures DoneTo(hl[..], next, HtmlScan(s, next, state, quote), whole)
  {
    hide Then, DoneTo, ClearFrom, At, TagEnd, EntityEnd;
    if At(s, i, "<!--") {
      AtFits(s, i, "<!--");
      next := Token(hl, i, 4, BlockComment, HtmlScan(s, i + 4, 1, quote), whole);
      return next, 1;
    }
    if s[i] == '<' {
      var n := ScanTag(s, i + 1);
      next := Token(hl, i, n - i, Tag, HtmlScan(s, n, 2, quote), whole);
      return next, 2;
    }
    if s[i] == '&' {
      var j := ScanEntity(s, i);
      if j < |s| && s[j] == ';' {
        next := Token(hl, i, j - i + 1, Escape, HtmlScan(s, j + 1, 0, quote), whole);
        return next, 0;
      }
    }
    PassOver(hl[..], i, HtmlScan(s, i + 1, 0, quote), whole);
    return i + 1, 0;
  }

  /** Inside a tag. */
  method PaintTag(s: string, i: nat, hl: array<Class>, state: int, quote: char, ghost whole: Painted)
    returns (next: nat, stateAfter: int, quoteAfter: char)
    requires hl.Length == |s| && i < |s| && state != 0 && state != 1 && ClearFrom(hl[..], i)
    requires DoneTo(hl[..], i, HtmlScan(s, i, state, quote), whole)
    modifies hl
    ensures i < next <= |s| && ClearFrom(hl[..], next)
    ensures DoneTo(hl[..], next, HtmlScan(s, next, stateAfter, quoteAfter), whole)
  {
    hide Then, DoneTo, ClearFrom, AttributeEnd;
    stateAfter, quoteAfter := state, quote;
    if quote != NONE {
      if s[i] == quote {
        quoteAfter := NONE;
      }
      next := Token(hl, i, 1, String, HtmlScan(s, i + 1, state, quoteAfter), whole);
    } else if s[i] == '"' || s[i] == '\'' {
      quoteAfter := s[i];
      next := Token(hl, i, 1, String, HtmlScan(s, i + 1, state, quoteAfter), whole);
    } else if s[i] == '>' {
      stateAfter := 0;
      next := Token(hl, i, 1, Tag, HtmlScan(s, i + 1, 0, quote), whole);
    } else if IsAlpha(s[i]) {
      var n := ScanAttribute(s, i + 1);
      next := Token(hl, i, n - i, Attribute, HtmlScan(s, n, state, quote), whole);
    } else {
      PassOver(hl[..], i, HtmlScan(s, i + 1, state, quote), whole);
      next := i + 1;
    }
  }

  /** hl_html on a cleared class array. */
  method PaintHtml(s: string, open: int, hl: array<Class>) returns (state: int)
    requires hl.Length == |s| && ClearFrom(hl[..], 0)
    modifies hl
    ensures Painted(hl[..], state) == HtmlScan(s, 0, open, NONE)
  {
    hide Then, DoneTo, ClearFrom, At;
    var i, quote := 0, NONE;
    state := open;
    ghost var whole := HtmlScan(s, 0, open, NONE);
    DoneNothing(hl[..], whole);
    while i < |s|
      invariant 0 <= i <= |s|
      invariant ClearFrom(hl[..], i)
      invariant DoneTo(hl[..], i, HtmlScan(s, i, state, quote), whole)
    {
      if state == 1 {
        if At(s, i, "-->") {
          AtFits(s, i, "-->");
          i := Token(hl, i, 3, BlockComment, HtmlScan(s, i + 3, 0, quote), whole);
          state := 0;
        } else {
          i := Token(hl, i, 1, BlockComment, HtmlScan(s, i + 1, 1, quote), whole);
        }
      } else if state == 0 {
        i, state := PaintText(s, i, hl, quote, whole);
      } else {
        i, state, quote := PaintTag(s, i, hl, state, quote, whole);
      }
    }
    DoneAll(hl[..], Painted([], state), whole);
  }

  /** The highlighting of one row, as editor_update_syntax chooses it. */
  method PaintRow(l: Option<Language>, open: int, s: string) returns (hl: seq<Class>, out: int)
    ensures Painted(hl, out) == Highlight(l, open, s)
  {
    hide Scan, HtmlScan;
    var a := new Class[|s|](_ => Normal);
    assert a[..] == Fill(Normal, |s|) && a[..][0..] == a[..];
    match l {
      case None => out := 0;
      case Some(lang) =>
        if lang.html {
          out := PaintHtml(s, open, a);
        } else {
          out := PaintGeneric(lang, s, open, a);
        }
    }
    hl := a[..];
  }

  // ----- comments that span rows -----

  /** The closing delimiter does not stand at any position from i up to j. */
  ghost predicate NotBefore(s: string, i: nat, j: nat, close: string) {
    forall k :: i <= k < j ==> !At(s, k, close)
  }

  lemma {:induction false} FillMore(c: Class, n: nat, rest: Painted)
    ensures Then(c, 1, Then(c, n, rest)) == Then(c, n + 1, rest)
  {
    assert Fill(c, 1) + (Fill(c, n) + rest.hl) == Fill(c, n + 1) + rest.hl;
  }

  /** In a comment every character is comment up to and with the first closing delimiter, and
      from there on the row is coloured like a row of its own. */
  lemma {:induction false} CommentRunsToClose(l: Language, s: string, i: nat, j: nat, sep: bool)
    requires i <= j && At(s, j, l.blockClose) && NotBefore(s, i, j, l.blockClose) && l.blockOpen != ""
    ensures var n := j + |l.blockClose|;
      Scan(l, s, i, sep, NONE, true) == Then(BlockComment, n - i, Scan(l, s, n, true, NONE, false))
    decreases j - i
  {
    hide Then, At, FindWord, NumberEnd, Quotes, IsSeparator, IsDigit;
    AtFits(s, j, l.blockClose);
    if i < j {
      assert !At(s, i, l.blockClose);
      CommentRunsToClose(l, s, i + 1, j, sep);
      var n := j + |l.blockClose|;
      FillMore(BlockComment, n - i - 1, Scan(l, s, n, true, NONE, false));
    }
  }

  /** With no closing delimiter in the row, all of it is comment and the comment stays open. */
  lemma {:induction false} CommentStaysOpen(l: Language, s: string, i: nat, sep: bool)
    requires i <= |s| && NotBefore(s, i, |s|, l.blockClose) && l.blockOpen != ""
    ensures Scan(l, s, i, sep, NONE, true) == Painted(Fill(BlockComment, |s| - i), 1)
    decreases |s| - i
  {
    hide Then;
    FillAll(BlockComment, |s| - i, 1);
    if i < |s| {
      CommentStaysOpen(l, s, i + 1, sep);
      FillAll(BlockComment, |s| - i - 1, 1);
      FillMore(BlockComment, |s| - i - 1, Painted([], 1));
    }
  }
}
