/**
 What the html highlighter makes of the parts of a row, with the characters spelled out: comments,
 tags and their attributes and values, entities and text.
 */
module NeoHtmlLaws {

  import opened Wrappers
  import opened Libc
  import opened NeoSyntax
  import opened NeoPaint
  import opened NeoLaws

  predicate Letter(c: char) {
    c in "abcdefghijklmnopqrstuvwxyz" || c in "ABCDEFGHIJKLMNOPQRSTUVWXYZ"
  }

  lemma {:induction false} LetterIs(c: char)
    ensures IsAlpha(c) <==> Letter(c)
  {
  }

  /** What the name of a tag goes on with. */
  predicate InName(c: char) {
    Letter(c) || Digit(c) || c in "/!"
  }

  /** What an attribute goes on with. */
  predicate InAttr(c: char) {
    Letter(c) || Digit(c) || c in "-:"
  }

  lemma {:induction false} TagRun(s: string, i: nat, n: nat)
    requires i <= n <= |s| && (forall k :: i <= k < n ==> InName(s[k])) && (n < |s| ==> !InName(s[n]))
    ensures TagEnd(s, i) == n
    decreases n - i
  {
    hide Letter, IsAlpha, Digit, IsDigit;
    if i < |s| {
      LetterIs(s[i]);
      DigitSame(s[i]);
    }
    if i < n {
      TagRun(s, i + 1, n);
    }
  }

  lemma {:induction false} AttributeRun(s: string, i: nat, n: nat)
    requires i <= n <= |s| && (forall k :: i <= k < n ==> InAttr(s[k])) && (n < |s| ==> !InAttr(s[n]))
    ensures AttributeEnd(s, i) == n
    decreases n - i
  {
    hide Letter, IsAlpha, Digit, IsDigit;
    if i < |s| {
      LetterIs(s[i]);
      DigitSame(s[i]);
    }
    if i < n {
      AttributeRun(s, i + 1, n);
    }
  }

  // ----- in text -----

  /** The entity that starts at i ends at j: a semicolon within twelve characters, and no other
      semicolon or space before it. */
  ghost predicate Entity(s: string, i: nat, j: nat) {
    && i < j < |s|
    && j - i <= 12
    && s[i] == '&'
    && s[j] == ';'
    && forall k :: i < k < j ==> s[k] != ';' && s[k] != ' '
  }

  lemma {:induction false} EntityRun(s: string, i: nat, m: nat, j: nat)
    requires Entity(s, i, j) && i < m <= j
    ensures EntityEnd(s, i, m) == j
    decreases j - m
  {
    if m < j {
      EntityRun(s, i, m + 1, j);
    }
  }

  lemma {:induction false} EntityStops(s: string, i: nat, m: nat)
    requires i < m <= |s| && m - i <= 12 && s[i] == '&'
    requires forall k :: i < k < m ==> s[k] != ';' && s[k] != ' '
    ensures var j := EntityEnd(s, i, m); j < |s| && s[j] == ';' ==> Entity(s, i, j)
    decreases |s| - m
  {
    if m < |s| && s[m] != ';' && s[m] != ' ' && m - i < 12 {
      EntityStops(s, i, m + 1);
    }
  }

  /** An entity is an escape, with its ampersand and its semicolon. */
  lemma {:induction false} EntityPainted(s: string, i: nat, j: nat)
    requires Entity(s, i, j)
    ensures Paints(HtmlScan(s, i, 0, NONE), Escape, j - i + 1, HtmlScan(s, j + 1, 0, NONE))
  {
    hide EntityEnd, TagEnd, Then;
    EntityRun(s, i, i + 1, j);
    NoOpening(s, i);
    ThenPaints(Escape, j - i + 1, HtmlScan(s, j + 1, 0, NONE));
  }

  lemma {:induction false} NoOpening(s: string, i: nat)
    requires i < |s| && s[i] != '<'
    ensures !At(s, i, "<!--")
  {
    if i + 4 <= |s| {
      assert s[i..i + 4][0] == s[i];
    }
  }

  /** Text that starts neither a tag nor an entity is plain. */
  lemma {:induction false} TextPainted(s: string, i: nat)
    requires i < |s| && s[i] != '<' && forall j :: i < j < |s| ==> !Entity(s, i, j)
    ensures Paints(HtmlScan(s, i, 0, NONE), Normal, 1, HtmlScan(s, i + 1, 0, NONE))
  {
    hide EntityEnd, TagEnd, Then;
    NoOpening(s, i);
    if s[i] == '&' {
      EntityStops(s, i, i + 1);
    }
    ThenPaints(Normal, 1, HtmlScan(s, i + 1, 0, NONE));
  }

  /** A comment is closed at the first closing delimiter, and text goes on behind it. */
  lemma {:induction false} HtmlCommentCloses(s: string, i: nat, j: nat)
    requires i <= j && StandsAt(s, j, "-->") && forall k :: i <= k < j ==> !StandsAt(s, k, "-->")
    ensures Paints(HtmlScan(s, i, 1, NONE), BlockComment, j + 3 - i, HtmlScan(s, j + 3, 0, NONE))
    decreases j - i
  {
    hide Then, At, StandsAt;
    AtStands(s, i, "-->");
    AtStands(s, j, "-->");
    AtFits(s, j, "-->");
    if i < j {
      HtmlCommentCloses(s, i + 1, j);
      ThenPaints(BlockComment, 1, HtmlScan(s, i + 1, 1, NONE));
      var rest := HtmlScan(s, j + 3, 0, NONE);
      PaintsMore(HtmlScan(s, i, 1, NONE), BlockComment, 1, HtmlScan(s, i + 1, 1, NONE), j + 2 - i, rest);
    } else {
      ThenPaints(BlockComment, 3, HtmlScan(s, j + 3, 0, NONE));
    }
  }

  /** With no closing delimiter the comment takes the rest of the row and stays open. */
  lemma {:induction false} HtmlCommentStays(s: string, i: nat)
    requires i <= |s| && forall k :: i <= k < |s| ==> !StandsAt(s, k, "-->")
    ensures Paints(HtmlScan(s, i, 1, NONE), BlockComment, |s| - i, Painted([], 1))
    decreases |s| - i
  {
    hide Then, At, StandsAt;
    if i < |s| {
      AtStands(s, i, "-->");
      HtmlCommentStays(s, i + 1);
      ThenPaints(BlockComment, 1, HtmlScan(s, i + 1, 1, NONE));
      PaintsMore(
        HtmlScan(s, i, 1, NONE), BlockComment, 1, HtmlScan(s, i + 1, 1, NONE), |s| - i - 1, Painted([], 1));
    }
  }

  lemma {:induction false} AtStands(s: string, i: nat, word: string)
    requires word != ""
    ensures At(s, i, word) <==> StandsAt(s, i, word)
  {
  }

  lemma {:induction false} HtmlCommentOpens(s: string, i: nat)
    requires StandsAt(s, i, "<!--")
    ensures i + 4 <= |s| && Paints(HtmlScan(s, i, 0, NONE), BlockComment, 4, HtmlScan(s, i + 4, 1, NONE))
  {
    hide Then;
    AtStands(s, i, "<!--");
    ThenPaints(BlockComment, 4, HtmlScan(s, i + 4, 1, NONE));
  }

  // ----- in a tag -----

  /** A tag is coloured from its bracket to the end of its name. */
  lemma {:induction false} TagPainted(s: string, i: nat, n: nat)
    requires i < n <= |s| && s[i] == '<' && !StandsAt(s, i, "<!--")
    requires (forall k :: i < k < n ==> InName(s[k])) && (n < |s| ==> !InName(s[n]))
    ensures Paints(HtmlScan(s, i, 0, NONE), Tag, n - i, HtmlScan(s, n, 2, NONE))
  {
    hide TagEnd, EntityEnd, Then, InName;
    TagRun(s, i + 1, n);
    ThenPaints(Tag, n - i, HtmlScan(s, n, 2, NONE));
  }

  lemma {:induction false} AttributePainted(s: string, i: nat, n: nat)
    requires i < n <= |s| && Letter(s[i])
    requires (forall k :: i < k < n ==> InAttr(s[k])) && (n < |s| ==> !InAttr(s[n]))
    ensures Paints(HtmlScan(s, i, 2, NONE), Attribute, n - i, HtmlScan(s, n, 2, NONE))
  {
    hide AttributeEnd, Then, InAttr, IsAlpha, Letter;
    LetterIs(s[i]);
    NoLetters();
    AttributeRun(s, i + 1, n);
    ThenPaints(Attribute, n - i, HtmlScan(s, n, 2, NONE));
  }

  lemma {:induction false} NoLetters()
    ensures !Letter('"') && !Letter('\'') && !Letter('>')
  {
    LetterIs('"');
    LetterIs('\'');
    LetterIs('>');
  }

  /** A value is string from its quote to the same quote again. */
  lemma {:induction false} ValuePainted(s: string, i: nat, n: nat)
    requires i < n < |s| && (s[i] == '"' || s[i] == '\'') && s[n] == s[i] && forall k :: i < k < n ==> s[k] != s[i]
    ensures Paints(HtmlScan(s, i, 2, NONE), String, n + 1 - i, HtmlScan(s, n + 1, 2, NONE))
  {
    hide Then, AttributeEnd;
    ValueRuns(s, i + 1, n, s[i]);
    ThenPaints(String, 1, HtmlScan(s, i + 1, 2, s[i]));
    var rest := HtmlScan(s, n + 1, 2, NONE);
    PaintsMore(HtmlScan(s, i, 2, NONE), String, 1, HtmlScan(s, i + 1, 2, s[i]), n - i, rest);
  }

  lemma {:induction false} ValueRuns(s: string, i: nat, n: nat, q: char)
    requires i <= n < |s| && q != NONE && s[n] == q && forall k :: i <= k < n ==> s[k] != q
    ensures Paints(HtmlScan(s, i, 2, q), String, n + 1 - i, HtmlScan(s, n + 1, 2, NONE))
    decreases n - i
  {
    hide Then, AttributeEnd;
    var rest := HtmlScan(s, n + 1, 2, NONE);
    if i < n {
      ValueRuns(s, i + 1, n, q);
      ThenPaints(String, 1, HtmlScan(s, i + 1, 2, q));
      PaintsMore(HtmlScan(s, i, 2, q), String, 1, HtmlScan(s, i + 1, 2, q), n - i, rest);
    } else {
      ThenPaints(String, 1, rest);
    }
  }

  /** The closing bracket is the tag's, and text goes on behind it; what is neither attribute, value
      nor bracket is plain. */
  lemma {:induction false} InTagPainted(s: string, i: nat)
    requires i < |s| && s[i] != '"' && s[i] != '\'' && !Letter(s[i])
    ensures s[i] == '>' ==> Paints(HtmlScan(s, i, 2, NONE), Tag, 1, HtmlScan(s, i + 1, 0, NONE))
    ensures s[i] != '>' ==> Paints(HtmlScan(s, i, 2, NONE), Normal, 1, HtmlScan(s, i + 1, 2, NONE))
  {
    hide Then, AttributeEnd, IsAlpha, Letter;
    LetterIs(s[i]);
    if s[i] == '>' {
      ThenPaints(Tag, 1, HtmlScan(s, i + 1, 0, NONE));
    } else {
      ThenPaints(Normal, 1, HtmlScan(s, i + 1, 2, NONE));
    }
  }
}
