/** Buffers on which a line break, and joining two lines, leave a row with wrong colours. */
module NeoWitness {

  import opened Wrappers
  import opened Libc
  import opened NeoSyntax
  import opened NeoPaint
  import opened NeoRows
  import opened NeoStale

  /** Block comments as in C, and nothing else. */
  const C: Language := Language(false, "", "/*", "*/", false, false, [])
  const LANG: Option<Language> := Some(C)
  const TABS: Tabs := Tabs(4, false)

  /** An open comment whose last byte looks like the end of a closing delimiter. */
  lemma {:induction false} OpensComment()
    ensures Highlight(LANG, 0, "/*/") == Painted(Fill(BlockComment, 3), 1)
  {
    var s := "/*/";
    assert At(s, 0, C.blockOpen) by {
      assert s[0..2] == "/*";
    }
    CommentStaysOpen(C, s, 2, true);
    assert Fill(BlockComment, 2) + Fill(BlockComment, 1) == Fill(BlockComment, 3);
  }

  /** A closing delimiter closes an open comment and is plain text otherwise. */
  lemma {:induction false} Closes()
    ensures Highlight(LANG, 1, "*/").open == 0
    ensures Highlight(LANG, 0, "*/").open == 0
  {
    var s := "*/";
    assert At(s, 0, C.blockClose) by {
      assert s[0..2] == "*/";
    }
    CommentRunsToClose(C, s, 0, 0, true);
    assert !At(s, 0, C.blockOpen) && !At(s, 1, C.blockOpen);
    Plain(s, 0, true);
    Plain(s, 1, IsSeparator('*'));
  }

  /** A character that starts nothing keeps the row going. */
  lemma {:induction false} Plain(s: string, i: nat, sep: bool)
    requires i < |s| && !At(s, i, C.blockOpen) && s[i] != '"' && !IsDigit(s[i])
    ensures Scan(C, s, i, sep, NONE, false) == Then(Normal, 1, Scan(C, s, i + 1, IsSeparator(s[i]), NONE, false))
  {
  }

  lemma {:induction false} Slash()
    ensures Highlight(LANG, 0, "/").open == 0
  {
    Plain("/", 0, true);
  }

  /** One plain letter looks different inside a comment. */
  lemma {:induction false} LetterDiffers()
    ensures Highlight(LANG, 1, "x") == Painted([BlockComment], 1)
    ensures !Same(LANG, 1, 0, "x")
  {
    CommentStaysOpen(C, "x", 0, true);
    assert Fill(BlockComment, 1) == [BlockComment];
    Plain("x", 0, true);
    var p := Highlight(LANG, 0, "x");
    assert p.hl[0] == Normal;
  }

  const OPENING: Row := Row("/*/", "/*/", Fill(BlockComment, 3), 1)
  const LETTER: Row := Row("x", "x", [BlockComment], 1)

  lemma {:induction false} StartsFresh()
    ensures AllFresh(LANG, [OPENING, LETTER])
  {
    hide Scan;
    OpensComment();
    LetterDiffers();
    var rows := [OPENING, LETTER];
    assert Fresh(LANG, rows, 0) && Fresh(LANG, rows, 1);
  }

  /** Breaking the line between the slash and the star: the row below still looks like comment,
      though no comment is open any more. */
  lemma {:induction false} SplitCanFail()
    ensures AllFresh(LANG, [OPENING, LETTER])
    ensures !AllFresh(LANG, Split(LANG, [OPENING, LETTER], 0, "/", "*/", TABS))
  {
    hide Highlight, AllFresh, Inserted, Split;
    StartsFresh();
    Closes();
    LetterDiffers();
    Slash();
    var rows := [OPENING, LETTER];
    SplitExact(LANG, rows, 0, "/", "*/", TABS);
    ExpandPlain("*/", TABS, 0);
    ExpandPlain("/", TABS, 0);
    assert OpenAfter(LANG, rows, 1, "*/", TABS) == 0;
    assert !InsertSafe(LANG, rows, 1, 0);
  }

  const SLASH: Row := Row("/", "/", [Normal], 0)
  const CLOSING: Row := Row("*/", "*/", [Normal, Normal], 0)
  const PLAIN: Row := Row("x", "x", [Normal], 0)

  /** Outside a comment all three are plain text. */
  lemma {:induction false} OneIsPlain(s: string)
    requires s == "/" || s == "x"
    ensures Highlight(LANG, 0, s) == Painted([Normal], 0)
  {
    Plain(s, 0, true);
    assert Fill(Normal, 1) == [Normal];
  }

  lemma {:induction false} CloseIsPlain()
    ensures Highlight(LANG, 0, "*/") == Painted([Normal, Normal], 0)
  {
    assert !At("*/", 0, C.blockOpen) && !At("*/", 1, C.blockOpen);
    Plain("*/", 0, true);
    Plain("*/", 1, IsSeparator('*'));
    assert Fill(Normal, 1) == [Normal];
  }

  lemma {:induction false} StartsPlain()
    ensures AllFresh(LANG, [SLASH, CLOSING, PLAIN])
  {
    hide Highlight;
    var rows := [SLASH, CLOSING, PLAIN];
    OneIsPlain("/");
    CloseIsPlain();
    OneIsPlain("x");
    assert Fresh(LANG, rows, 0) && Fresh(LANG, rows, 1) && Fresh(LANG, rows, 2);
  }

  /** Joining a slash with a closing delimiter opens a comment, and the row below does not know. */
  lemma {:induction false} MergeCanFail()
    ensures AllFresh(LANG, [SLASH, CLOSING, PLAIN])
    ensures !AllFresh(LANG, Merged(LANG, [SLASH, CLOSING, PLAIN], 0, TABS))
  {
    hide Highlight, AllFresh, Merged;
    var rows := [SLASH, CLOSING, PLAIN];
    StartsPlain();
    MergeExact(LANG, rows, 0, TABS);
    assert rows[0].chars + rows[1].chars == "/*/";
    ExpandPlain("/*/", TABS, 0);
    OpensComment();
    Closes();
    LetterDiffers();
  }
}
