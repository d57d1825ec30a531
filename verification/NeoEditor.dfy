/** The editor object: its rows change in place, one method for each of neo's edits. */
module NeoEditor {

  import opened Wrappers
  import opened Libc
  import opened NeoSyntax
  import opened NeoPaint
  import opened NeoRows
  import opened NeoStale
  import opened NeoText

  function Texts(rows: seq<Row>): (r: seq<string>)
    ensures |r| == |rows|
  {
    seq(|rows|, i requires 0 <= i < |rows| => rows[i].chars)
  }

  lemma {:induction false} TextAt(rows: seq<Row>, i: nat)
    requires i < |rows|
    ensures Texts(rows)[i] == rows[i].chars
  {
  }

  lemma {:induction false} TextsOfUpdate(l: Option<Language>, rows: seq<Row>, n: nat, i: nat)
    requires i < |rows| && n <= |rows|
    ensures Texts(Update(l, rows, n, i)) == Texts(rows)
  {
    hide Update;
    UpdateKeeps(l, rows, n, i);
  }

  lemma {:induction false} TextsOfEdited(l: Option<Language>, rows: seq<Row>, i: nat, chars: string, t: Tabs)
    requires i < |rows| && t.stop > 0
    ensures |Edited(l, rows, i, chars, t)| == |rows|
    ensures Texts(Edited(l, rows, i, chars, t)) == Texts(rows)[i := chars]
  {
    hide Update;
    TextsOfUpdate(l, rows[i := Rendered(rows[i], chars, t)], |rows|, i);
  }

  lemma {:induction false} TextsOfInserted(l: Option<Language>, rows: seq<Row>, at: nat, chars: string, t: Tabs)
    requires at <= |rows| && t.stop > 0
    ensures Texts(Inserted(l, rows, at, chars, t)) == Texts(rows)[..at] + [chars] + Texts(rows)[at..]
  {
    hide Update;
    var raw := WithRow(rows, at, chars, t);
    TextsOfUpdate(l, raw, |rows|, at);
    assert Texts(raw) == Texts(rows)[..at] + [chars] + Texts(rows)[at..];
  }

  lemma {:induction false} TextsOfDeleted(rows: seq<Row>, at: nat)
    requires at < |rows|
    ensures Texts(Deleted(rows, at)) == Texts(rows)[..at] + Texts(rows)[at + 1..]
  {
  }

  /** What one character shows as. */
  function Shown(c: char, t: Tabs, col: nat): string
    requires t.stop > 0
  {
    if c == '\t' then TabText(t, col) else [c]
  }

  lemma {:induction false} ExpandStep(chars: string, j: nat, t: Tabs, r: string, whole: string)
    requires t.stop > 0 && j < |chars| && r + Expand(chars[j..], t, |r|) == whole
    ensures var s := r + Shown(chars[j], t, |r|); s + Expand(chars[j + 1..], t, |s|) == whole
  {
    hide TabText;
    assert chars[j..][1..] == chars[j + 1..];
    var first := Shown(chars[j], t, |r|);
    var s := r + first;
    assert s + Expand(chars[j + 1..], t, |s|) == r + (first + Expand(chars[j + 1..], t, |s|));
  }

  /** row_update's loop over the characters. */
  method Render(chars: string, t: Tabs) returns (r: string)
    requires t.stop > 0
    ensures r == Expand(chars, t, 0)
  {
    hide Expand, TabText;
    r := "";
    var j := 0;
    assert chars[0..] == chars && r + Expand(chars, t, 0) == Expand(chars, t, 0);
    while j < |chars|
      invariant 0 <= j <= |chars|
      invariant r + Expand(chars[j..], t, |r|) == Expand(chars, t, 0)
    {
      ExpandStep(chars, j, t, r, Expand(chars, t, 0));
      if chars[j] == '\t' {
        r := RenderTab(r, t);
      } else {
        r := r + [chars[j]];
      }
      j := j + 1;
    }
    assert chars[j..] == "";
    ExpandNone(t, |r|);
  }

  lemma {:induction false} ExpandNone(t: Tabs, col: nat)
    requires t.stop > 0
    ensures Expand("", t, col) == ""
  {
  }

  method RenderTab(r: string, t: Tabs) returns (s: string)
    requires t.stop > 0
    ensures s == r + TabText(t, |r|)
  {
    ghost var tab := TabText(t, |r|);
    s := r + [if t.show then '>' else ' '];
    while |s| % t.stop != 0
      invariant |r| < |s| <= |r| + |tab| && s == r + tab[..|s| - |r|]
      decreases |r| + |tab| - |s|
    {
      s := s + [if t.show then '.' else ' '];
    }
    NextStop(|r|, |s|, t.stop);
    assert tab[..|tab|] == tab;
  }

  class Editor {
    var rows: seq<Row>
    var numrows: nat
    var cx: nat
    var cy: nat
    var dirty: bool
    var language: Option<Language>
    const tabs: Tabs
    const autoindent: bool
    const autopairs: bool

    constructor (language: Option<Language>, tabs: Tabs, autoindent: bool, autopairs: bool)
      requires tabs.stop > 0
      ensures Valid() && Painted() && Document() == Doc([], 0, 0)
    {
      rows, numrows, cx, cy, dirty := [], 0, 0, 0, false;
      this.language, this.tabs, this.autoindent, this.autopairs := language, tabs, autoindent, autopairs;
    }

    ghost predicate Sized()
      reads this
    {
      |rows| == numrows && tabs.stop > 0
    }

    ghost function Document(): Doc
      reads this
    {
      Doc(Texts(rows), cx, cy)
    }

    ghost predicate Valid()
      reads this
    {
      Sized() && InBounds(Document())
    }

    /** The buffer looks as if painted from the top. */
    ghost predicate Painted()
      reads this
    {
      AllFresh(language, rows)
    }

    /** editor_update_syntax. */
    method UpdateSyntax(at: nat)
      requires at < |rows| && numrows <= |rows|
      modifies `rows
      ensures rows == Update(language, old(rows), numrows, at)
      decreases |rows| - at
    {
      hide Highlight;
      var before := rows[at].open;
      var hl, open := PaintRow(language, if at > 0 then rows[at - 1].open else 0, rows[at].render);
      rows := rows[at := rows[at].(hl := hl, open := open)];
      if open != before && at + 1 < numrows {
        UpdateSyntax(at + 1);
      }
    }

    /** row_update. */
    method RowUpdate(at: nat)
      requires at < |rows| && numrows <= |rows| && tabs.stop > 0
      modifies `rows
      ensures rows == Update(language, old(rows)[at := Rendered(old(rows[at]), old(rows[at].chars), tabs)], numrows, at)
    {
      hide Update, Expand;
      var render := Render(rows[at].chars, tabs);
      rows := rows[at := rows[at].(render := render)];
      UpdateSyntax(at);
    }

    /** Give row i the text s: the end of every in-row edit. */
    method SetText(i: nat, s: string)
      requires Sized() && i < |rows|
      modifies `rows, `dirty
      ensures rows == Edited(language, old(rows), i, s, tabs)
      ensures Sized() && Texts(rows) == old(Texts(rows))[i := s] && dirty
      ensures old(Painted()) ==> Painted()
    {
      hide Update, Expand, AllFresh;
      ghost var was := rows;
      rows := rows[i := rows[i].(chars := s)];
      RowUpdate(i);
      assert was[i := was[i].(chars := s)][i := Rendered(was[i].(chars := s), s, tabs)]
        == was[i := Rendered(was[i], s, tabs)];
      dirty := true;
      TextsOfEdited(language, was, i, s, tabs);
      if AllFresh(language, was) {
        EditRestores(language, was, i, s, tabs);
      }
    }

    /** row_insert_at: the row count goes up only after the new row is painted. */
    method RowInsertAt(at: nat, s: string)
      requires Sized()
      modifies `rows, `numrows, `dirty
      ensures at > old(numrows) ==> rows == old(rows) && numrows == old(numrows) && dirty == old(dirty)
      ensures at <= old(numrows) ==>
        && rows == Inserted(language, old(rows), at, s, tabs)
        && Sized() && dirty
        && Texts(rows) == old(Texts(rows))[..at] + [s] + old(Texts(rows))[at..]
        && (old(Painted()) ==>
             (Painted() <==> InsertSafe(language, old(rows), at, OpenAfter(language, old(rows), at, s, tabs))))
    {
      hide Update, Expand, AllFresh, InsertSafe, OpenAfter;
      if at > numrows {
        return;
      }
      ghost var was := rows;
      rows := rows[..at] + [BLANK.(chars := s)] + rows[at..];
      RowUpdate(at);
      assert WithRow(was, at, s, tabs)
        == (was[..at] + [BLANK.(chars := s)] + was[at..])[at := Rendered(BLANK, s, tabs)];
      numrows := numrows + 1;
      dirty := true;
      TextsOfInserted(language, was, at, s, tabs);
      InsertedSize(language, was, at, s, tabs);
      if AllFresh(language, was) {
        InsertExact(language, was, at, s, tabs);
      }
    }

    /** row_delete_at. */
    method RowDeleteAt(at: nat)
      requires Sized()
      modifies `rows, `numrows, `dirty
      ensures at >= old(numrows) ==> rows == old(rows) && numrows == old(numrows) && dirty == old(dirty)
      ensures at < old(numrows) ==>
        && rows == Deleted(old(rows), at)
        && Sized() && dirty
        && Texts(rows) == old(Texts(rows))[..at] + old(Texts(rows))[at + 1..]
        && (old(Painted()) ==> (Painted() <==> DeleteSafe(language, old(rows), at)))
    {
      hide AllFresh, DeleteSafe;
      if at >= numrows {
        return;
      }
      ghost var was := rows;
      rows := rows[..at] + rows[at + 1..];
      numrows := numrows - 1;
      dirty := true;
      TextsOfDeleted(was, at);
      if AllFresh(language, was) {
        DeleteExact(language, was, at);
      }
    }
  
    /** row_insert_char: a position outside the row means its end. */
    method RowInsertChar(i: nat, at: nat, c: char)
      requires Sized() && i < |rows|
      modifies `rows, `dirty
      ensures var line := old(rows[i].chars); var p := if at > |line| then |line| else at;
        Sized() && Texts(rows) == old(Texts(rows))[i := line[..p] + [c] + line[p..]] && dirty
      ensures old(Painted()) ==> Painted()
    {
      hide AllFresh, Edited;
      var line := rows[i].chars;
      var p := if at > |line| then |line| else at;
      SetText(i, line[..p] + [c] + line[p..]);
    }

    /** row_delete_char. */
    method RowDeleteChar(i: nat, at: nat)
      requires Sized() && i < |rows|
      modifies `rows, `dirty
      ensures var line := old(rows[i].chars);
        Sized() && Texts(rows)
          == if at < |line| then old(Texts(rows))[i := Without(line, at, at + 1)] else old(Texts(rows))
      ensures old(Painted()) ==> Painted()
    {
      hide AllFresh, Edited;
      var line := rows[i].chars;
      if at < |line| {
        SetText(i, line[..at] + line[at + 1..]);
      }
    }

    /** editor_insert_char. */
    method InsertChar(c: char)
      requires Valid()
      modifies this
      ensures Valid() && language == old(language) && Document() == TypeChar(old(Document()), c)
      ensures old(Painted()) ==> Painted()
    {
      hide AllFresh, InsertSafe, Inserted, Texts;
      ghost var d := Document();
      if cy == numrows {
        RowInsertAt(numrows, "");
        AppendSafe(language, old(rows), OpenAfter(language, old(rows), |old(rows)|, "", tabs));
        assert Texts(rows) == d.lines + [""];
      }
      TextAt(rows, cy);
      RowInsertChar(cy, cx, c);
      cx := cx + 1;
      assert Document() == TypeChar(d, c);
    }

    /** editor_insert_newline: colours stay right at column 0, and inside a row exactly when
        splitting it is safe. */
    method InsertNewline()
      requires Valid()
      modifies this
      ensures Valid() && language == old(language) && Document() == BreakLine(old(Document()), autoindent)
      ensures old(cx) == 0 && old(Painted()) ==> Painted()
      ensures old(cx) > 0 && old(Painted()) ==>
        var line, n := old(rows[cy].chars), LineIndent(old(Document()), autoindent);
        Painted() <==> SplitSafe(language, old(rows), old(cy), line[..old(cx)], line[..n] + line[old(cx)..], tabs)
    {
      hide AllFresh, InsertSafe, Inserted, Texts, SplitSafe, Edited, Indent;
      ghost var d := Document();
      if cx == 0 {
        RowInsertAt(cy, "");
        if old(Painted()) {
          BlankIsNeutral(language, old(rows), cy, tabs);
        }
        cy := cy + 1;
        return;
      }
      TextAt(rows, cy);
      var line := rows[cy].chars;
      var indent := 0;
      if autoindent {
        indent := CountIndent(line, cx);
      }
      SplitRow(cy, line[..cx], line[..indent] + line[cx..]);
      cy := cy + 1;
      cx := indent;
    }

    /** Put in the second part of row i as a row, then cut row i to the first. */
    method SplitRow(i: nat, head: string, tail: string)
      requires Sized() && i < |rows|
      modifies `rows, `numrows, `dirty
      ensures Sized() && Texts(rows) == old(Texts(rows))[..i] + [head, tail] + old(Texts(rows))[i + 1..]
      ensures old(Painted()) ==> (Painted() <==> SplitSafe(language, old(rows), i, head, tail, tabs))
    {
      hide AllFresh, InsertSafe, Inserted, Texts, SplitSafe, Edited;
      ghost var lines := Texts(rows);
      RowInsertAt(i + 1, tail);
      SetText(i, head);
      if old(Painted()) {
        SplitExact(language, old(rows), i, head, tail, tabs);
      }
      assert Texts(rows) == lines[..i] + [head, tail] + lines[i + 1..];
    }

    /** Make row i + 1 the end of row i. */
    method JoinRows(i: nat)
      requires Sized() && i + 1 < |rows|
      modifies `rows, `numrows, `dirty
      ensures Sized() && Texts(rows) == Joined(old(Texts(rows)), i)
      ensures old(Painted()) ==> (Painted() <==> MergeSafe(language, old(rows), i, tabs))
    {
      hide AllFresh, MergeSafe, Edited, Texts, DeleteSafe;
      ghost var lines := Texts(rows);
      TextAt(rows, i);
      TextAt(rows, i + 1);
      SetText(i, rows[i].chars + rows[i + 1].chars);
      RowDeleteAt(i + 1);
      if old(Painted()) {
        MergeExact(language, old(rows), i, tabs);
      }
      assert Texts(rows) == Joined(lines, i);
    }

    /** editor_delete_char. */
    method DeleteChar()
      requires Valid()
      modifies this
      ensures Valid() && language == old(language) && Document() == Backspace(old(Document()), autopairs)
      ensures old(Painted()) ==>
        var joins := old(cx) == 0 && 0 < old(cy) < old(numrows);
        (Painted() <==> (joins ==> MergeSafe(language, old(rows), old(cy) - 1, tabs)))
    {
      hide AllFresh, MergeSafe, Texts, Paired;
      ghost var d := Document();
      if cy == numrows || (cx == 0 && cy == 0) {
        return;
      }
      TextAt(rows, cy);
      var line := rows[cy].chars;
      if autopairs && cx > 0 && cx < |line| && Paired(line[cx - 1], line[cx]) {
        DeletePair();
      } else if cx > 0 {
        DeleteBack(Start(line, cx - 1));
      } else {
        TextAt(rows, cy - 1);
        cx := |rows[cy - 1].chars|;
        JoinRows(cy - 1);
        cy := cy - 1;
        JoinedAt(d.lines, cy);
      }
    }

    /** Delete the characters on both sides of the cursor. */
    method DeletePair()
      requires Valid() && cy < numrows && 0 < cx < |Texts(rows)[cy]|
      modifies `rows, `dirty, `cx
      ensures Valid() && cx == old(cx) - 1
      ensures Texts(rows) == old(Texts(rows))[cy := Without(old(Texts(rows)[cy]), old(cx) - 1, old(cx) + 1)]
      ensures old(Painted()) ==> Painted()
    {
      hide AllFresh, Texts, Without;
      ghost var lines, line := Texts(rows), Texts(rows)[cy];
      TextAt(rows, cy);
      WithoutBack(line, cx, cx + 1);
      RowDeleteChar(cy, cx);
      TextAt(rows, cy);
      WithoutIs(line, cx, cx + 1);
      RowDeleteChar(cy, cx - 1);
      cx := cx - 1;
      assert Texts(rows) == lines[cy := Without(line, cx, cx + 2)];
      WithoutIs(line, cx, cx + 2);
    }

    /** Delete byte by byte back to column `start`. */
    method DeleteBack(start: nat)
      requires Valid() && cy < numrows && start < cx
      modifies `rows, `dirty, `cx
      ensures Valid() && cx == start
      ensures Texts(rows) == old(Texts(rows))[cy := Without(old(Texts(rows)[cy]), start, old(cx))]
      ensures old(Painted()) ==> Painted()
    {
      hide AllFresh, Texts, Without;
      ghost var lines, line, end := Texts(rows), Texts(rows)[cy], cx;
      WithoutIs(line, cx, end);
      assert lines[cy := line] == lines;
      while cx > start
        invariant start <= cx <= end && Sized()
        invariant Texts(rows) == lines[cy := Without(line, cx, end)]
        invariant old(Painted()) ==> Painted()
      {
        TextAt(rows, cy);
        WithoutIs(line, cx, end);
        WithoutBack(line, cx, end);
        RowDeleteChar(cy, cx - 1);
        cx := cx - 1;
      }
      WithoutIs(line, cx, end);
    }

    /** editor_delete_char_forward. */
    method DeleteCharForward()
      requires Valid()
      modifies this
      ensures Valid() && language == old(language) && Document() == DeleteForward(old(Document()))
      ensures old(Painted()) ==>
        var joins := old(cy) + 1 < old(numrows) && old(cx) == |old(Texts(rows))[old(cy)]|;
        (Painted() <==> (joins ==> MergeSafe(language, old(rows), old(cy), tabs)))
    {
      hide AllFresh, MergeSafe, Texts;
      ghost var d := Document();
      if cy == numrows {
        return;
      }
      TextAt(rows, cy);
      if cx < |rows[cy].chars| {
        DeleteAhead();
      } else if cy + 1 < numrows {
        JoinRows(cy);
        JoinedAt(d.lines, cy);
      }
    }

    /** Delete the byte at the cursor and the continuation bytes behind it. */
    method DeleteAhead()
      requires Valid() && cy < numrows && cx < |Texts(rows)[cy]|
      modifies `rows, `dirty
      ensures Valid()
      ensures var line := old(Texts(rows)[cy]);
        Texts(rows) == old(Texts(rows))[cy := Without(line, cx, RunEnd(line, cx + 1))]
      ensures old(Painted()) ==> Painted()
    {
      hide AllFresh, Texts, RunEnd, Without;
      ghost var lines, line := Texts(rows), Texts(rows)[cy];
      TextAt(rows, cy);
      RowDeleteChar(cy, cx);
      ghost var end := cx + 1;
      TextAt(rows, cy);
      WithoutIs(line, cx, end);
      while cx < |rows[cy].chars| && Continues(rows[cy].chars[cx])
        invariant cx < end <= |line| && Sized()
        invariant Texts(rows) == lines[cy := Without(line, cx, end)] && rows[cy].chars == Without(line, cx, end)
        invariant RunEnd(line, end) == RunEnd(line, cx + 1)
        invariant old(Painted()) ==> Painted()
        decreases |line| - end
      {
        WithoutIs(line, cx, end);
        WithoutAhead(line, cx, end);
        RunStep(line, end);
        RowDeleteChar(cy, cx);
        end := end + 1;
        TextAt(rows, cy);
      }
      WithoutIs(line, cx, end);
      if end < |line| {
        WithoutAhead(line, cx, end);
      }
      RunStep(line, end);
    }

    /** editor_open's loop over the bytes read: rows are only ever put in at the end. */
    method Load(b: string)
      requires Valid()
      modifies `rows, `numrows, `dirty
      ensures Sized() && Texts(rows) == old(Texts(rows)) + Lines(b, 0)
      ensures old(Painted()) ==> Painted()
    {
      hide AllFresh, Texts, Lines, Chunks;
      var i := 0;
      ghost var lines := Texts(rows);
      while i < |b|
        invariant 0 <= i <= |b| && Sized()
        invariant Texts(rows) + Lines(b, i) == lines + Lines(b, 0)
        invariant old(Painted()) ==> Painted()
      {
        LinesStep(b, i);
        var e := FindLineEnd(b, i);
        ghost var before := Texts(rows);
        AppendChunks(b[i..e]);
        HandOn(before, Chunks(b[i..e]), Lines(b, SkipEnd(b, e)), lines + Lines(b, 0));
        i := e;
        if i < |b| && b[i] == '\r' {
          i := i + 1;
        }
        if i < |b| && b[i] == '\n' {
          i := i + 1;
        }
      }
      NoLines(b);
    }

    /** One line, in pieces of at most MAX_COLS. */
    method AppendChunks(line: string)
      requires Sized()
      modifies `rows, `numrows, `dirty
      ensures Sized() && Texts(rows) == old(Texts(rows)) + Chunks(line)
      ensures old(Painted()) ==> Painted()
    {
      hide AllFresh, Texts, Chunks;
      var rest := line;
      ghost var lines := Texts(rows);
      while |rest| > MAX_COLS
        invariant Sized()
        invariant Texts(rows) + Chunks(rest) == lines + Chunks(line)
        invariant old(Painted()) ==> Painted()
        decreases |rest|
      {
        ChunksStep(rest);
        ghost var before := Texts(rows);
        AppendRow(rest[..MAX_COLS]);
        HandOn(before, [rest[..MAX_COLS]], Chunks(rest[MAX_COLS..]), lines + Chunks(line));
        rest := rest[MAX_COLS..];
      }
      ChunksStep(rest);
      AppendRow(rest);
    }

    method AppendRow(s: string)
      requires Sized()
      modifies `rows, `numrows, `dirty
      ensures Sized() && Texts(rows) == old(Texts(rows)) + [s]
      ensures old(Painted()) ==> Painted()
    {
      hide AllFresh, Texts, InsertSafe, Inserted;
      ghost var lines := Texts(rows);
      RowInsertAt(numrows, s);
      AppendSafe(language, old(rows), OpenAfter(language, old(rows), |old(rows)|, s, tabs));
      assert lines[..|lines|] + [s] + lines[|lines|..] == lines + [s];
    }

    /** Choosing another language: every row is repainted in turn, and all come out right
        whatever colours they had. */
    method SwitchLanguage(l: Option<Language>)
      requires Valid()
      modifies `language, `rows
      ensures Valid() && language == l && Document() == old(Document())
      ensures Painted()
    {
      hide Update, Texts, Fresh;
      language := l;
      var i := 0;
      while i < numrows
        invariant 0 <= i <= numrows && language == l && Sized() && Texts(rows) == old(Texts(rows))
        invariant forall k :: 0 <= k < i ==> Fresh(language, rows, k)
      {
        UpdateReaches(language, rows, numrows, i);
        TextsOfUpdate(language, rows, numrows, i);
        UpdateSyntax(i);
        i := i + 1;
      }
    }
  }

  /** A row put in behind the last one is always safe. */
  lemma {:induction false} AppendSafe(l: Option<Language>, rows: seq<Row>, q: int)
    ensures InsertSafe(l, rows, |rows|, q)
  {
  }

  lemma {:induction false} WithoutBack(line: string, a: nat, b: nat)
    requires 0 < a <= b <= |line|
    ensures |Without(line, a, b)| >= a && Without(Without(line, a, b), a - 1, a) == Without(line, a - 1, b)
  {
  }

  lemma {:induction false} WithoutAhead(line: string, a: nat, b: nat)
    requires a <= b < |line|
    ensures a < |Without(line, a, b)| && Without(line, a, b)[a] == line[b]
    ensures Without(Without(line, a, b), a, a + 1) == Without(line, a, b + 1)
  {
  }

  lemma {:induction false} RunStep(line: string, i: nat)
    requires i <= |line|
    ensures RunEnd(line, i) == if i < |line| && Continues(line[i]) then RunEnd(line, i + 1) else i
  {
  }

  method CountIndent(line: string, limit: nat) returns (n: nat)
    requires limit <= |line|
    ensures n == Indent(line, limit)
  {
    n := 0;
    while n < limit && IsIndent(line[n])
      invariant 0 <= n <= limit
      invariant forall i :: 0 <= i < n ==> IsIndent(line[i])
    {
      n := n + 1;
    }
    ghost var m := Indent(line, limit);
    assert m < limit ==> !IsIndent(line[m]);
  }

  /** What a repaint can leave open. */
  predicate Known(l: Option<Language>, open: int) {
    match l
    case None => open == 0
    case Some(lang) => lang.html || open == 0 || open == 1
  }

  lemma {:induction false} ScanOpen(l: Language, s: string, i: nat, sep: bool, quote: char, comment: bool)
    requires i <= |s|
    ensures var open := Scan(l, s, i, sep, quote, comment).open; open == 0 || open == 1
    decreases |s| - i
  {
    hide FindWord, NumberEnd, Quotes, IsSeparator, IsDigit;
    if i < |s| {
      forall j, sp, q, c | i < j <= |s|
        ensures var open := Scan(l, s, j, sp, q, c).open; open == 0 || open == 1
      {
        ScanOpen(l, s, j, sp, q, c);
      }
    }
  }

  lemma {:induction false} HighlightKnown(l: Option<Language>, p: int, s: string)
    ensures Known(l, Highlight(l, p, s).open)
  {
    hide Scan, HtmlScan;
    if l.Some? && !l.value.html {
      ScanOpen(l.value, s, 0, true, NONE, p == 1);
    }
  }

  /** An empty row leaves open what it found open, so it can go anywhere. */
  lemma {:induction false} BlankIsNeutral(l: Option<Language>, rows: seq<Row>, at: nat, t: Tabs)
    requires at <= |rows| && t.stop > 0 && AllFresh(l, rows)
    ensures InsertSafe(l, rows, at, OpenAfter(l, rows, at, "", t))
  {
    hide Highlight;
    if at > 0 {
      FreshAt(l, rows, at - 1);
      HighlightKnown(l, OpenBefore(rows, at - 1), rows[at - 1].render);
    }
    EmptyRow(l, OpenBefore(rows, at));
    NeutralInsert(l, rows, at);
  }

  lemma {:induction false} EmptyRow(l: Option<Language>, p: int)
    requires Known(l, p)
    ensures Highlight(l, p, "").open == p
  {
  }

  method FindLineEnd(b: string, i: nat) returns (e: nat)
    requires i <= |b|
    ensures e == LineEnd(b, i)
  {
    e := i;
    while e < |b| && b[e] != '\n' && b[e] != '\r'
      invariant i <= e <= |b| && LineEnd(b, e) == LineEnd(b, i)
    {
      e := e + 1;
    }
  }

  lemma {:induction false} LinesStep(b: string, i: nat)
    requires i < |b|
    ensures var e := LineEnd(b, i); Lines(b, i) == Chunks(b[i..e]) + Lines(b, SkipEnd(b, e))
  {
  }

  lemma {:induction false} NoLines(b: string)
    ensures Lines(b, |b|) == []
  {
  }

  lemma {:induction false} ChunksStep(line: string)
    ensures |line| <= MAX_COLS ==> Chunks(line) == [line]
    ensures |line| > MAX_COLS ==> Chunks(line) == [line[..MAX_COLS]] + Chunks(line[MAX_COLS..])
  {
  }

  lemma {:induction false} HandOn(a: seq<string>, b: seq<string>, c: seq<string>, whole: seq<string>)
    requires a + (b + c) == whole
    ensures (a + b) + c == whole
  {
    assert (a + b) + c == a + (b + c);
  }
}
