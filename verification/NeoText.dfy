/**
 neo's edits on the lines of a buffer with a cursor, and the one text those lines stand for:
 every edit is an insertion or a deletion in that text at the cursor's offset.
 */
module NeoText {

  /** The cursor is at column cx of line cy; cy may be one past the last line. */
  datatype Doc = Doc(lines: seq<string>, cx: nat, cy: nat)

  predicate InBounds(d: Doc) {
    d.cy <= |d.lines| && d.cx <= if d.cy < |d.lines| then |d.lines[d.cy]| else 0
  }

  /** rows_to_string. */
  function Flat(lines: seq<string>): string {
    if lines == [] then "" else lines[0] + "\n" + Flat(lines[1..])
  }

  function Offset(d: Doc): nat
    requires d.cy <= |d.lines|
  {
    |Flat(d.lines[..d.cy])| + d.cx
  }

  function SetLine(d: Doc, line: string): Doc
    requires d.cy < |d.lines|
  {
    d.(lines := d.lines[d.cy := line])
  }

  // ----- the edits -----

  function TypeChar(d: Doc, c: char): Doc
    requires InBounds(d)
  {
    var e := if d.cy == |d.lines| then d.(lines := d.lines + [""]) else d;
    var line := e.lines[e.cy];
    SetLine(e, line[..e.cx] + [c] + line[e.cx..]).(cx := e.cx + 1)
  }

  predicate IsIndent(c: char) {
    c == ' ' || c == '\t'
  }

  /** How many leading blanks, at most `limit`. */
  function Indent(line: string, limit: nat): (r: nat)
    requires limit <= |line|
    ensures r <= limit
    ensures forall i :: 0 <= i < r ==> IsIndent(line[i])
    ensures r < limit ==> !IsIndent(line[r])
  {
    if limit == 0 then 0
    else
      var r := Indent(line, limit - 1);
      if r == limit - 1 && IsIndent(line[r]) then limit else r
  }

  function LineIndent(d: Doc, auto: bool): (r: nat)
    requires InBounds(d)
    ensures r <= d.cx
  {
    if auto && d.cx > 0 then Indent(d.lines[d.cy], d.cx) else 0
  }

  function BreakLine(d: Doc, auto: bool): Doc
    requires InBounds(d)
  {
    if d.cx == 0 then Doc(d.lines[..d.cy] + [""] + d.lines[d.cy..], 0, d.cy + 1)
    else
      var line, n := d.lines[d.cy], LineIndent(d, auto);
      Doc(d.lines[..d.cy] + [line[..d.cx], line[..n] + line[d.cx..]] + d.lines[d.cy + 1..], n, d.cy + 1)
  }

  /** A UTF-8 continuation byte. */
  predicate Continues(c: char) {
    0x80 <= c as int < 0xC0
  }

  /** The start of the character that ends with byte i. */
  function Start(line: string, i: nat): (s: nat)
    requires i < |line|
    ensures s <= i && (s == 0 || !Continues(line[s]))
    ensures forall k :: s < k <= i ==> Continues(line[k])
  {
    if i > 0 && Continues(line[i]) then Start(line, i - 1) else i
  }

  /** The end of the run of continuation bytes that starts at i. */
  function RunEnd(line: string, i: nat): (e: nat)
    requires i <= |line|
    ensures i <= e <= |line| && (e == |line| || !Continues(line[e]))
    ensures forall k :: i <= k < e ==> Continues(line[k])
    decreases |line| - i
  {
    if i < |line| && Continues(line[i]) then RunEnd(line, i + 1) else i
  }

  predicate Paired(p: char, n: char) {
    || (p == '(' && n == ')') || (p == '[' && n == ']') || (p == '{' && n == '}')
    || (p == n && (p == '"' || p == '\'' || p == '`'))
  }

  predicate BetweenPair(d: Doc, pairs: bool)
    requires d.cy < |d.lines|
  {
    var line := d.lines[d.cy];
    pairs && 0 < d.cx < |line| && Paired(line[d.cx - 1], line[d.cx])
  }

  /** The line without its bytes from a to b. */
  function Without(line: string, a: nat, b: nat): string
    requires a <= b <= |line|
  {
    line[..a] + line[b..]
  }

  /** Line i and the next made one. */
  function Joined(lines: seq<string>, i: nat): seq<string>
    requires i + 1 < |lines|
  {
    lines[..i] + [lines[i] + lines[i + 1]] + lines[i + 2..]
  }

  function Backspace(d: Doc, pairs: bool): Doc
    requires InBounds(d)
  {
    if d.cy == |d.lines| || (d.cx == 0 && d.cy == 0) then d
    else if BetweenPair(d, pairs) then SetLine(d, Without(d.lines[d.cy], d.cx - 1, d.cx + 1)).(cx := d.cx - 1)
    else if d.cx > 0 then
      var s := Start(d.lines[d.cy], d.cx - 1);
      SetLine(d, Without(d.lines[d.cy], s, d.cx)).(cx := s)
    else Doc(Joined(d.lines, d.cy - 1), |d.lines[d.cy - 1]|, d.cy - 1)
  }

  function DeleteForward(d: Doc): Doc
    requires InBounds(d)
  {
    if d.cy == |d.lines| then d
    else if d.cx < |d.lines[d.cy]| then
      SetLine(d, Without(d.lines[d.cy], d.cx, RunEnd(d.lines[d.cy], d.cx + 1)))
    else if d.cy + 1 < |d.lines| then d.(lines := Joined(d.lines, d.cy))
    else d
  }

  // ----- the flat text -----

  lemma {:induction false} FlatAppend(a: seq<string>, b: seq<string>)
    ensures Flat(a + b) == Flat(a) + Flat(b)
    decreases |a|
  {
    if a == [] {
      assert a + b == b;
    } else {
      FlatAppend(a[1..], b);
      assert (a + b)[1..] == a[1..] + b;
      assert Flat(a + b) == a[0] + "\n" + (Flat(a[1..]) + Flat(b));
    }
  }

  lemma {:induction false} FlatOne(s: string)
    ensures Flat([s]) == s + "\n"
  {
    assert [s][1..] == [];
  }

  /** A line in the flat text. */
  lemma {:induction false} FlatAt(lines: seq<string>, i: nat)
    requires i < |lines|
    ensures Flat(lines) == Flat(lines[..i]) + (lines[i] + "\n") + Flat(lines[i + 1..])
  {
    hide Flat;
    assert lines == lines[..i] + [lines[i]] + lines[i + 1..];
    FlatAppend(lines[..i] + [lines[i]], lines[i + 1..]);
    FlatAppend(lines[..i], [lines[i]]);
    FlatOne(lines[i]);
  }

  /** t with x put in at offset o. */
  function Insert(t: string, o: nat, x: string): string
    requires o <= |t|
  {
    t[..o] + x + t[o..]
  }

  /** Changing one line between two of its positions changes the flat text between the same two. */
  lemma {:induction false} LineChange(lines: seq<string>, i: nat, a: nat, b: nat, x: string)
    requires i < |lines| && a <= b <= |lines[i]|
    ensures var o := |Flat(lines[..i])|;
      && o + b <= |Flat(lines)|
      && Flat(lines[i := lines[i][..a] + x + lines[i][b..]]) == Flat(lines)[..o + a] + x + Flat(lines)[o + b..]
  {
    hide Flat;
    var line := lines[i];
    var edited := line[..a] + x + line[b..];
    var changed := lines[i := edited];
    var before, after := Flat(lines[..i]), Flat(lines[i + 1..]);
    FlatAt(lines, i);
    FlatAt(changed, i);
    assert changed[..i] == lines[..i] && changed[i + 1..] == lines[i + 1..];
    Splice(before, line, after, a, b, x);
  }

  lemma {:induction false} Splice(before: string, line: string, after: string, a: nat, b: nat, x: string)
    requires a <= b <= |line|
    ensures var t, o := before + (line + "\n") + after, |before|;
      before + (line[..a] + x + line[b..] + "\n") + after == t[..o + a] + x + t[o + b..]
  {
    var t, o := before + (line + "\n") + after, |before|;
    assert t[..o + a] == before + line[..a];
    assert t[o + b..] == line[b..] + "\n" + after;
  }

  lemma {:induction false} OffsetBound(d: Doc)
    requires InBounds(d)
    ensures Offset(d) <= |Flat(d.lines)|
  {
    hide Flat;
    if d.cy < |d.lines| {
      FlatAt(d.lines, d.cy);
    } else {
      assert d.lines[..d.cy] == d.lines;
    }
  }

  /** Typing puts one character in at the cursor; past the last line it starts a line first. */
  lemma {:induction false} TypeRefines(d: Doc, c: char)
    requires InBounds(d)
    ensures var e := TypeChar(d, c);
      var text := if d.cy == |d.lines| then Flat(d.lines) + "\n" else Flat(d.lines);
      && InBounds(e) && Offset(d) <= |text|
      && Flat(e.lines) == Insert(text, Offset(d), [c])
      && Offset(e) == Offset(d) + 1
  {
    hide Flat;
    OffsetBound(d);
    if d.cy == |d.lines| {
      var started := d.(lines := d.lines + [""]);
      FlatAppend(d.lines, [""]);
      FlatOne("");
      assert started.lines[..d.cy] == d.lines[..d.cy];
      LineChange(started.lines, d.cy, 0, 0, [c]);
      assert TypeChar(d, c).lines[..d.cy] == d.lines[..d.cy];
    } else {
      LineChange(d.lines, d.cy, d.cx, d.cx, [c]);
      assert TypeChar(d, c).lines[..d.cy] == d.lines[..d.cy];
    }
  }

  /** A line break with its indentation. */
  function BreakText(d: Doc, auto: bool): string
    requires InBounds(d)
  {
    "\n" + if d.cx == 0 then "" else d.lines[d.cy][..LineIndent(d, auto)]
  }

  lemma {:induction false} BreakRefines(d: Doc, auto: bool)
    requires InBounds(d)
    ensures var e := BreakLine(d, auto);
      && InBounds(e) && Offset(d) <= |Flat(d.lines)|
      && Flat(e.lines) == Insert(Flat(d.lines), Offset(d), BreakText(d, auto))
      && Offset(e) == Offset(d) + |BreakText(d, auto)|
  {
    hide Flat;
    OffsetBound(d);
    if d.cx == 0 {
      BreakAtStart(d.lines, d.cy);
      assert BreakLine(d, auto).lines[..d.cy + 1] == d.lines[..d.cy] + [""];
      FlatAppend(d.lines[..d.cy], [""]);
      FlatOne("");
    } else {
      BreakWithin(d.lines, d.cy, d.cx, d.lines[d.cy][..LineIndent(d, auto)]);
      var e := BreakLine(d, auto);
      assert e.lines[..d.cy + 1] == d.lines[..d.cy] + [d.lines[d.cy][..d.cx]];
      FlatAppend(d.lines[..d.cy], [d.lines[d.cy][..d.cx]]);
      FlatOne(d.lines[d.cy][..d.cx]);
    }
  }

  lemma {:induction false} BreakAtStart(lines: seq<string>, i: nat)
    requires i <= |lines|
    ensures var o := |Flat(lines[..i])|;
      o <= |Flat(lines)| && Flat(lines[..i] + [""] + lines[i..]) == Insert(Flat(lines), o, "\n")
  {
    hide Flat;
    FlatAppend(lines[..i] + [""], lines[i..]);
    FlatAppend(lines[..i], [""]);
    FlatOne("");
    FlatAppend(lines[..i], lines[i..]);
    assert lines[..i] + lines[i..] == lines;
    assert Flat(lines)[..|Flat(lines[..i])|] == Flat(lines[..i]);
  }

  lemma {:induction false} BreakWithin(lines: seq<string>, i: nat, a: nat, pad: string)
    requires i < |lines| && a <= |lines[i]|
    ensures var o := |Flat(lines[..i])|;
      && o + a <= |Flat(lines)|
      && Flat(lines[..i] + [lines[i][..a], pad + lines[i][a..]] + lines[i + 1..])
         == Insert(Flat(lines), o + a, "\n" + pad)
  {
    hide Flat;
    var head, tail := lines[i][..a], pad + lines[i][a..];
    FlatAppend(lines[..i] + [head, tail], lines[i + 1..]);
    FlatAppend(lines[..i], [head, tail]);
    FlatAppend([head], [tail]);
    assert [head] + [tail] == [head, tail];
    FlatOne(head);
    FlatOne(tail);
    FlatAt(lines, i);
    Splice(Flat(lines[..i]), lines[i], Flat(lines[i + 1..]), a, a, "\n" + pad);
    assert head + ("\n" + pad) + lines[i][a..] + "\n" == (head + "\n") + (tail + "\n");
  }

  /** Joining line i with the next takes the line end out. */
  lemma {:induction false} JoinRefines(lines: seq<string>, i: nat)
    requires i + 1 < |lines|
    ensures var o := |Flat(lines[..i])| + |lines[i]|;
      o + 1 <= |Flat(lines)| && Flat(Joined(lines, i)) == Without(Flat(lines), o, o + 1)
  {
    hide Flat;
    var one := lines[i] + lines[i + 1];
    FlatAppend(lines[..i] + [one], lines[i + 2..]);
    FlatAppend(lines[..i], [one]);
    FlatOne(one);
    FlatAt(lines, i);
    FlatAt(lines[i + 1..], 0);
    assert lines[i + 1..][0] == lines[i + 1] && lines[i + 1..][1..] == lines[i + 2..];
    assert lines[i + 1..][..0] == [];
    FlatNone();
    TakeOut(Flat(lines[..i]), lines[i], lines[i + 1], Flat(lines[i + 2..]));
  }

  lemma {:induction false} FlatNone()
    ensures Flat([]) == ""
  {
  }

  lemma {:induction false} TakeOut(before: string, a: string, b: string, after: string)
    ensures var t, o := before + (a + "\n") + ("" + (b + "\n") + after), |before| + |a|;
      Without(t, o, o + 1) == before + (a + b + "\n") + after
  {
    var t, o := before + (a + "\n") + ("" + (b + "\n") + after), |before| + |a|;
    assert t[..o] == before + a;
    assert t[o + 1..] == b + "\n" + after;
  }

  /** What backspace deletes: the bytes of the flat text from `from` up to `to`. */
  function BackspaceFrom(d: Doc, pairs: bool): (a: nat)
    requires InBounds(d)
    ensures a <= Offset(d)
  {
    if d.cy == |d.lines| || (d.cx == 0 && d.cy == 0) then Offset(d)
    else if BetweenPair(d, pairs) then Offset(d) - 1
    else if d.cx > 0 then Offset(d) - (d.cx - Start(d.lines[d.cy], d.cx - 1))
    else FlatLast(d.lines[..d.cy]); Offset(d) - 1
  }

  lemma {:induction false} FlatLast(lines: seq<string>)
    requires lines != []
    ensures |Flat(lines)| == |Flat(lines[..|lines| - 1])| + |lines[|lines| - 1]| + 1
  {
    hide Flat;
    FlatAt(lines, |lines| - 1);
    assert lines[|lines|..] == [];
    FlatNone();
  }

  function BackspaceTo(d: Doc, pairs: bool): nat
    requires InBounds(d)
  {
    if d.cy < |d.lines| && d.cx > 0 && BetweenPair(d, pairs) then Offset(d) + 1 else Offset(d)
  }

  lemma {:induction false} WithoutIs(s: string, a: nat, b: nat)
    requires a <= b <= |s|
    ensures Without(s, a, b) == s[..a] + "" + s[b..]
    ensures |Without(s, a, b)| == |s| - (b - a)
    ensures a == b ==> Without(s, a, b) == s
  {
  }

  lemma {:induction false} JoinedAt(lines: seq<string>, i: nat)
    requires i + 1 < |lines|
    ensures |Joined(lines, i)| == |lines| - 1
    ensures Joined(lines, i)[..i] == lines[..i] && Joined(lines, i)[i] == lines[i] + lines[i + 1]
  {
  }

  /** Backspace deletes the character before the cursor, a pair around it, or the line end. */
  lemma {:induction false} BackspaceRefines(d: Doc, pairs: bool)
    requires InBounds(d)
    ensures var e := Backspace(d, pairs);
      && InBounds(e) && BackspaceTo(d, pairs) <= |Flat(d.lines)|
      && Flat(e.lines) == Without(Flat(d.lines), BackspaceFrom(d, pairs), BackspaceTo(d, pairs))
      && Offset(e) == BackspaceFrom(d, pairs)
  {
    hide Flat, Paired, Joined, Without;
    OffsetBound(d);
    var e := Backspace(d, pairs);
    if d.cy == |d.lines| || (d.cx == 0 && d.cy == 0) {
      WithoutIs(Flat(d.lines), Offset(d), Offset(d));
    } else if d.cx > 0 {
      var a := if BetweenPair(d, pairs) then d.cx - 1 else Start(d.lines[d.cy], d.cx - 1);
      var b := if BetweenPair(d, pairs) then d.cx + 1 else d.cx;
      LineChange(d.lines, d.cy, a, b, "");
      WithoutIs(d.lines[d.cy], a, b);
      WithoutIs(Flat(d.lines), Offset(d) - d.cx + a, Offset(d) - d.cx + b);
      assert e.lines[..d.cy] == d.lines[..d.cy];
    } else {
      JoinRefines(d.lines, d.cy - 1);
      FlatLast(d.lines[..d.cy]);
      assert d.lines[..d.cy][..d.cy - 1] == d.lines[..d.cy - 1];
      JoinedAt(d.lines, d.cy - 1);
      assert e.lines[..d.cy - 1] == d.lines[..d.cy - 1];
    }
  }

  function DeleteTo(d: Doc): nat
    requires InBounds(d)
  {
    if d.cy == |d.lines| then Offset(d)
    else if d.cx < |d.lines[d.cy]| then Offset(d) + (RunEnd(d.lines[d.cy], d.cx + 1) - d.cx)
    else if d.cy + 1 < |d.lines| then Offset(d) + 1
    else Offset(d)
  }

  /** Delete takes out the character at the cursor or the line end, and leaves the cursor. */
  lemma {:induction false} DeleteRefines(d: Doc)
    requires InBounds(d)
    ensures var e := DeleteForward(d);
      && InBounds(e) && DeleteTo(d) <= |Flat(d.lines)|
      && Flat(e.lines) == Without(Flat(d.lines), Offset(d), DeleteTo(d))
      && Offset(e) == Offset(d)
  {
    hide Flat;
    OffsetBound(d);
    if d.cy < |d.lines| {
      assert DeleteForward(d).lines[..d.cy] == d.lines[..d.cy];
      if d.cx < |d.lines[d.cy]| {
        var b := RunEnd(d.lines[d.cy], d.cx + 1);
        LineChange(d.lines, d.cy, d.cx, b, "");
        assert d.lines[d.cy][..d.cx] + "" + d.lines[d.cy][b..] == Without(d.lines[d.cy], d.cx, b);
      } else if d.cy + 1 < |d.lines| {
        JoinRefines(d.lines, d.cy);
      }
    }
  }

  // ----- what the keys take out and put in -----

  /** A byte that goes on a character of UTF-8. */
  predicate GoesOn(c: char) {
    128 <= c as int < 192
  }

  /** The cursor is between two brackets or quotes that belong together. */
  predicate InPair(line: string, cx: nat) {
    0 < cx < |line| && line[cx - 1..cx + 1] in {"()", "[]", "{}", "\"\"", "\'\'", "``"}
  }

  lemma {:induction false} PairIs(line: string, cx: nat)
    requires 0 < cx < |line|
    ensures Paired(line[cx - 1], line[cx]) <==> InPair(line, cx)
  {
    assert line[cx - 1..cx + 1] == [line[cx - 1], line[cx]];
  }

  /** In a line backspace takes out an empty pair, if pairs are on, or else the bytes of one
      character: the one before the cursor back to the first that does not go on a character. */
  lemma {:induction false} BackspaceTakes(d: Doc, pairs: bool)
    requires InBounds(d) && d.cy < |d.lines| && d.cx > 0
    ensures var line, e := d.lines[d.cy], Backspace(d, pairs);
      var to := if pairs && InPair(line, d.cx) then d.cx + 1 else d.cx;
      && e.cy == d.cy
      && e.cx < d.cx
      && e.lines == d.lines[d.cy := line[..e.cx] + line[to..]]
      && (pairs && InPair(line, d.cx) ==> e.cx == d.cx - 1)
      && (!(pairs && InPair(line, d.cx)) ==>
            (forall k :: e.cx < k < d.cx ==> GoesOn(line[k])) && (e.cx == 0 || !GoesOn(line[e.cx])))
  {
    hide Paired, InPair;
    if d.cx < |d.lines[d.cy]| {
      PairIs(d.lines[d.cy], d.cx);
    } else {
      NoPair(d.lines[d.cy], d.cx);
    }
  }

  lemma {:induction false} NoPair(line: string, cx: nat)
    requires cx >= |line|
    ensures !InPair(line, cx)
  {
  }

  /** In a line the delete key takes out the byte at the cursor and those that go on its character. */
  lemma {:induction false} DeleteTakes(d: Doc) returns (to: nat)
    requires InBounds(d) && d.cy < |d.lines| && d.cx < |d.lines[d.cy]|
    ensures var line, e := d.lines[d.cy], DeleteForward(d);
      && d.cx < to <= |line|
      && (forall k :: d.cx < k < to ==> GoesOn(line[k]))
      && (to == |line| || !GoesOn(line[to]))
      && e == d.(lines := d.lines[d.cy := line[..d.cx] + line[to..]])
  {
    to := RunEnd(d.lines[d.cy], d.cx + 1);
  }

  /** A break puts in a line feed and, with automatic indentation, the spaces and tabs with which the
      line starts, as far as they are before the cursor. */
  lemma {:induction false} BreakPuts(d: Doc, auto: bool)
    requires InBounds(d) && d.cx > 0
    ensures var line, n := d.lines[d.cy], |BreakText(d, auto)| - 1;
      && 0 <= n <= d.cx
      && BreakText(d, auto) == "\n" + line[..n]
      && (forall k :: 0 <= k < n ==> line[k] in " \t")
      && (if auto then n < d.cx ==> line[n] !in " \t" else n == 0)
  {
  }

  /** A line break and then a backspace give the document back exactly on an existing line and
      without indentation. */
  lemma {:induction false} BreakThenBackspace(d: Doc, auto: bool, pairs: bool)
    requires InBounds(d)
    ensures InBounds(BreakLine(d, auto))
    ensures Backspace(BreakLine(d, auto), pairs) == d <==> d.cy < |d.lines| && LineIndent(d, auto) == 0
  {
    hide Flat, Paired, Start;
    BreakRefines(d, auto);
    var e := BreakLine(d, auto);
    var back := Backspace(e, pairs);
    if d.cy == |d.lines| {
      assert |e.lines| == |d.lines| + 1;
    } else if LineIndent(d, auto) == 0 {
      assert back.cy == d.cy && back.cx == d.cx;
      var line := d.lines[d.cy];
      if d.cx == 0 {
        assert e.lines[d.cy] == "" && e.lines[d.cy + 1] == line;
        assert "" + line == line;
      } else {
        assert e.lines[d.cy] == line[..d.cx] && e.lines[d.cy + 1] == line[..0] + line[d.cx..];
        assert line[..d.cx] + (line[..0] + line[d.cx..]) == line;
      }
      assert e.lines[d.cy + 2..] == d.lines[d.cy + 1..] && e.lines[..d.cy] == d.lines[..d.cy];
      assert back.lines == d.lines[..d.cy] + [line] + d.lines[d.cy + 1..] == d.lines;
    } else {
      assert |back.lines| == |d.lines| + 1;
    }
  }

  // ----- opening a file -----

  const MAX_COLS: nat := 4096

  predicate EndsLine(c: char) {
    c == '\n' || c == '\r'
  }

  function LineEnd(b: string, i: nat): (e: nat)
    requires i <= |b|
    ensures i <= e <= |b| && (e < |b| ==> EndsLine(b[e]))
    ensures forall k :: i <= k < e ==> !EndsLine(b[k])
    decreases |b| - i
  {
    if i < |b| && !EndsLine(b[i]) then LineEnd(b, i + 1) else i
  }

  /** Behind a line end: a carriage return, a line feed, or the two in this order. */
  function SkipEnd(b: string, e: nat): (r: nat)
    requires e <= |b|
    ensures e <= r <= |b| && (e < |b| && EndsLine(b[e]) ==> e < r)
  {
    var j := if e < |b| && b[e] == '\r' then e + 1 else e;
    if j < |b| && b[j] == '\n' then j + 1 else j
  }

  /** A line that is too long is cut into pieces. */
  function Chunks(line: string): seq<string> {
    if |line| <= MAX_COLS then [line] else [line[..MAX_COLS]] + Chunks(line[MAX_COLS..])
  }

  /** The lines of a file from byte i on. */
  function Lines(b: string, i: nat): seq<string>
    requires i <= |b|
    decreases |b| - i
  {
    if i == |b| then []
    else
      var e := LineEnd(b, i);
      Chunks(b[i..e]) + Lines(b, SkipEnd(b, e))
  }

  /** The pieces of a line: together the line, none longer than 4096, and all but the last as long. */
  lemma {:induction false} ChunksMean(line: string)
    ensures Together(Chunks(line)) == line
    ensures var c := Chunks(line);
      c != [] && |c[|c| - 1]| <= 4096 && forall k :: 0 <= k < |c| - 1 ==> |c[k]| == 4096
    decreases |line|
  {
    if |line| > 4096 {
      ChunksMean(line[4096..]);
      assert Chunks(line)[1..] == Chunks(line[4096..]);
      assert line[..4096] + line[4096..] == line;
    } else {
      assert Chunks(line)[1..] == [];
    }
  }

  function Together(pieces: seq<string>): string {
    if pieces == [] then "" else pieces[0] + Together(pieces[1..])
  }

  lemma {:induction false} LinesShift(b: string, i: nat, k: nat)
    requires k <= i <= |b|
    ensures Lines(b, i) == Lines(b[k..], i - k)
    decreases |b| - i
  {
    hide Chunks, Lines, LineEnd, SkipEnd;
    LinesUnfold(b, i);
    LinesUnfold(b[k..], i - k);
    if i < |b| {
      LineEndShift(b, i, k);
      var e := LineEnd(b, i);
      assert b[i..e] == b[k..][i - k..e - k];
      SkipEndShift(b, e, k);
      LinesShift(b, SkipEnd(b, e), k);
    }
  }

  lemma {:induction false} LinesUnfold(b: string, i: nat)
    requires i <= |b|
    ensures i == |b| ==> Lines(b, i) == []
    ensures i < |b| ==> i < SkipEnd(b, LineEnd(b, i))
    ensures i < |b| ==> Lines(b, i) == Chunks(b[i..LineEnd(b, i)]) + Lines(b, SkipEnd(b, LineEnd(b, i)))
  {
    hide Chunks;
  }

  lemma {:induction false} SkipEndShift(b: string, e: nat, k: nat)
    requires k <= e <= |b|
    ensures SkipEnd(b[k..], e - k) == SkipEnd(b, e) - k
  {
  }

  lemma {:induction false} LineEndShift(b: string, i: nat, k: nat)
    requires k <= i <= |b|
    ensures LineEnd(b[k..], i - k) == LineEnd(b, i) - k
    decreases |b| - i
  {
    if i < |b| && !EndsLine(b[i]) {
      LineEndShift(b, i + 1, k);
    }
  }

  lemma {:induction false} LineEndIs(b: string, i: nat, e: nat)
    requires i <= e <= |b| && (forall k :: i <= k < e ==> !EndsLine(b[k])) && (e < |b| ==> EndsLine(b[e]))
    ensures LineEnd(b, i) == e
    decreases e - i
  {
    if i < e {
      LineEndIs(b, i + 1, e);
    }
  }

  /** A line ends at a line feed, at a carriage return or at the two in this order, or with the file. */
  lemma {:induction false} OpensLine(line: string, end: string, rest: string)
    requires '\n' !in line && '\r' !in line && end in {"\n", "\r\n", "\r", ""} && line + end != ""
    requires end == "\r" && rest != "" ==> rest[0] != '\n'
    requires end == "" ==> rest == ""
    ensures Lines(line + end + rest, 0) == Chunks(line) + Lines(rest, 0)
  {
    hide Chunks, LineEnd, Lines;
    var b, e := line + end + rest, |line|;
    LinesUnfold(b, 0);
    assert forall k :: 0 <= k < e ==> b[k] == line[k] && line[k] in line;
    assert e < |b| ==> b[e] == end[0];
    LineEndIs(b, 0, e);
    assert b[0..e] == line;
    var next := e + |end|;
    assert b[next..] == rest;
    assert |end| == 2 ==> b[e + 1] == end[1];
    assert rest != "" ==> b[next] == rest[0];
    assert SkipEnd(b, e) == next;
    LinesShift(b, next, next);
  }

  /** From byte i on every line is short enough and ends in a line feed. */
  predicate SavesBack(b: string, i: nat)
    requires i <= |b|
    decreases |b| - i
  {
    || i == |b|
    || var e := LineEnd(b, i);
       e - i <= 4096 && e < |b| && b[e] == '\n' && SavesBack(b, e + 1)
  }

  /** Saving what was opened gives the same bytes exactly for such files. */
  lemma {:induction false} OpenThenSave(b: string, i: nat)
    requires i <= |b|
    ensures Flat(Lines(b, i)) == b[i..] <==> SavesBack(b, i)
    decreases |b| - i
  {
    hide Flat;
    if i == |b| {
      FlatNone();
    } else {
      var e := LineEnd(b, i);
      var line, next := b[i..e], SkipEnd(b, e);
      var rest := Flat(Lines(b, next));
      FlatAppend(Chunks(line), Lines(b, next));
      OpenThenSave(b, next);
      if |line| > MAX_COLS {
        LongLine(line, rest, b[i..]);
      } else {
        FlatOne(line);
        ShortLine(b, i, e, rest);
      }
    }
  }

  lemma {:induction false} LongLine(line: string, rest: string, t: string)
    requires |line| > MAX_COLS && line <= t && !EndsLine(line[MAX_COLS])
    ensures Flat(Chunks(line)) + rest != t
  {
    var c := Flat(Chunks(line));
    FlatAppend([line[..MAX_COLS]], Chunks(line[MAX_COLS..]));
    FlatOne(line[..MAX_COLS]);
    assert c[MAX_COLS] == '\n' && t[MAX_COLS] == line[MAX_COLS];
    assert (c + rest)[MAX_COLS] == '\n';
  }

  lemma {:induction false} ShortLine(b: string, i: nat, e: nat, rest: string)
    requires i <= e <= |b| && i < |b|
    ensures b[i..e] + "\n" + rest == b[i..] <==> e < |b| && b[e] == '\n' && rest == b[e + 1..]
  {
    var line := b[i..e];
    var t := line + "\n" + rest;
    if t == b[i..] {
      assert t[e - i] == '\n' == b[i..][e - i];
      assert rest == t[e - i + 1..] == b[i..][e - i + 1..];
    }
    if e < |b| && b[e] == '\n' && rest == b[e + 1..] {
      assert b[i..] == b[i..e] + [b[e]] + b[e + 1..];
    }
  }
}
