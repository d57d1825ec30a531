/**
 Shell wildcards.  The matcher walks pattern and string with two pointers and recurses
 at each `*`; what it decides is whether the string can be cut into pieces, one for each
 item of the pattern.

 Characters are integers, so the results hold whether `char` is signed or not; the
 terminating zero of a C string is never an element of a pattern or a string.
 */
module CshGlob {

  const STAR := '*' as int
  const ANY := '?' as int
  const OPEN := '[' as int
  const CLOSE := ']' as int
  const BANG := '!' as int
  const CARET := '^' as int
  const DASH := '-' as int

  type Text = seq<int>

  // ----- the meaning of patterns -----

  datatype Item =
    | Literal(c: int)
    | AnyOne
    | Class(negated: bool, ranges: seq<(int, int)>)
    | Star

  predicate InRanges(c: int, ranges: seq<(int, int)>) {
    exists i :: 0 <= i < |ranges| && ranges[i].0 <= c <= ranges[i].1
  }

  /** The pieces of text an item accepts. */
  predicate Accepts(item: Item, piece: Text) {
    match item
    case Literal(c) => piece == [c]
    case AnyOne => |piece| == 1
    case Class(negated, ranges) => |piece| == 1 && (InRanges(piece[0], ranges) != negated)
    case Star => true
  }

  function Concat(pieces: seq<Text>): Text {
    if pieces == [] then [] else pieces[0] + Concat(pieces[1..])
  }

  /** A cut of the text into one accepted piece per item. */
  ghost predicate Cut(items: seq<Item>, text: Text, pieces: seq<Text>) {
    && |pieces| == |items|
    && Concat(pieces) == text
    && forall i :: 0 <= i < |items| ==> Accepts(items[i], pieces[i])
  }

  ghost predicate Matches(items: seq<Item>, text: Text) {
    exists pieces :: Cut(items, text, pieces)
  }

  // ----- reading a pattern -----

  /** The members of a class up to its closing bracket, and what follows them. */
  function ClassBody(p: Text): (r: (seq<(int, int)>, Text))
    ensures |r.1| <= |p|
    decreases |p|
  {
    if p == [] || p[0] == CLOSE then ([], p)
    else if |p| >= 3 && p[1] == DASH && p[2] != CLOSE then
      var (ranges, rest) := ClassBody(p[3..]);
      ([(p[0], p[2])] + ranges, rest)
    else
      var (ranges, rest) := ClassBody(p[1..]);
      ([(p[0], p[0])] + ranges, rest)
  }

  function Negated(p: Text): bool {
    p != [] && (p[0] == BANG || p[0] == CARET)
  }

  function AfterNegation(p: Text): (r: Text)
    ensures |r| <= |p|
  {
    if Negated(p) then p[1..] else p
  }

  function AfterClose(p: Text): (r: Text)
    ensures |r| <= |p|
  {
    if p != [] && p[0] == CLOSE then p[1..] else p
  }

  /** The items of a pattern; a run of stars is a run of `Star` items. */
  function Items(p: Text): seq<Item>
    decreases |p|
  {
    if p == [] then []
    else if p[0] == STAR then [Star] + Items(p[1..])
    else if p[0] == ANY then [AnyOne] + Items(p[1..])
    else if p[0] == OPEN then
      var (ranges, rest) := ClassBody(AfterNegation(p[1..]));
      [Class(Negated(p[1..]), ranges)] + Items(AfterClose(rest))
    else [Literal(p[0])] + Items(p[1..])
  }

  // ----- how matching decomposes -----

  lemma {:induction false} MatchesNothing(text: Text)
    ensures Matches([], text) <==> text == []
  {
    if text == [] {
      assert Cut([], text, []);
    }
  }

  /** An item that takes exactly one character takes the first one. */
  lemma {:induction false} MatchesOne(item: Item, items: seq<Item>, text: Text)
    requires !item.Star?
    ensures Matches([item] + items, text) <==> text != [] && Accepts(item, text[..1]) && Matches(items, text[1..])
  {
    var all := [item] + items;
    if Matches(all, text) {
      var pieces :| Cut(all, text, pieces);
      CutTail(item, items, text, pieces);
      assert pieces[0] == text[..1];
    }
    if text != [] && Accepts(item, text[..1]) && Matches(items, text[1..]) {
      var pieces :| Cut(items, text[1..], pieces);
      CutCons(item, items, text[..1], text[1..], pieces);
      assert text[..1] + text[1..] == text;
    }
  }

  lemma {:induction false} CutTail(item: Item, items: seq<Item>, text: Text, pieces: seq<Text>)
    requires Cut([item] + items, text, pieces)
    ensures pieces != [] && Accepts(item, pieces[0])
    ensures |pieces[0]| <= |text| && text == pieces[0] + text[|pieces[0]|..]
    ensures Cut(items, text[|pieces[0]|..], pieces[1..])
  {
    var all := [item] + items;
    assert Accepts(all[0], pieces[0]);
    assert text == pieces[0] + Concat(pieces[1..]);
    assert text[|pieces[0]|..] == Concat(pieces[1..]);
    forall i | 0 <= i < |items|
      ensures Accepts(items[i], pieces[1..][i])
    {
      assert Accepts(all[i + 1], pieces[i + 1]);
    }
  }

  lemma {:induction false} CutCons(item: Item, items: seq<Item>, piece: Text, rest: Text, pieces: seq<Text>)
    requires Accepts(item, piece) && Cut(items, rest, pieces)
    ensures Matches([item] + items, piece + rest)
  {
    var all := [piece] + pieces;
    assert all[1..] == pieces;
    assert Cut([item] + items, piece + rest, all);
  }

  /** A star takes some prefix. */
  lemma {:induction false} MatchesStar(items: seq<Item>, text: Text)
    ensures Matches([Star] + items, text) <==> exists k :: 0 <= k <= |text| && Matches(items, text[k..])
  {
    if Matches([Star] + items, text) {
      var pieces :| Cut([Star] + items, text, pieces);
      CutTail(Star, items, text, pieces);
      assert Matches(items, text[|pieces[0]|..]);
    }
    if k :| 0 <= k <= |text| && Matches(items, text[k..]) {
      var pieces :| Cut(items, text[k..], pieces);
      CutCons(Star, items, text[..k], text[k..], pieces);
      assert text[..k] + text[k..] == text;
    }
  }

  /** Two stars in a row mean one. */
  lemma {:induction false} StarsCollapse(items: seq<Item>, text: Text)
    ensures Matches([Star] + ([Star] + items), text) <==> Matches([Star] + items, text)
  {
    MatchesStar([Star] + items, text);
    MatchesStar(items, text);
    if k :| 0 <= k <= |text| && Matches([Star] + items, text[k..]) {
      MatchesStar(items, text[k..]);
      var j :| 0 <= j <= |text[k..]| && Matches(items, text[k..][j..]);
      assert text[k..][j..] == text[k + j..];
      assert Matches(items, text[k + j..]);
    }
    assert text[0..] == text;
    if Matches([Star] + items, text) {
      assert Matches([Star] + items, text[0..]);
    }
  }

  // ----- the matcher -----

  lemma {:induction false} ClassBodyAt(pat: Text, p: nat)
    requires p < |pat| && pat[p] != CLOSE
    ensures ClassBody(pat[p..]) ==
      if p + 2 < |pat| && pat[p + 1] == DASH && pat[p + 2] != CLOSE
      then ([(pat[p], pat[p + 2])] + ClassBody(pat[p + 3..]).0, ClassBody(pat[p + 3..]).1)
      else ([(pat[p], pat[p])] + ClassBody(pat[p + 1..]).0, ClassBody(pat[p + 1..]).1)
  {
    var s := pat[p..];
    assert s[1..] == pat[p + 1..];
    if p + 2 < |pat| {
      assert s[3..] == pat[p + 3..];
    }
  }

  /** Read one bracket class from `start` on and test c against it. */
  method TestClass(pat: Text, start: nat, c: int) returns (matched: bool, p: nat)
    requires start <= |pat|
    ensures start <= p <= |pat|
    ensures pat[p..] == ClassBody(pat[start..]).1
    ensures matched == InRanges(c, ClassBody(pat[start..]).0)
  {
    hide ClassBody, InRanges;
    p := start;
    matched := false;
    ghost var seen: seq<(int, int)> := [];
    ghost var body := ClassBody(pat[start..]);
    InNoRanges(c);
    while p < |pat| && pat[p] != CLOSE
      invariant start <= p <= |pat|
      invariant matched == InRanges(c, seen)
      invariant seen + ClassBody(pat[p..]).0 == body.0
      invariant ClassBody(pat[p..]).1 == body.1
    {
      ClassBodyAt(pat, p);
      ghost var before := seen;
      if p + 2 < |pat| && pat[p + 1] == DASH && pat[p + 2] != CLOSE {
        InRangesAppend(c, seen, (pat[p], pat[p + 2]));
        seen := seen + [(pat[p], pat[p + 2])];
        if pat[p] <= c <= pat[p + 2] {
          matched := true;
        }
        p := p + 3;
      } else {
        InRangesAppend(c, seen, (pat[p], pat[p]));
        seen := seen + [(pat[p], pat[p])];
        if c == pat[p] {
          matched := true;
        }
        p := p + 1;
      }
      Reassociate(before, seen[|before|], ClassBody(pat[p..]).0);
    }
    ClassBodyEnds(pat[p..]);
    assert seen + [] == seen;
  }

  lemma {:induction false} Reassociate(a: seq<(int, int)>, r: (int, int), b: seq<(int, int)>)
    ensures (a + [r]) + b == a + ([r] + b)
  {
  }

  lemma {:induction false} InNoRanges(c: int)
    ensures !InRanges(c, [])
  {
  }

  lemma {:induction false} ClassBodyEnds(p: Text)
    requires p == [] || p[0] == CLOSE
    ensures ClassBody(p) == ([], p)
  {
  }

  lemma {:induction false} InRangesAppend(c: int, ranges: seq<(int, int)>, r: (int, int))
    ensures InRanges(c, ranges + [r]) <==> InRanges(c, ranges) || r.0 <= c <= r.1
  {
    var all := ranges + [r];
    if InRanges(c, ranges) {
      var i :| 0 <= i < |ranges| && ranges[i].0 <= c <= ranges[i].1;
      assert all[i] == ranges[i];
    }
    if r.0 <= c <= r.1 {
      assert all[|ranges|] == r;
    }
  }

  /** Matching from both pointers on. */
  ghost predicate MatchesFrom(pat: Text, p: nat, str: Text, s: nat)
    requires p <= |pat| && s <= |str|
  {
    Matches(Items(pat[p..]), str[s..])
  }

  lemma {:induction false} FromEnd(pat: Text, str: Text, s: nat)
    requires s <= |str|
    ensures MatchesFrom(pat, |pat|, str, s) <==> s == |str|
  {
    MatchesNothing(str[s..]);
  }

  /** Items that take one character: the item at p, and where the pattern goes on. */
  lemma {:induction false} FromOne(pat: Text, p: nat, item: Item, p': nat, str: Text, s: nat)
    requires p < |pat| && p' <= |pat| && s <= |str| && !item.Star?
    requires Items(pat[p..]) == [item] + Items(pat[p'..])
    ensures MatchesFrom(pat, p, str, s) <==> s < |str| && Accepts(item, [str[s]]) && MatchesFrom(pat, p', str, s + 1)
  {
    MatchesOne(item, Items(pat[p'..]), str[s..]);
    if s < |str| {
      assert str[s..][1..] == str[s + 1..];
      assert str[s..][..1] == [str[s]];
    }
  }

  /** A run of stars from p up to q, then the rest. */
  lemma {:induction false} FromStars(pat: Text, p: nat, q: nat, str: Text, s: nat)
    requires p < q <= |pat| && s <= |str|
    requires forall i :: p <= i < q ==> pat[i] == STAR
    ensures MatchesFrom(pat, p, str, s) <==> exists k :: s <= k <= |str| && MatchesFrom(pat, q, str, k)
    decreases q - p
  {
    assert pat[p..][1..] == pat[p + 1..];
    if p + 1 < q {
      FromStars(pat, p + 1, q, str, s);
      assert pat[p + 1..][1..] == pat[p + 2..];
      StarsCollapse(Items(pat[p + 2..]), str[s..]);
    } else {
      MatchesStar(Items(pat[q..]), str[s..]);
      forall k | s <= k <= |str|
        ensures str[s..][k - s..] == str[k..]
      {
      }
      if i :| 0 <= i <= |str[s..]| && Matches(Items(pat[q..]), str[s..][i..]) {
        assert MatchesFrom(pat, q, str, s + i);
      }
      if k :| s <= k <= |str| && MatchesFrom(pat, q, str, k) {
        assert Matches(Items(pat[q..]), str[s..][k - s..]);
      }
    }
  }

  /** The recursive matcher with its two moving pointers. */
  method GlobMatch(pat: Text, str: Text) returns (ok: bool)
    ensures ok == Matches(Items(pat), str)
    decreases |pat|
  {
    assert pat[0..] == pat && str[0..] == str;
    ghost var answer := MatchesFrom(pat, 0, str, 0);
    hide Items, Matches, InRanges;
    var p, s := 0, 0;
    while p < |pat|
      invariant 0 <= p <= |pat| && 0 <= s <= |str|
      invariant MatchesFrom(pat, p, str, s) == answer
    {
      if pat[p] == STAR {
        ok := MatchStar(pat, p, str, s);
        return;
      } else if pat[p] == ANY {
        OneItem(pat, p, str, s);
        if s == |str| {
          return false;
        }
        p, s := p + 1, s + 1;
      } else if pat[p] == OPEN {
        var q := p + 1;
        var neg := false;
        if q < |pat| && (pat[q] == BANG || pat[q] == CARET) {
          neg := true;
          q := q + 1;
        }
        var c := if s < |str| then str[s] else 0;
        var matched, e := TestClass(pat, q, c);
        ghost var close := e;
        if e < |pat| && pat[e] == CLOSE {
          e := e + 1;
        }
        ClassItem(pat, p, q, close, e, str, s);
        if s == |str| || matched == neg {
          return false;
        }
        p, s := e, s + 1;
      } else {
        OneItem(pat, p, str, s);
        if s == |str| || pat[p] != str[s] {
          return false;
        }
        p, s := p + 1, s + 1;
      }
    }
    FromEnd(pat, str, s);
    ok := s == |str|;
  }

  lemma {:induction false} OneItem(pat: Text, p: nat, str: Text, s: nat)
    requires p < |pat| && s <= |str| && pat[p] != STAR && pat[p] != OPEN
    ensures MatchesFrom(pat, p, str, s)
       <==> s < |str| && (pat[p] == ANY || pat[p] == str[s]) && MatchesFrom(pat, p + 1, str, s + 1)
  {
    assert pat[p..][1..] == pat[p + 1..];
    FromOne(pat, p, if pat[p] == ANY then AnyOne else Literal(pat[p]), p + 1, str, s);
  }

  lemma {:induction false} ClassItem(pat: Text, p: nat, q: nat, close: nat, e: nat, str: Text, s: nat)
    requires p < |pat| && s <= |str| && pat[p] == OPEN
    requires q == (if Negated(pat[p + 1..]) then p + 2 else p + 1)
    requires q <= close <= |pat| && pat[close..] == ClassBody(pat[q..]).1
    requires e == (if close < |pat| && pat[close] == CLOSE then close + 1 else close)
    ensures MatchesFrom(pat, p, str, s)
       <==> s < |str| && InRanges(str[s], ClassBody(pat[q..]).0) != Negated(pat[p + 1..])
            && MatchesFrom(pat, e, str, s + 1)
  {
    assert pat[p..][1..] == pat[p + 1..];
    assert AfterNegation(pat[p + 1..]) == pat[q..];
    assert AfterClose(pat[close..]) == pat[e..];
    FromOne(pat, p, Class(Negated(pat[p + 1..]), ClassBody(pat[q..]).0), e, str, s);
  }

  /** The `*` case: skip the run of stars, then try every suffix of the string. */
  method MatchStar(pat: Text, p: nat, str: Text, s: nat) returns (ok: bool)
    requires p < |pat| && s <= |str| && pat[p] == STAR
    ensures ok == MatchesFrom(pat, p, str, s)
    decreases |pat| - p, 0
  {
    var q := p + 1;
    while q < |pat| && pat[q] == STAR
      invariant p < q <= |pat|
      invariant forall i :: p <= i < q ==> pat[i] == STAR
    {
      q := q + 1;
    }
    FromStars(pat, p, q, str, s);
    if q == |pat| {
      FromEnd(pat, str, |str|);
      return true;
    }
    var k := s;
    while true
      invariant s <= k <= |str|
      invariant forall j :: s <= j < k ==> !MatchesFrom(pat, q, str, j)
      decreases |str| - k
    {
      ok := GlobMatch(pat[q..], str[k..]);
      assert ok == MatchesFrom(pat, q, str, k);
      if ok || k == |str| {
        return;
      }
      k := k + 1;
    }
  }
}
