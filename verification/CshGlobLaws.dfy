/** What the wildcards mean, by their own characters. */
module CshGlobLaws {

  import opened CshGlob

  /** Nothing matches only nothing. */
  lemma {:induction false} EmptyPattern(text: Text)
    ensures Matches(Items([]), text) <==> text == []
  {
    MatchesNothing(text);
  }

  /** `*` matches any text, `?` any one character. */
  lemma {:induction false} StarMeans(p: Text, text: Text)
    ensures Matches(Items(['*' as int] + p), text) <==> exists k :: 0 <= k <= |text| && Matches(Items(p), text[k..])
  {
    hide Matches;
    assert (['*' as int] + p)[1..] == p;
    MatchesStar(Items(p), text);
  }

  lemma {:induction false} AnyMeans(p: Text, text: Text)
    ensures Matches(Items(['?' as int] + p), text) <==> text != [] && Matches(Items(p), text[1..])
  {
    hide Matches;
    assert (['?' as int] + p)[1..] == p;
    MatchesOne(AnyOne, Items(p), text);
  }

  /** Any other character than `*`, `?` and `[` matches itself. */
  lemma {:induction false} CharacterMeans(c: int, p: Text, text: Text)
    requires c != '*' as int && c != '?' as int && c != '[' as int
    ensures Matches(Items([c] + p), text) <==> text != [] && text[0] == c && Matches(Items(p), text[1..])
  {
    hide Matches;
    assert ([c] + p)[1..] == p;
    MatchesOne(Literal(c), Items(p), text);
  }

  // ----- classes -----

  /** A member of a class: one character, or all from one to another. */
  datatype Member = One(c: int) | Range(lo: int, hi: int)

  predicate Has(m: Member, c: int) {
    match m
    case One(d) => c == d
    case Range(lo, hi) => lo <= c <= hi
  }

  function MemberText(m: Member): Text {
    match m
    case One(c) => [c]
    case Range(lo, hi) => [lo, '-' as int, hi]
  }

  function MembersText(ms: seq<Member>): Text {
    if ms == [] then [] else MemberText(ms[0]) + MembersText(ms[1..])
  }

  /** Written so that it is read as it is meant: no bracket in it, and the dash only between ends. */
  predicate Clear(m: Member) {
    match m
    case One(c) => c != ']' as int && c != '-' as int
    case Range(lo, hi) => lo != ']' as int && lo != '-' as int && hi != ']' as int
  }

  function Pair(m: Member): (int, int) {
    match m
    case One(c) => (c, c)
    case Range(lo, hi) => (lo, hi)
  }

  function Pairs(ms: seq<Member>): seq<(int, int)> {
    seq(|ms|, i requires 0 <= i < |ms| => Pair(ms[i]))
  }

  /** A class ends at its bracket, or, without one, where the pattern ends. */
  predicate Ends(tail: Text) {
    tail == [] || tail[0] == ']' as int
  }

  lemma {:induction false} NoDashFirst(ms: seq<Member>, tail: Text)
    requires (forall i :: 0 <= i < |ms| ==> Clear(ms[i])) && Ends(tail)
    ensures var t := MembersText(ms) + tail; t != [] ==> t[0] != '-' as int && (ms != [] ==> t[0] != ']' as int)
    ensures ms != [] ==> MembersText(ms) != []
  {
    if ms != [] {
      assert Clear(ms[0]);
      assert (MembersText(ms) + tail)[0] == MemberText(ms[0])[0];
    }
  }

  lemma {:induction false} BodyIs(ms: seq<Member>, tail: Text)
    requires (forall i :: 0 <= i < |ms| ==> Clear(ms[i])) && Ends(tail)
    ensures ClassBody(MembersText(ms) + tail) == (Pairs(ms), tail)
    decreases |ms|
  {
    var t := MembersText(ms) + tail;
    NoDashFirst(ms, tail);
    if ms == [] {
      assert t == tail;
    } else {
      var m, more := ms[0], ms[1..];
      var u := MembersText(more) + tail;
      assert t == MemberText(m) + u;
      BodyIs(more, tail);
      NoDashFirst(more, tail);
      assert Pairs(ms) == [Pair(m)] + Pairs(more);
      match m
      case One(c) =>
        assert t[1..] == u;
        assert |t| >= 2 ==> t[1] == u[0] != '-' as int;
      case Range(lo, hi) =>
        assert t[1] == '-' as int && t[2] == hi && t[3..] == u;
    }
  }

  lemma {:induction false} InPairs(c: int, ms: seq<Member>)
    ensures InRanges(c, Pairs(ms)) <==> exists i :: 0 <= i < |ms| && Has(ms[i], c)
  {
    if i :| 0 <= i < |ms| && Has(ms[i], c) {
      assert Pairs(ms)[i].0 <= c <= Pairs(ms)[i].1;
    }
    if InRanges(c, Pairs(ms)) {
      var i :| 0 <= i < |Pairs(ms)| && Pairs(ms)[i].0 <= c <= Pairs(ms)[i].1;
      assert Has(ms[i], c);
    }
  }

  /** A class matches one character that is among its members; `!` or `^` in front turns that round. */
  lemma {:induction false} ClassMeans(mark: Text, ms: seq<Member>, p: Text, text: Text)
    requires mark in {[], ['!' as int], ['^' as int]} && forall i :: 0 <= i < |ms| ==> Clear(ms[i])
    requires mark == [] && ms != [] ==> MemberText(ms[0])[0] != '!' as int && MemberText(ms[0])[0] != '^' as int
    ensures Matches(Items(['[' as int] + mark + MembersText(ms) + [']' as int] + p), text) <==>
      && text != []
      && ((exists i :: 0 <= i < |ms| && Has(ms[i], text[0])) <==> mark == [])
      && Matches(Items(p), text[1..])
  {
    hide Matches, ClassBody, MembersText, InRanges;
    var close := [']' as int] + p;
    var body := MembersText(ms) + close;
    var pat := ['[' as int] + mark + MembersText(ms) + [']' as int] + p;
    assert pat[1..] == mark + body;
    MarkRead(mark, ms, close);
    BodyIs(ms, close);
    assert close[1..] == p;
    assert Items(pat) == [Class(mark != [], Pairs(ms))] + Items(p);
    MatchesOne(Class(mark != [], Pairs(ms)), Items(p), text);
    if text != [] {
      InPairs(text[0], ms);
    }
  }

  lemma {:induction false} MarkRead(mark: Text, ms: seq<Member>, close: Text)
    requires mark in {[], ['!' as int], ['^' as int]} && close != [] && close[0] == ']' as int
    requires mark == [] && ms != [] ==> MemberText(ms[0])[0] != '!' as int && MemberText(ms[0])[0] != '^' as int
    ensures var t := mark + (MembersText(ms) + close);
      Negated(t) == (mark != []) && AfterNegation(t) == MembersText(ms) + close
  {
    var body := MembersText(ms) + close;
    var t := mark + body;
    if mark == [] {
      assert t == body;
      if ms != [] {
        assert body[0] == MemberText(ms[0])[0];
      }
    } else {
      assert t[0] == mark[0] && t[1..] == body;
    }
  }
}
