/** What the fields of a record are, by position: the maximal runs between blanks, or what stands
    between two separators. */
module AwkWords {

  import opened AwkSplit

  datatype Span = Span(from: nat, to: nat)

  predicate Blank(c: char) {
    c == ' ' || c == '\t' || c == '\n'
  }

  predicate InSpan(p: Span, k: nat) {
    p.from <= k < p.to
  }

  ghost predicate InSome(spans: seq<Span>, k: nat) {
    exists i :: 0 <= i < |spans| && InSpan(spans[i], k)
  }

  /** Every field is the text of its span; the spans lie behind p, are apart, and cover exactly the
      characters that are not blank. */
  ghost predicate Runs(s: string, p: nat, fields: seq<string>, spans: seq<Span>) {
    && |spans| == |fields|
    && (forall i :: 0 <= i < |spans| ==> p <= spans[i].from < spans[i].to <= |s|)
    && (forall i :: 0 <= i < |spans| ==> fields[i] == s[spans[i].from..spans[i].to])
    && (forall i, j :: 0 <= i < j < |spans| ==> spans[i].to < spans[j].from)
    && (forall k :: p <= k < |s| ==> (!Blank(s[k]) <==> InSome(spans, k)))
  }

  lemma {:induction false} DropBlanksIs(s: string) returns (d: nat)
    ensures d <= |s| && DropBlanks(s) == s[d..] && (d < |s| ==> !Blank(s[d]))
    ensures forall k :: 0 <= k < d ==> Blank(s[k])
    decreases |s|
  {
    if s != [] && IsBlank(s[0]) {
      d := DropBlanksIs(s[1..]);
      d := d + 1;
    } else {
      d := 0;
    }
  }

  /** Nothing but blanks from p to |s|. */
  lemma {:induction false} NoRuns(s: string, p: nat)
    requires p <= |s| && forall k :: p <= k < |s| ==> Blank(s[k])
    ensures Runs(s, p, [], [])
  {
  }

  /** One more word before the others. */
  lemma {:induction false} RunsMore(s: string, p: nat, a: nat, e: nat, fields: seq<string>, spans: seq<Span>)
    requires p <= a < e <= |s| && Runs(s, e, fields, spans)
    requires forall k :: p <= k < a ==> Blank(s[k])
    requires forall k :: a <= k < e ==> !Blank(s[k])
    requires e < |s| ==> Blank(s[e])
    ensures Runs(s, p, [s[a..e]] + fields, [Span(a, e)] + spans)
  {
    hide Blank;
    var all := [Span(a, e)] + spans;
    if spans != [] {
      assert e <= spans[0].from < spans[0].to <= |s|;
      NotFirst(s, e, fields, spans);
    }
    forall i, j | 0 <= i < j < |all|
      ensures all[i].to < all[j].from
    {
      if i == 0 && j > 1 {
        assert spans[0].to < spans[j - 1].from;
      }
    }
    forall k | p <= k < |s|
      ensures !Blank(s[k]) <==> InSome(all, k)
    {
      SomeMore(Span(a, e), spans, k);
      if k < e {
        assert !InSome(spans, k);
      }
    }
  }

  lemma {:induction false} SomeMore(first: Span, spans: seq<Span>, k: nat)
    ensures InSome([first] + spans, k) <==> InSpan(first, k) || InSome(spans, k)
  {
    var all := [first] + spans;
    if InSpan(first, k) {
      assert InSpan(all[0], k);
    }
    if InSome(spans, k) {
      var i :| 0 <= i < |spans| && InSpan(spans[i], k);
      assert InSpan(all[i + 1], k);
    }
  }

  /** Behind a blank no word starts at once. */
  lemma {:induction false} NotFirst(s: string, e: nat, fields: seq<string>, spans: seq<Span>)
    requires Runs(s, e, fields, spans) && spans != [] && e < |s| && Blank(s[e])
    ensures e < spans[0].from
  {
    assert !InSome(spans, e);
    assert !InSpan(spans[0], e);
  }

  lemma {:induction false} WordsFrom(s: string, p: nat) returns (spans: seq<Span>)
    requires p <= |s|
    ensures Runs(s, p, BlankSplit(s[p..]), spans)
    decreases |s| - p
  {
    hide Runs, WordLength;
    var u := s[p..];
    var d := DropBlanksIs(u);
    assert forall k :: p <= k < p + d ==> s[k] == u[k - p];
    if d == |u| {
      spans := [];
      NoRuns(s, p);
    } else {
      var t := u[d..];
      assert t == s[p + d..];
      WordLengthSpec(t);
      var a, e := p + d, p + d + WordLength(t);
      assert t[0] == u[d];
      assert forall k :: a <= k < e ==> s[k] == t[k - a];
      assert e < |s| ==> s[e] == t[e - a];
      assert t[..e - a] == s[a..e] && t[e - a..] == s[e..];
      spans := WordsFrom(s, e);
      RunsMore(s, p, a, e, BlankSplit(s[e..]), spans);
      spans := [Span(a, e)] + spans;
    }
  }

  /** With the separator " " the fields are exactly the maximal runs of characters other than space,
      tab and newline, in their order. */
  lemma {:induction false} FieldsAreRuns(regex: Regex, s: string) returns (spans: seq<Span>)
    ensures Runs(s, 0, Split(" ", regex, s), spans)
  {
    assert s[0..] == s;
    spans := WordsFrom(s, 0);
  }

  /** With no separator every character is a field. */
  lemma {:induction false} FieldsAreCharacters(regex: Regex, s: string)
    ensures var fields := Split("", regex, s);
      |fields| == |s| && forall i :: 0 <= i < |s| ==> fields[i] == [s[i]]
    decreases |s|
  {
    if s != [] {
      FieldsAreCharacters(regex, s[1..]);
    }
  }

  /** With one character, other than a space and a backslash, as separator no field holds it and the
      fields with it between them are the record. */
  lemma {:induction false} FieldsAreBetween(c: char, regex: Regex, s: string)
    requires c != ' ' && c != '\\'
    ensures var fields := Split([c], regex, s);
      && fields != []
      && (forall i :: 0 <= i < |fields| ==> c !in fields[i])
      && Join([c], fields) == s
  {
    JoinUndoesSplit(c, s);
    SplitAvoidsSeparator(c, s);
  }
}
