/**
 How awk cuts a record into fields and joins fields into a record.
 */
module AwkSplit {

  predicate IsBlank(c: char) {
    c == ' ' || c == '\t' || c == '\n'
  }

  /** The regular-expression splitter, which comes from the C library. */
  type Regex = (string, string) -> seq<string>

  // ----- cutting -----

  function DropBlanks(s: string): (r: string)
    ensures |r| <= |s|
    ensures r == [] || !IsBlank(r[0])
  {
    if s != [] && IsBlank(s[0]) then DropBlanks(s[1..]) else s
  }

  /** The length of the leading word. */
  function WordLength(s: string): (n: nat)
    ensures n <= |s|
    ensures s != [] && !IsBlank(s[0]) ==> n > 0
  {
    if s == [] || IsBlank(s[0]) then 0 else 1 + WordLength(s[1..])
  }

  /** Words separated by blanks. */
  function BlankSplit(s: string): seq<string>
    decreases |s|
  {
    var t := DropBlanks(s);
    if t == [] then [] else [t[..WordLength(t)]] + BlankSplit(t[WordLength(t)..])
  }

  /** The pieces between separators; a record without separators is one piece. */
  function SingleSplit(c: char, s: string): (r: seq<string>)
    ensures r != []
    decreases |s|
  {
    if s == [] then [[]]
    else
      var rest := SingleSplit(c, s[1..]);
      if s[0] == c then [[]] + rest else [[s[0]] + rest[0]] + rest[1..]
  }

  function EachSplit(s: string): seq<string> {
    if s == [] then [] else [[s[0]]] + EachSplit(s[1..])
  }

  /** The fields of a record for a field separator. */
  function Split(fs: string, regex: Regex, s: string): seq<string> {
    if fs == " " then BlankSplit(s)
    else if |fs| == 1 && fs[0] != '\\' then SingleSplit(fs[0], s)
    else if fs == "" then EachSplit(s)
    else if s == [] then [[]]
    else regex(fs, s)
  }

  // ----- joining -----

  function Join(ofs: string, fields: seq<string>): string {
    if fields == [] then []
    else if |fields| == 1 then fields[0]
    else fields[0] + ofs + Join(ofs, fields[1..])
  }

  /** Joining undoes splitting when both use the same single character. */
  lemma {:induction false} JoinUndoesSplit(c: char, s: string)
    ensures Join([c], SingleSplit(c, s)) == s
    decreases |s|
  {
    if s != [] {
      JoinUndoesSplit(c, s[1..]);
      var rest := SingleSplit(c, s[1..]);
      var all := SingleSplit(c, s);
      if s[0] == c {
        assert all[1..] == rest;
        assert Join([c], all) == [] + [c] + s[1..];
      } else {
        assert all[1..] == rest[1..];
        assert |rest| > 1 ==>
          ([s[0]] + rest[0]) + [c] + Join([c], rest[1..]) == [s[0]] + (rest[0] + [c] + Join([c], rest[1..]));
      }
    }
  }

  /** No field of a single-character split contains the separator. */
  lemma {:induction false} SplitAvoidsSeparator(c: char, s: string)
    ensures forall i :: 0 <= i < |SingleSplit(c, s)| ==> c !in SingleSplit(c, s)[i]
    decreases |s|
  {
    if s != [] {
      SplitAvoidsSeparator(c, s[1..]);
    }
  }

  /** Splitting undoes joining when no field contains the separator: with the lemmas above,
      records and separator-free field lists correspond one to one. */
  lemma {:induction false} SplitUndoesJoin(c: char, fields: seq<string>)
    requires fields != [] && forall i :: 0 <= i < |fields| ==> c !in fields[i]
    ensures SingleSplit(c, Join([c], fields)) == fields
    decreases |fields|
  {
    if |fields| == 1 {
      SplitWord(c, fields[0]);
    } else {
      var rest := Join([c], fields[1..]);
      SplitUndoesJoin(c, fields[1..]);
      SplitAcross(c, fields[0], rest);
      assert fields[0] + [c] + rest == fields[0] + ([c] + rest);
    }
  }

  lemma {:induction false} SplitWord(c: char, w: string)
    requires c !in w
    ensures SingleSplit(c, w) == [w]
    decreases |w|
  {
    if w != [] {
      SplitWord(c, w[1..]);
      assert [w[0]] + w[1..] == w;
    }
  }

  lemma {:induction false} SplitAcross(c: char, w: string, rest: string)
    requires c !in w
    ensures SingleSplit(c, w + ([c] + rest)) == [w] + SingleSplit(c, rest)
    decreases |w|
  {
    var s := w + ([c] + rest);
    if w == [] {
      assert s == [c] + rest && s[1..] == rest;
    } else {
      SplitAcross(c, w[1..], rest);
      assert s[1..] == w[1..] + ([c] + rest);
      assert [w[0]] + w[1..] == w;
    }
  }

  // ----- blanks -----

  predicate IsWord(w: string) {
    w != [] && forall i :: 0 <= i < |w| ==> !IsBlank(w[i])
  }

  lemma {:induction false} WordLengthSpec(s: string)
    ensures forall i :: 0 <= i < WordLength(s) ==> !IsBlank(s[i])
    ensures WordLength(s) < |s| ==> IsBlank(s[WordLength(s)])
    decreases |s|
  {
    if s != [] && !IsBlank(s[0]) {
      WordLengthSpec(s[1..]);
    }
  }

  lemma {:induction false} WordLengthOf(w: string, rest: string)
    requires IsWord(w) && (rest == [] || IsBlank(rest[0]))
    ensures WordLength(w + rest) == |w|
    decreases |w|
  {
    if |w| == 1 {
      assert (w + rest)[1..] == rest;
    } else {
      assert (w + rest)[1..] == w[1..] + rest;
      WordLengthOf(w[1..], rest);
    }
  }

  lemma {:induction false} BlankSplitWords(s: string)
    ensures forall i :: 0 <= i < |BlankSplit(s)| ==> IsWord(BlankSplit(s)[i])
    decreases |s|
  {
    var t := DropBlanks(s);
    if t != [] {
      WordLengthSpec(t);
      BlankSplitWords(t[WordLength(t)..]);
    }
  }

  /** Words joined by single spaces are found again. */
  lemma {:induction false} BlankSplitUndoesJoin(words: seq<string>)
    requires forall i :: 0 <= i < |words| ==> IsWord(words[i])
    ensures BlankSplit(Join(" ", words)) == words
    decreases |words|
  {
    if |words| == 1 {
      BlankSplitFirst(words[0], []);
      assert words[0] + [] == words[0];
    } else if |words| > 1 {
      var rest := " " + Join(" ", words[1..]);
      BlankSplitUndoesJoin(words[1..]);
      BlankSplitFirst(words[0], rest);
      assert words[0] + " " + Join(" ", words[1..]) == words[0] + rest;
      assert rest[1..] == Join(" ", words[1..]);
      assert DropBlanks(rest) == DropBlanks(rest[1..]);
      assert BlankSplit(rest) == BlankSplit(rest[1..]);
    }
  }

  lemma {:induction false} BlankSplitFirst(w: string, rest: string)
    requires IsWord(w) && (rest == [] || IsBlank(rest[0]))
    ensures BlankSplit(w + rest) == [w] + BlankSplit(rest)
  {
    WordLengthOf(w, rest);
    assert DropBlanks(w + rest) == w + rest;
    assert (w + rest)[..|w|] == w && (w + rest)[|w|..] == rest;
  }

  /** Rebuilding a record from its words changes only the blanks: it has the same words. */
  lemma {:induction false} RebuildKeepsWords(s: string)
    ensures BlankSplit(Join(" ", BlankSplit(s))) == BlankSplit(s)
  {
    BlankSplitWords(s);
    BlankSplitUndoesJoin(BlankSplit(s));
  }

  // ----- the loops -----

  method SkipBlanks(s: string, start: nat) returns (p: nat)
    requires start <= |s|
    ensures start <= p <= |s| && s[p..] == DropBlanks(s[start..])
  {
    p := start;
    while p < |s| && IsBlank(s[p])
      invariant start <= p <= |s|
      invariant DropBlanks(s[p..]) == DropBlanks(s[start..])
    {
      assert s[p..][1..] == s[p + 1..];
      p := p + 1;
    }
  }

  method SkipWord(s: string, start: nat) returns (p: nat)
    requires start <= |s|
    ensures start <= p <= |s| && p == start + WordLength(s[start..])
  {
    p := start;
    while p < |s| && !IsBlank(s[p])
      invariant start <= p <= |s|
      invariant WordLength(s[start..]) == p - start + WordLength(s[p..])
    {
      assert s[p..][1..] == s[p + 1..];
      p := p + 1;
    }
  }

  lemma {:induction false} BlankSplitNext(s: string, start: nat, st: nat, p: nat)
    requires start <= st < p <= |s| && s[st..] == DropBlanks(s[start..]) && p == st + WordLength(s[st..])
    ensures BlankSplit(s[start..]) == [s[st..p]] + BlankSplit(s[p..])
  {
    assert s[st..][..p - st] == s[st..p] && s[st..][p - st..] == s[p..];
  }

  method SplitBlanks(s: string) returns (fields: seq<string>)
    ensures fields == BlankSplit(s)
  {
    fields := [];
    var p := 0;
    assert s[0..] == s;
    while p < |s|
      invariant 0 <= p <= |s|
      invariant fields + BlankSplit(s[p..]) == BlankSplit(s)
    {
      var st := SkipBlanks(s, p);
      if st == |s| {
        assert BlankSplit(s[p..]) == [];
        return;
      }
      var e := SkipWord(s, st);
      BlankSplitNext(s, p, st, e);
      assert fields + ([s[st..e]] + BlankSplit(s[e..])) == (fields + [s[st..e]]) + BlankSplit(s[e..]);
      fields := fields + [s[st..e]];
      p := e;
    }
    assert fields + [] == fields;
  }

  method SplitSingle(c: char, s: string) returns (fields: seq<string>)
    ensures fields == SingleSplit(c, s)
  {
    hide SingleSplit;
    fields := [];
    var p, st := 0, 0;
    assert s[0..] == s;
    while true
      invariant 0 <= st <= p <= |s| && c !in s[st..p]
      invariant fields + SingleSplit(c, s[st..]) == SingleSplit(c, s)
      decreases |s| - p, |s| - st
    {
      if p == |s| {
        SplitWord(c, s[st..]);
        fields := fields + [s[st..]];
        return;
      }
      if s[p] == c {
        SplitAcross(c, s[st..p], s[p + 1..]);
        assert s[st..] == s[st..p] + ([c] + s[p + 1..]);
        assert fields + ([s[st..p]] + SingleSplit(c, s[p + 1..])) == (fields + [s[st..p]]) + SingleSplit(c, s[p + 1..]);
        fields := fields + [s[st..p]];
        p := p + 1;
        st := p;
      } else {
        assert s[st..p + 1] == s[st..p] + [s[p]];
        p := p + 1;
      }
    }
  }

  method SplitEach(s: string) returns (fields: seq<string>)
    ensures fields == EachSplit(s)
  {
    fields := [];
    var p := 0;
    assert s[0..] == s;
    while p < |s|
      invariant 0 <= p <= |s|
      invariant fields + EachSplit(s[p..]) == EachSplit(s)
    {
      assert s[p..][1..] == s[p + 1..];
      assert fields + ([[s[p]]] + EachSplit(s[p + 1..])) == (fields + [[s[p]]]) + EachSplit(s[p + 1..]);
      fields := fields + [[s[p]]];
      p := p + 1;
    }
    assert fields + [] == fields;
  }

  method JoinFields(ofs: string, fields: seq<string>) returns (record: string)
    ensures record == Join(ofs, fields)
  {
    record := [];
    for i := 0 to |fields|
      invariant record == Join(ofs, fields[..i])
    {
      JoinNext(ofs, fields[..i], fields[i]);
      assert fields[..i + 1] == fields[..i] + [fields[i]];
      if i > 0 {
        record := record + ofs;
      }
      record := record + fields[i];
    }
    assert fields[..|fields|] == fields;
  }

  lemma {:induction false} JoinNext(ofs: string, fields: seq<string>, f: string)
    ensures Join(ofs, fields + [f]) == if fields == [] then f else Join(ofs, fields) + ofs + f
    decreases |fields|
  {
    if |fields| > 0 {
      assert (fields + [f])[1..] == fields[1..] + [f];
      JoinNext(ofs, fields[1..], f);
      if |fields| > 1 {
        assert fields[0] + ofs + (Join(ofs, fields[1..]) + ofs + f)
          == (fields[0] + ofs + Join(ofs, fields[1..])) + ofs + f;
      }
    }
  }
}
