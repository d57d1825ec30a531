/**
 neo's two highlighters: what class every character of a rendered row gets, and what is still
 open at its end, given what was open at its start.
 */
module NeoSyntax {

  import opened Wrappers
  import opened Libc

  datatype Class =
    | Normal | Comment | BlockComment | String | Number | Escape | Tag | Attribute
    | Keyword(group: nat)

  /** A word list; `symbols` ones match anywhere, the others only between separators. */
  datatype Group = Group(symbols: bool, words: seq<string>)

  /** A language as its .syn file describes it; an empty string is an absent delimiter. */
  datatype Language = Language(
    html: bool,
    lineComment: string,
    blockOpen: string,
    blockClose: string,
    singleQuotes: bool,
    backTicks: bool,
    groups: seq<Group>)

  /** The classes of the rest of a row, and what is open at its end. */
  datatype Painted = Painted(hl: seq<Class>, open: int)

  const NONE: char := '\0'

  function Fill(c: Class, n: nat): (r: seq<Class>)
    ensures |r| == n
  {
    seq(n, _ => c)
  }

  function Then(c: Class, n: nat, rest: Painted): (r: Painted)
    ensures |r.hl| == n + |rest.hl|
  {
    Painted(Fill(c, n) + rest.hl, rest.open)
  }

  /** The delimiter stands at i. */
  predicate At(s: string, i: nat, word: string) {
    word != "" && i + |word| <= |s| && s[i..i + |word|] == word
  }

  predicate IsSeparator(c: char) {
    c == NONE || IsSpace(c) || c in ",.()+-/*=~%<>[]{};:&|!?^"
  }

  predicate IsAlpha(c: char) {
    'a' <= c <= 'z' || 'A' <= c <= 'Z'
  }

  /** What a number goes on with after its first digit. */
  predicate InNumber(c: char) {
    IsDigit(c) || c == '.' || c == 'x' || c == 'X' || 'a' <= c <= 'f' || 'A' <= c <= 'F' || c == 'u' || c == 'l'
  }

  function NumberEnd(s: string, i: nat): (r: nat)
    requires i <= |s|
    ensures i <= r <= |s|
    decreases |s| - i
  {
    if i < |s| && InNumber(s[i]) then NumberEnd(s, i + 1) else i
  }

  predicate Quotes(l: Language, c: char) {
    c == '"' || (l.singleQuotes && c == '\'') || (l.backTicks && c == '`')
  }

  // ----- keywords -----

  predicate WordFits(g: Group, s: string, i: nat, word: string) {
    && At(s, i, word)
    && (g.symbols || IsSeparator(if i + |word| < |s| then s[i + |word|] else NONE))
  }

  /** The first word of a group that fits at i. */
  function InGroup(g: Group, k: nat, s: string, i: nat): (r: Option<nat>)
    requires k <= |g.words|
    ensures r.Some? ==> 0 < r.value && i + r.value <= |s|
    decreases |g.words| - k
  {
    if k == |g.words| then None
    else if WordFits(g, s, i, g.words[k]) then Some(|g.words[k]|)
    else InGroup(g, k + 1, s, i)
  }

  /** The first group, from the g-th on, with a word that fits: its number and the length. */
  function FindWord(l: Language, g: nat, s: string, i: nat, sep: bool): (r: Option<(nat, nat)>)
    requires g <= |l.groups|
    ensures r.Some? ==> 0 < r.value.1 && i + r.value.1 <= |s|
    decreases |l.groups| - g
  {
    if g == |l.groups| then None
    else if !l.groups[g].symbols && !sep then FindWord(l, g + 1, s, i, sep)
    else
      match InGroup(l.groups[g], 0, s, i)
      case Some(n) => Some((g, n))
      case None => FindWord(l, g + 1, s, i, sep)
  }

  // ----- the general highlighter -----

  /** From position i on: whether a separator came before, the quote of the string we are in,
      and whether we are in a block comment. */
  function Scan(l: Language, s: string, i: nat, sep: bool, quote: char, comment: bool): (r: Painted)
    requires i <= |s|
    ensures |r.hl| == |s| - i
    decreases |s| - i
  {
    if i == |s| then Painted([], if comment then 1 else 0)
    else if quote == NONE && !comment && At(s, i, l.lineComment) then Painted(Fill(Comment, |s| - i), 0)
    else if quote == NONE && l.blockOpen != "" && comment then
      if At(s, i, l.blockClose) then
        Then(BlockComment, |l.blockClose|, Scan(l, s, i + |l.blockClose|, true, NONE, false))
      else Then(BlockComment, 1, Scan(l, s, i + 1, sep, NONE, true))
    else if quote == NONE && At(s, i, l.blockOpen) then
      Then(BlockComment, |l.blockOpen|, Scan(l, s, i + |l.blockOpen|, sep, NONE, true))
    else if quote != NONE then
      if s[i] == '\\' && i + 1 < |s| then Then(Escape, 2, Scan(l, s, i + 2, sep, quote, comment))
      else Then(String, 1, Scan(l, s, i + 1, true, if s[i] == quote then NONE else quote, comment))
    else if Quotes(l, s[i]) then Then(String, 1, Scan(l, s, i + 1, sep, s[i], comment))
    else if IsDigit(s[i]) && sep then
      var n := NumberEnd(s, i + 1);
      Then(Number, n - i, Scan(l, s, n, false, NONE, comment))
    else
      match FindWord(l, 0, s, i, sep)
      case Some(w) => Then(Keyword(w.0), w.1, Scan(l, s, i + w.1, false, NONE, comment))
      case None => Then(Normal, 1, Scan(l, s, i + 1, IsSeparator(s[i]), NONE, comment))
  }

  // ----- the html highlighter -----

  predicate InTagName(c: char) {
    IsAlpha(c) || IsDigit(c) || c == '/' || c == '!'
  }

  predicate InAttribute(c: char) {
    IsAlpha(c) || IsDigit(c) || c == '-' || c == ':'
  }

  function TagEnd(s: string, i: nat): (r: nat)
    requires i <= |s|
    ensures i <= r <= |s|
    decreases |s| - i
  {
    if i < |s| && InTagName(s[i]) then TagEnd(s, i + 1) else i
  }

  function AttributeEnd(s: string, i: nat): (r: nat)
    requires i <= |s|
    ensures i <= r <= |s|
    decreases |s| - i
  {
    if i < |s| && InAttribute(s[i]) then AttributeEnd(s, i + 1) else i
  }

  /** Where the search for the end of an entity that starts at i stops. */
  function EntityEnd(s: string, i: nat, j: nat): (r: nat)
    requires i <= j <= |s|
    ensures j <= r <= |s|
    decreases |s| - j
  {
    if j < |s| && s[j] != ';' && s[j] != ' ' && j - i < 12 then EntityEnd(s, i, j + 1) else j
  }

  /** State 0 is text, 1 a comment, 2 the inside of a tag. */
  function HtmlScan(s: string, i: nat, state: int, quote: char): (r: Painted)
    requires i <= |s|
    ensures |r.hl| == |s| - i
    decreases |s| - i
  {
    if i == |s| then Painted([], state)
    else if state == 1 then
      if At(s, i, "-->") then Then(BlockComment, 3, HtmlScan(s, i + 3, 0, quote))
      else Then(BlockComment, 1, HtmlScan(s, i + 1, 1, quote))
    else if state == 0 then
      if At(s, i, "<!--") then Then(BlockComment, 4, HtmlScan(s, i + 4, 1, quote))
      else if s[i] == '<' then
        var n := TagEnd(s, i + 1);
        Then(Tag, n - i, HtmlScan(s, n, 2, quote))
      else if s[i] == '&' && (var j := EntityEnd(s, i, i + 1); j < |s| && s[j] == ';') then
        var j := EntityEnd(s, i, i + 1);
        Then(Escape, j - i + 1, HtmlScan(s, j + 1, 0, quote))
      else Then(Normal, 1, HtmlScan(s, i + 1, 0, quote))
    else if quote != NONE then
      Then(String, 1, HtmlScan(s, i + 1, state, if s[i] == quote then NONE else quote))
    else if s[i] == '"' || s[i] == '\'' then Then(String, 1, HtmlScan(s, i + 1, state, s[i]))
    else if s[i] == '>' then Then(Tag, 1, HtmlScan(s, i + 1, 0, quote))
    else if IsAlpha(s[i]) then
      var n := AttributeEnd(s, i + 1);
      Then(Attribute, n - i, HtmlScan(s, n, state, quote))
    else Then(Normal, 1, HtmlScan(s, i + 1, state, quote))
  }

  /** A whole row after a row that left `open` open; no language paints nothing. */
  function Highlight(l: Option<Language>, open: int, s: string): (r: Painted)
    ensures |r.hl| == |s|
  {
    match l
    case None => Painted(Fill(Normal, |s|), 0)
    case Some(lang) => if lang.html then HtmlScan(s, 0, open, NONE) else Scan(lang, s, 0, true, NONE, open == 1)
  }
}
