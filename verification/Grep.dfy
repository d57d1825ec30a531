/**
 grep with context lines (-A, -B, -m): one pass over the input with a ring buffer for
 the lines before a match and a counter for the lines after it.

 The output is proved to be what the options promise: exactly the lines within reach of
 a selected line, once each and in order, with "--" exactly where lines are left out.
 Which lines are selected is an arbitrary predicate.
 */
module Grep {

  import opened Wrappers

  datatype Out = Separator | Shown(k: nat, line: string, selected: bool)

  /** The options: lines after, lines before, and the limit on selected lines. */
  datatype Options = Options(after: nat, before: nat, max: Option<nat>) {
    predicate Context() {
      after > 0 || before > 0
    }
  }

  // ----- what should be printed -----

  /** Where the input ends as far as -m is concerned: just before the first selected line
      that comes after `max` selected ones.  `count` lines were selected before `from`. */
  function Cut(lines: seq<string>, sel: string -> bool, max: Option<nat>, from: nat, count: nat): (cut: nat)
    requires from <= |lines|
    ensures from <= cut <= |lines|
    decreases |lines| - from
  {
    if from == |lines| then from
    else if !sel(lines[from]) then Cut(lines, sel, max, from + 1, count)
    else if max == Some(count) then from
    else Cut(lines, sel, max, from + 1, count + 1)
  }

  /** How many lines are selected. */
  function Selected(lines: seq<string>, sel: string -> bool): nat {
    if lines == [] then 0
    else Selected(lines[..|lines| - 1], sel) + if sel(lines[|lines| - 1]) then 1 else 0
  }

  lemma {:induction false} SelectedNext(lines: seq<string>, sel: string -> bool, i: nat)
    requires i < |lines|
    ensures Selected(lines[..i + 1], sel) == Selected(lines[..i], sel) + if sel(lines[i]) then 1 else 0
  {
    assert lines[..i + 1][..i] == lines[..i];
  }

  lemma {:induction false} SelectedQuiet(lines: seq<string>, sel: string -> bool, i: nat, n: nat)
    requires i <= n <= |lines| && forall k :: i <= k < n ==> !sel(lines[k])
    ensures Selected(lines[..n], sel) == Selected(lines[..i], sel)
    decreases n - i
  {
    if i < n {
      SelectedNext(lines, sel, n - 1);
      SelectedQuiet(lines, sel, i, n - 1);
    }
  }

  /** Line k is within reach of a selected line of the first n. */
  ghost predicate InWindow(lines: seq<string>, sel: string -> bool, n: nat, opt: Options, k: int) {
    exists s :: 0 <= s < n && s < |lines| && sel(lines[s]) && s - opt.before <= k <= s + opt.after
  }

  /** The last line within reach before line m, or -1. */
  ghost function Last(lines: seq<string>, sel: string -> bool, n: nat, opt: Options, m: nat): int {
    if m == 0 then -1
    else if InWindow(lines, sel, n, opt, m - 1) then m - 1
    else Last(lines, sel, n, opt, m - 1)
  }

  /** "--" goes in front of line k: lines were left out, or an earlier file had output. */
  ghost predicate NeedsSeparator(lines: seq<string>, sel: string -> bool, n: nat, opt: Options, any: bool, k: nat) {
    opt.Context() && (if Last(lines, sel, n, opt, k) < 0 then any else Last(lines, sel, n, opt, k) + 1 < k)
  }

  /** The output for the first m lines, when only the first n lines count as input. */
  ghost function Expected(lines: seq<string>, sel: string -> bool, n: nat, opt: Options, any: bool, m: nat): seq<Out>
    requires m <= |lines|
  {
    if m == 0 then []
    else
      var before := Expected(lines, sel, n, opt, any, m - 1);
      if !InWindow(lines, sel, n, opt, m - 1) then before
      else before + (if NeedsSeparator(lines, sel, n, opt, any, m - 1) then [Separator] else [])
                  + [Shown(m - 1, lines[m - 1], sel(lines[m - 1]))]
  }

  // ----- what Expected means -----

  /** The line numbers shown, in order. */
  function Numbers(out: seq<Out>): seq<nat> {
    if out == [] then []
    else
      var last := out[|out| - 1];
      Numbers(out[..|out| - 1]) + (if last.Shown? then [last.k] else [])
  }

  lemma {:induction false} NumbersAppend(out: seq<Out>, sep: bool, o: Out)
    requires o.Shown?
    ensures Numbers(out + (if sep then [Separator] else []) + [o]) == Numbers(out) + [o.k]
  {
    var mid := out + (if sep then [Separator] else []);
    assert (mid + [o])[..|mid|] == mid;
    if sep {
      assert mid[..|out|] == out;
    } else {
      assert mid == out;
    }
  }

  /** ks lists exactly the lines before m within reach, in increasing order. */
  ghost predicate ListsWindows(lines: seq<string>, sel: string -> bool, n: nat, opt: Options, m: nat, ks: seq<nat>) {
    && (forall k: nat :: k in ks <==> k < m && InWindow(lines, sel, n, opt, k))
    && (forall i, j :: 0 <= i < j < |ks| ==> ks[i] < ks[j])
  }

  lemma {:induction false} ListsNext(
      lines: seq<string>, sel: string -> bool, n: nat, opt: Options, m: nat, ks: seq<nat>)
    requires ListsWindows(lines, sel, n, opt, m, ks)
    ensures !InWindow(lines, sel, n, opt, m) ==> ListsWindows(lines, sel, n, opt, m + 1, ks)
    ensures InWindow(lines, sel, n, opt, m) ==> ListsWindows(lines, sel, n, opt, m + 1, ks + [m])
  {
    hide InWindow;
    if InWindow(lines, sel, n, opt, m) {
      var all := ks + [m];
      forall k: nat ensures k in all <==> k < m + 1 && InWindow(lines, sel, n, opt, k) {
        assert k in all <==> k in ks || k == m;
      }
      forall i | 0 <= i < |ks| ensures ks[i] < m {
        assert ks[i] in ks;
      }
    }
  }

  /** Exactly the lines within reach are shown, once each and in order. */
  lemma {:induction false} ShowsTheWindows(
      lines: seq<string>, sel: string -> bool, n: nat, opt: Options, any: bool, m: nat)
    requires m <= |lines|
    ensures ListsWindows(lines, sel, n, opt, m, Numbers(Expected(lines, sel, n, opt, any, m)))
    decreases m
  {
    hide Expected, InWindow, Numbers, NeedsSeparator, ListsWindows;
    if m == 0 {
      ListsNone(lines, sel, n, opt, any);
    } else {
      ShowsTheWindows(lines, sel, n, opt, any, m - 1);
      var before := Expected(lines, sel, n, opt, any, m - 1);
      ExpectedNext(lines, sel, n, opt, any, m - 1);
      ListsNext(lines, sel, n, opt, m - 1, Numbers(before));
      if InWindow(lines, sel, n, opt, m - 1) {
        NumbersAppend(before, NeedsSeparator(lines, sel, n, opt, any, m - 1),
          Shown(m - 1, lines[m - 1], sel(lines[m - 1])));
      }
    }
  }

  lemma {:induction false} ListsNone(lines: seq<string>, sel: string -> bool, n: nat, opt: Options, any: bool)
    ensures ListsWindows(lines, sel, n, opt, 0, Numbers(Expected(lines, sel, n, opt, any, 0)))
  {
    assert Numbers([]) == [];
  }

  lemma {:induction false} ExpectedNext(
      lines: seq<string>, sel: string -> bool, n: nat, opt: Options, any: bool, m: nat)
    requires m < |lines|
    ensures Expected(lines, sel, n, opt, any, m + 1) ==
      if !InWindow(lines, sel, n, opt, m) then Expected(lines, sel, n, opt, any, m)
      else
        Expected(lines, sel, n, opt, any, m)
        + (if NeedsSeparator(lines, sel, n, opt, any, m) then [Separator] else [])
        + [Shown(m, lines[m], sel(lines[m]))]
  {
    hide InWindow, NeedsSeparator;
  }

  /** The output is right around position i: a shown line carries its own text and directly
      follows a shown line only if it is the next one; a separator marks lines left out. */
  ghost predicate RightAt(lines: seq<string>, sel: string -> bool, opt: Options, any: bool, out: seq<Out>, i: nat)
    requires i < |out|
  {
    match out[i]
    case Shown(k, line, selected) =>
      && k < |lines| && line == lines[k] && selected == sel(lines[k])
      && (i == 0 ==> !(opt.Context() && any))
      && (i > 0 && out[i - 1].Shown? ==> if opt.Context() then k == out[i - 1].k + 1 else k > out[i - 1].k)
    case Separator =>
      && opt.Context() && i + 1 < |out| && out[i + 1].Shown?
      && (i == 0 ==> any)
      && (i > 0 ==> out[i - 1].Shown? && out[i - 1].k + 1 < out[i + 1].k)
  }

  ghost predicate GapsMarked(lines: seq<string>, sel: string -> bool, opt: Options, any: bool, out: seq<Out>) {
    && (out != [] ==> out[|out| - 1].Shown?)
    && forall i :: 0 <= i < |out| ==> RightAt(lines, sel, opt, any, out, i)
  }

  lemma {:induction false} MarksTheGaps(
      lines: seq<string>, sel: string -> bool, n: nat, opt: Options, any: bool, m: nat)
    requires m <= |lines|
    ensures var out := Expected(lines, sel, n, opt, any, m);
      && GapsMarked(lines, sel, opt, any, out)
      && (out == [] <==> Last(lines, sel, n, opt, m) < 0)
      && (out != [] ==> out[|out| - 1].Shown? && out[|out| - 1].k == Last(lines, sel, n, opt, m))
      && Last(lines, sel, n, opt, m) < m
    decreases m
  {
    if m > 0 {
      hide Expected, InWindow, GapsMarked;
      ExpectedNext(lines, sel, n, opt, any, m - 1);
      MarksTheGaps(lines, sel, n, opt, any, m - 1);
      if InWindow(lines, sel, n, opt, m - 1) {
        var before := Expected(lines, sel, n, opt, any, m - 1);
        MarksNext(lines, sel, opt, any, before, NeedsSeparator(lines, sel, n, opt, any, m - 1), m - 1);
      }
    }
  }

  lemma {:induction false} MarksNext(
      lines: seq<string>, sel: string -> bool, opt: Options, any: bool, out: seq<Out>, sep: bool, k: nat)
    requires GapsMarked(lines, sel, opt, any, out) && k < |lines|
    requires sep == (opt.Context() && if out == [] then any else out[|out| - 1].Shown? && out[|out| - 1].k + 1 < k)
    requires out != [] ==> out[|out| - 1].Shown? && out[|out| - 1].k < k
    ensures GapsMarked(lines, sel, opt, any,
              out + (if sep then [Separator] else []) + [Shown(k, lines[k], sel(lines[k]))])
  {
    var o := Shown(k, lines[k], sel(lines[k]));
    var all := out + (if sep then [Separator] else []) + [o];
    assert all[|all| - 1] == o;
    assert sep ==> all[|out|] == Separator && |all| == |out| + 2;
    assert !sep ==> |all| == |out| + 1;
    forall i | 0 <= i < |all|
      ensures RightAt(lines, sel, opt, any, all, i)
    {
      if i < |out| {
        assert RightAt(lines, sel, opt, any, out, i);
        assert all[i] == out[i];
        assert i > 0 ==> all[i - 1] == out[i - 1];
        assert i + 1 < |out| ==> all[i + 1] == out[i + 1];
      } else if |out| > 0 {
        assert all[|out| - 1] == out[|out| - 1];
      }
    }
  }

  // ----- the pass over the input -----

  datatype Held = Held(k: nat, line: string)

  /** The output stream and what grep remembers about it. */
  class Output {
    var text: seq<Out>
    var printedAny: bool
    var fileHasOut: bool
    var lastOut: int

    constructor ()
      ensures text == [] && !printedAny && !fileHasOut
    {
      text, printedAny, fileHasOut, lastOut := [], false, false, -1;
    }

    /** The bookkeeping agrees with the output for the first m lines. */
    ghost predicate UpTo(
        lines: seq<string>, sel: string -> bool, n: nat, opt: Options, any: bool, base: seq<Out>, m: nat)
      requires m <= |lines|
      reads this
    {
      && text == base + Expected(lines, sel, n, opt, any, m)
      && (opt.Context() ==>
            && printedAny == (any || fileHasOut)
            && fileHasOut == (Last(lines, sel, n, opt, m) >= 0)
            && (fileHasOut ==> lastOut == Last(lines, sel, n, opt, m)))
    }

    /** Print one line, with "--" in front of it if lines were left out before it. */
    method EmitLine(opt: Options, k: nat, line: string, selected: bool)
      modifies this
      ensures text == old(text)
        + (if opt.Context() && old(printedAny) && (!old(fileHasOut) || k > old(lastOut) + 1) then [Separator] else [])
        + [Shown(k, line, selected)]
      ensures if opt.Context() then printedAny && fileHasOut && lastOut == k
              else printedAny == old(printedAny) && fileHasOut == old(fileHasOut) && lastOut == old(lastOut)
    {
      if opt.after > 0 || opt.before > 0 {
        if printedAny && (!fileHasOut || k > lastOut + 1) {
          text := text + [Separator];
        }
        printedAny := true;
        fileHasOut := true;
        lastOut := k;
      }
      text := text + [Shown(k, line, selected)];
    }

    /** Printing the next line within reach keeps the bookkeeping right. */
    method EmitNext(
        lines: seq<string>, sel: string -> bool, ghost n: nat, opt: Options, ghost any: bool, ghost base: seq<Out>,
        k: nat, line: string)
      requires k < |lines| && line == lines[k] && InWindow(lines, sel, n, opt, k)
      requires UpTo(lines, sel, n, opt, any, base, k)
      modifies this
      ensures UpTo(lines, sel, n, opt, any, base, k + 1)
    {
      hide InWindow, Expected;
      LastBound(lines, sel, n, opt, k);
      ExpectedNext(lines, sel, n, opt, any, k);
      var selected := sel(line);
      EmitLine(opt, k, line, selected);
    }

    /** A line out of reach is passed over. */
    lemma {:induction false} PassOver(
        lines: seq<string>, sel: string -> bool, n: nat, opt: Options, any: bool, base: seq<Out>, k: nat)
      requires k < |lines| && !InWindow(lines, sel, n, opt, k)
      requires UpTo(lines, sel, n, opt, any, base, k)
      ensures UpTo(lines, sel, n, opt, any, base, k + 1)
    {
      ExpectedNext(lines, sel, n, opt, any, k);
    }

    /** Nothing in reach any more: the rest is passed over. */
    lemma {:induction false} PassRest(
        lines: seq<string>, sel: string -> bool, n: nat, opt: Options, any: bool, base: seq<Out>, k: nat)
      requires k <= n <= |lines| && (k < n ==> OutOfReach(lines, sel, n, opt, k))
      requires UpTo(lines, sel, n, opt, any, base, k)
      ensures UpTo(lines, sel, n, opt, any, base, n)
      decreases n - k
    {
      if k < n {
        PassOver(lines, sel, n, opt, any, base, k);
        PassRest(lines, sel, n, opt, any, base, k + 1);
      }
    }
  }

  lemma {:induction false} LastBound(lines: seq<string>, sel: string -> bool, n: nat, opt: Options, m: nat)
    ensures -1 <= Last(lines, sel, n, opt, m) < m
    decreases m
  {
    if m > 0 {
      LastBound(lines, sel, n, opt, m - 1);
    }
  }

  /** The first m lines are all that reach line m or further reaches into. */
  ghost predicate OutOfReach(lines: seq<string>, sel: string -> bool, n: nat, opt: Options, m: nat) {
    forall s :: 0 <= s < n && s < |lines| && sel(lines[s]) ==> s + opt.after < m
  }

  /** After `max` selected lines no line is selected before the cut. */
  lemma {:induction false} QuietUntilCut(lines: seq<string>, sel: string -> bool, i: nat, count: nat)
    requires i <= |lines|
    ensures forall s :: i <= s < Cut(lines, sel, Some(count), i, count) ==> !sel(lines[s])
    decreases |lines| - i
  {
    if i < |lines| && !sel(lines[i]) {
      QuietUntilCut(lines, sel, i + 1, count);
    }
  }

  /** The scan after i lines: everything before f is decided, the ring holds lines f to i,
      and `ls` is the last selected line (far below zero if there is none). */
  ghost predicate Scanned(lines: seq<string>, sel: string -> bool, opt: Options, i: nat, f: nat, ls: int) {
    && f <= i <= |lines| && i - f <= opt.before
    && ls < f && (if ls >= 0 then sel(lines[ls]) else ls == 0 - opt.after - 1)
    && (forall s :: 0 <= s < i && sel(lines[s]) ==> s <= ls)
    && (f < i ==> ls + opt.after < f)
  }

  function AfterLeft(opt: Options, i: nat, ls: int): int {
    if ls + opt.after >= i then ls + opt.after - i + 1 else 0
  }

  /** Line p is neither selected nor in reach of an earlier line: it is held, and a line
      that leaves the ring is out of reach for good. */
  lemma {:induction false} HoldLine(
      lines: seq<string>, sel: string -> bool, n: nat, opt: Options, p: nat, f: nat, ls: int)
    requires Scanned(lines, sel, opt, p, f, ls) && p < |lines| && n <= |lines|
    requires !sel(lines[p]) && AfterLeft(opt, p, ls) == 0
    ensures p - f < opt.before ==> Scanned(lines, sel, opt, p + 1, f, ls)
    ensures p - f == opt.before ==> Scanned(lines, sel, opt, p + 1, f + 1, ls) && !InWindow(lines, sel, n, opt, f)
  {
  }

  /** Everything in the ring and the selected line itself is in reach of it. */
  lemma {:induction false} SelectLine(
      lines: seq<string>, sel: string -> bool, n: nat, opt: Options, p: nat, f: nat, ls: int, k: nat)
    requires Scanned(lines, sel, opt, p, f, ls) && p < n <= |lines| && sel(lines[p]) && f <= k <= p
    ensures InWindow(lines, sel, n, opt, k)
    ensures Scanned(lines, sel, opt, p + 1, p + 1, p)
  {
  }

  lemma {:induction false} TrailLine(
      lines: seq<string>, sel: string -> bool, n: nat, opt: Options, p: nat, f: nat, ls: int)
    requires Scanned(lines, sel, opt, p, f, ls) && p < |lines| && p < n
    requires !sel(lines[p]) && AfterLeft(opt, p, ls) > 0
    ensures f == p && InWindow(lines, sel, n, opt, p)
    ensures Scanned(lines, sel, opt, p + 1, p + 1, ls) && AfterLeft(opt, p + 1, ls) == AfterLeft(opt, p, ls) - 1
  {
    assert ls >= 0;
    assert ls - opt.before <= p <= ls + opt.after;
  }

  /** The index (head + k) % size without the division. */
  function Slot(head: nat, k: nat, size: nat): (r: nat)
    requires head < size && k <= size
    ensures r < size
  {
    if head + k < size then head + k else head + k - size
  }

  lemma {:induction false} RingSlot(head: nat, k: nat, size: nat)
    requires head < size && k <= size
    ensures (head + k) % size == Slot(head, k, size)
  {
    var x := head + k;
    var q, m := x / size, x % size;
    assert q * size + m == x;
    if q >= 2 {
      AtLeastTwice(q, size);
      assert false;
    }
  }

  lemma {:induction false} AtLeastTwice(q: nat, size: nat)
    requires q >= 2
    ensures q * size >= 2 * size
  {
  }

  /** Slot j of the ring, counted from its head, holds line f + j. */
  ghost predicate RingHolds(lines: seq<string>, ring: seq<Held>, head: nat, count: nat, f: nat) {
    && count <= |ring| && f + count <= |lines|
    && (|ring| > 0 ==> head < |ring|)
    && forall j :: 0 <= j < count ==> ring[Slot(head, j, |ring|)] == Held(f + j, lines[f + j])
  }

  lemma {:induction false} RingGrows(lines: seq<string>, ring: seq<Held>, head: nat, count: nat, f: nat)
    requires RingHolds(lines, ring, head, count, f) && count < |ring| && f + count < |lines|
    ensures RingHolds(lines, ring[Slot(head, count, |ring|) := Held(f + count, lines[f + count])], head, count + 1, f)
  {
  }

  lemma {:induction false} RingTurns(lines: seq<string>, ring: seq<Held>, head: nat, f: nat)
    requires RingHolds(lines, ring, head, |ring|, f) && |ring| > 0 && f + |ring| < |lines|
    ensures RingHolds(lines, ring[head := Held(f + |ring|, lines[f + |ring|])], Slot(head, 1, |ring|), |ring|, f + 1)
  {
    var size := |ring|;
    var ring' := ring[head := Held(f + size, lines[f + size])];
    forall j | 0 <= j < size
      ensures ring'[Slot(Slot(head, 1, size), j, size)] == Held(f + 1 + j, lines[f + 1 + j])
    {
      assert Slot(Slot(head, 1, size), j, size) == Slot(head, j + 1, size) || j + 1 == size;
      if j + 1 < size {
        assert ring[Slot(head, j + 1, size)] == Held(f + (j + 1), lines[f + (j + 1)]);
      }
    }
  }

  /** Put a line into the ring, over the oldest one if it is full. */
  method HoldInRing(
      lines: seq<string>, ring: array<Held>, head: nat, count: nat, ghost f: nat, p: nat)
    returns (head': nat, count': nat)
    requires RingHolds(lines, ring[..], head, count, f) && ring.Length > 0 && p == f + count < |lines|
    modifies ring
    ensures count' == (if count < ring.Length then count + 1 else count)
    ensures RingHolds(lines, ring[..], head', count', if count < ring.Length then f else f + 1)
  {
    ghost var old_ring := ring[..];
    head', count' := head, count;
    if count < ring.Length {
      RingSlot(head, count, ring.Length);
      RingGrows(lines, old_ring, head, count, f);
      ring[(head + count) % ring.Length] := Held(p, lines[p]);
      count' := count + 1;
      assert ring[..] == old_ring[Slot(head, count, ring.Length) := Held(p, lines[p])];
    } else {
      RingTurns(lines, old_ring, head, f);
      RingSlot(head, 1, ring.Length);
      ring[head] := Held(p, lines[p]);
      head' := (head + 1) % ring.Length;
      assert ring[..] == old_ring[head := Held(p, lines[p])];
    }
  }

  /** Print the held lines in order. */
  method EmitRing(
      out: Output, lines: seq<string>, sel: string -> bool, ghost n: nat, opt: Options, ghost any: bool,
      ghost base: seq<Out>, ring: array<Held>, head: nat, count: nat, ghost f: nat, ghost ls: int)
    requires RingHolds(lines, ring[..], head, count, f)
    requires Scanned(lines, sel, opt, f + count, f, ls) && f + count < n <= |lines| && sel(lines[f + count])
    requires out.UpTo(lines, sel, n, opt, any, base, f)
    modifies out
    ensures out.UpTo(lines, sel, n, opt, any, base, f + count)
  {
    for k := 0 to count
      invariant out.UpTo(lines, sel, n, opt, any, base, f + k)
      invariant RingHolds(lines, ring[..], head, count, f)
    {
      RingSlot(head, k, ring.Length);
      assert ring[..][Slot(head, k, ring.Length)] == Held(f + k, lines[f + k]);
      var h := ring[(head + k) % ring.Length];
      SelectLine(lines, sel, n, opt, f + count, f, ls, f + k);
      out.EmitNext(lines, sel, n, opt, any, base, h.k, h.line);
    }
  }

  /** After the last selected line that counts: its trailing context, up to the next selected line. */
  method EmitTrailing(
      out: Output, lines: seq<string>, sel: string -> bool, ghost n: nat, opt: Options, ghost any: bool,
      ghost base: seq<Out>, start: nat, left: nat, ghost ls: int)
    requires Scanned(lines, sel, opt, start, start, ls) && left == AfterLeft(opt, start, ls) && start <= n <= |lines|
    requires (n < |lines| ==> sel(lines[n])) && forall s :: start <= s < n ==> !sel(lines[s])
    requires out.UpTo(lines, sel, n, opt, any, base, start)
    modifies out
    ensures out.UpTo(lines, sel, n, opt, any, base, n)
  {
    var i, afterLeft := start, left;
    while afterLeft > 0 && i < |lines|
      invariant start <= i <= n && Scanned(lines, sel, opt, i, i, ls) && afterLeft == AfterLeft(opt, i, ls)
      invariant out.UpTo(lines, sel, n, opt, any, base, i)
    {
      if sel(lines[i]) {
        break;
      }
      TrailLine(lines, sel, n, opt, i, i, ls);
      out.EmitNext(lines, sel, n, opt, any, base, i, lines[i]);
      i, afterLeft := i + 1, afterLeft - 1;
    }
    if i < n {
      out.PassRest(lines, sel, n, opt, any, base, i);
    }
  }

  /** The output for a whole input. */
  ghost function WholeOutput(lines: seq<string>, sel: string -> bool, opt: Options, any: bool): seq<Out> {
    Expected(lines, sel, |lines|, opt, any, |lines|)
  }

  /** Lines from n on do not matter once only the first n count. */
  lemma {:induction false} ExpectedOfCut(
      lines: seq<string>, sel: string -> bool, n: nat, opt: Options, any: bool, m: nat)
    requires m <= n <= |lines|
    ensures Expected(lines, sel, n, opt, any, m) == Expected(lines[..n], sel, n, opt, any, m)
    ensures Last(lines, sel, n, opt, m) == Last(lines[..n], sel, n, opt, m)
    decreases m
  {
    if m > 0 {
      ExpectedOfCut(lines, sel, n, opt, any, m - 1);
      assert InWindow(lines, sel, n, opt, m - 1) <==> InWindow(lines[..n], sel, n, opt, m - 1);
    }
  }

  /** The state of the pass after i lines: scan, ring and output agree. */
  ghost predicate Running(
      out: Output, lines: seq<string>, sel: string -> bool, n: nat, opt: Options, any: bool, base: seq<Out>,
      ring: array<Held>, head: nat, count: nat, i: nat, ls: int)
    reads out, ring
  {
    && count <= i <= |lines| && ring.Length == opt.before
    && Scanned(lines, sel, opt, i, i - count, ls)
    && RingHolds(lines, ring[..], head, count, i - count)
    && out.UpTo(lines, sel, n, opt, any, base, i - count)
  }

  /** A selected line: print what is held, then the line. */
  method TakeSelected(
      out: Output, lines: seq<string>, sel: string -> bool, ghost n: nat, opt: Options, ghost any: bool,
      ghost base: seq<Out>, ring: array<Held>, head: nat, count: nat, i: nat, ghost ls: int)
    requires Running(out, lines, sel, n, opt, any, base, ring, head, count, i, ls)
    requires i < n <= |lines| && sel(lines[i])
    modifies out
    ensures Running(out, lines, sel, n, opt, any, base, ring, head, 0, i + 1, i)
  {
    hide InWindow, Expected, RingHolds, Scanned, Last;
    EmitRing(out, lines, sel, n, opt, any, base, ring, head, count, i - count, ls);
    SelectLine(lines, sel, n, opt, i, i - count, ls, i);
    out.EmitNext(lines, sel, n, opt, any, base, i, lines[i]);
    EmptyRing(lines, ring[..], head, count, i - count, i + 1);
  }

  /** A line in the trailing context: print it. */
  method TakeTrailing(
      out: Output, lines: seq<string>, sel: string -> bool, ghost n: nat, opt: Options, ghost any: bool,
      ghost base: seq<Out>, ring: array<Held>, head: nat, count: nat, i: nat, ghost ls: int)
    requires Running(out, lines, sel, n, opt, any, base, ring, head, count, i, ls)
    requires i < n <= |lines| && !sel(lines[i]) && AfterLeft(opt, i, ls) > 0
    modifies out
    ensures count == 0 && Running(out, lines, sel, n, opt, any, base, ring, head, count, i + 1, ls)
    ensures AfterLeft(opt, i + 1, ls) == AfterLeft(opt, i, ls) - 1
  {
    hide InWindow, Expected, RingHolds, Scanned, Last;
    TrailLine(lines, sel, n, opt, i, i - count, ls);
    out.EmitNext(lines, sel, n, opt, any, base, i, lines[i]);
    EmptyRing(lines, ring[..], head, count, i - count, i + 1);
  }

  /** Any other line: hold it in case a selected line follows. */
  method TakeOther(
      out: Output, lines: seq<string>, sel: string -> bool, ghost n: nat, opt: Options, ghost any: bool,
      ghost base: seq<Out>, ring: array<Held>, head: nat, count: nat, i: nat, ghost ls: int)
    returns (head': nat, count': nat)
    requires Running(out, lines, sel, n, opt, any, base, ring, head, count, i, ls)
    requires i < n <= |lines| && !sel(lines[i]) && AfterLeft(opt, i, ls) == 0
    modifies ring
    ensures Running(out, lines, sel, n, opt, any, base, ring, head', count', i + 1, ls)
    ensures AfterLeft(opt, i + 1, ls) == 0
  {
    hide InWindow, Expected, RingHolds, Scanned, Last;
    RingLimits(lines, ring[..], head, count, i - count);
    HoldLine(lines, sel, n, opt, i, i - count, ls);
    if count == opt.before {
      out.PassOver(lines, sel, n, opt, any, base, i - count);
    }
    ghost var f := if count < opt.before then i - count else i - count + 1;
    assert out.UpTo(lines, sel, n, opt, any, base, f) && Scanned(lines, sel, opt, i + 1, f, ls);
    if opt.before > 0 {
      head', count' := HoldInRing(lines, ring, head, count, i - count, i);
    } else {
      EmptyRing(lines, ring[..], head, count, i - count, i + 1);
      head', count' := head, 0;
    }
  }

  lemma {:induction false} RingLimits(lines: seq<string>, ring: seq<Held>, head: nat, count: nat, f: nat)
    requires RingHolds(lines, ring, head, count, f)
    ensures count <= |ring|
  {
  }

  /** One line of the input. */
  method TakeLine(
      out: Output, lines: seq<string>, sel: string -> bool, ghost n: nat, opt: Options, ghost any: bool,
      ghost base: seq<Out>, ring: array<Held>, head: nat, count: nat, afterLeft: nat, i: nat, ghost ls: int)
    returns (head': nat, count': nat, afterLeft': nat, ghost ls': int)
    requires Running(out, lines, sel, n, opt, any, base, ring, head, count, i, ls)
    requires i < n <= |lines| && afterLeft == AfterLeft(opt, i, ls)
    modifies out, ring
    ensures Running(out, lines, sel, n, opt, any, base, ring, head', count', i + 1, ls')
    ensures afterLeft' == AfterLeft(opt, i + 1, ls') && (sel(lines[i]) ==> count' == 0)
  {
    hide Running;
    head', count', afterLeft', ls' := head, count, afterLeft, ls;
    if sel(lines[i]) {
      TakeSelected(out, lines, sel, n, opt, any, base, ring, head, count, i, ls);
      count', afterLeft', ls' := 0, opt.after, i;
    } else if afterLeft > 0 {
      TakeTrailing(out, lines, sel, n, opt, any, base, ring, head, count, i, ls);
      afterLeft' := afterLeft - 1;
    } else {
      head', count' := TakeOther(out, lines, sel, n, opt, any, base, ring, head, count, i, ls);
    }
  }

  /**
   The pass over one input.  With -m N the input is treated as if it ended just before
   the (N+1)-th selected line; -m 0 is dealt with before any input is opened.
   */
  method GrepStream(out: Output, lines: seq<string>, sel: string -> bool, opt: Options) returns (selected: nat)
    requires opt.max != Some(0)
    modifies out
    ensures out.text == old(out.text)
      + WholeOutput(lines[..Cut(lines, sel, opt.max, 0, 0)], sel, opt, old(out.printedAny))
    ensures opt.Context() ==> out.printedAny == (old(out.printedAny) || out.fileHasOut)
    ensures selected == Selected(lines[..Cut(lines, sel, opt.max, 0, 0)], sel)
  {
    hide *;
    ghost var n := Cut(lines, sel, opt.max, 0, 0);
    ghost var any, base := out.printedAny, out.text;
    ghost var ls := 0 - opt.after - 1;
    CutOutput(lines, sel, n, opt, any);
    out.fileHasOut := false;
    var ring := new Held[opt.before](_ => Held(0, ""));
    var ringHead, ringN, afterLeft := 0, 0, 0;
    StartRunning(out, lines, sel, n, opt, any, base, ring);
    selected := 0;
    var i := 0;
    NoneSelected(lines, sel);
    while i < |lines|
      invariant 0 <= i <= |lines| && fresh(ring) && selected == Selected(lines[..i], sel)
      invariant n == Cut(lines, sel, opt.max, i, selected) && (opt.max.Some? ==> selected < opt.max.value)
      invariant afterLeft == AfterLeft(opt, i, ls)
      invariant Running(out, lines, sel, n, opt, any, base, ring, ringHead, ringN, i, ls)
    {
      CutNext(lines, sel, opt.max, i, selected);
      ringHead, ringN, afterLeft, ls :=
        TakeLine(out, lines, sel, n, opt, any, base, ring, ringHead, ringN, afterLeft, i, ls);
      SelectedNext(lines, sel, i);
      if sel(lines[i]) {
        selected := selected + 1;
        if opt.max.Some? && selected >= opt.max.value {
          QuietUntilCut(lines, sel, i + 1, selected);
          SelectedQuiet(lines, sel, i + 1, n);
          FinishTrailing(out, lines, sel, n, opt, any, base, ring, ringHead, afterLeft, i + 1, selected, ls);
          return;
        }
      }
      i := i + 1;
    }
    CutNext(lines, sel, opt.max, i, selected);
    FinishedAtEnd(out, lines, sel, n, opt, any, base, ring, ringHead, ringN, i, ls);
  }

  lemma {:induction false} NoneSelected(lines: seq<string>, sel: string -> bool)
    ensures Selected(lines[..0], sel) == 0
  {
  }

  /** The last selected line that counts was just printed: its trailing context, and done. */
  method FinishTrailing(
      out: Output, lines: seq<string>, sel: string -> bool, ghost n: nat, opt: Options, ghost any: bool,
      ghost base: seq<Out>, ring: array<Held>, head: nat, afterLeft: nat, i: nat, selected: nat, ghost ls: int)
    requires Running(out, lines, sel, n, opt, any, base, ring, head, 0, i, ls) && afterLeft == AfterLeft(opt, i, ls)
    requires n == Cut(lines, sel, Some(selected), i, selected)
    modifies out
    ensures out.text == base + Expected(lines, sel, n, opt, any, n)
    ensures opt.Context() ==> out.printedAny == (any || out.fileHasOut)
  {
    hide Expected, Last, InWindow, RingHolds;
    QuietUntilCut(lines, sel, i, selected);
    CutIsSelected(lines, sel, Some(selected), i, selected);
    EmitTrailing(out, lines, sel, n, opt, any, base, i, afterLeft, ls);
  }

  lemma {:induction false} FinishedAtEnd(
      out: Output, lines: seq<string>, sel: string -> bool, n: nat, opt: Options, any: bool, base: seq<Out>,
      ring: array<Held>, head: nat, count: nat, i: nat, ls: int)
    requires Running(out, lines, sel, n, opt, any, base, ring, head, count, i, ls) && i == n == |lines|
    ensures out.text == base + Expected(lines, sel, n, opt, any, n)
    ensures opt.Context() ==> out.printedAny == (any || out.fileHasOut)
  {
    hide Expected, Last, InWindow, RingHolds;
    EndScan(lines, sel, n, opt, i, i - count, ls);
    out.PassRest(lines, sel, n, opt, any, base, i - count);
  }

  lemma {:induction false} CutOutput(lines: seq<string>, sel: string -> bool, n: nat, opt: Options, any: bool)
    requires n <= |lines|
    ensures Expected(lines, sel, n, opt, any, n) == WholeOutput(lines[..n], sel, opt, any)
  {
    ExpectedOfCut(lines, sel, n, opt, any, n);
  }

  lemma {:induction false} CutNext(lines: seq<string>, sel: string -> bool, max: Option<nat>, i: nat, count: nat)
    requires i <= |lines| && (max.Some? ==> count < max.value)
    ensures i == |lines| ==> Cut(lines, sel, max, i, count) == i
    ensures i < |lines| ==>
      Cut(lines, sel, max, i, count) == Cut(lines, sel, max, i + 1, if sel(lines[i]) then count + 1 else count)
    ensures i < |lines| ==> i < Cut(lines, sel, max, i, count) <= |lines|
  {
  }

  lemma {:induction false} StartRunning(
      out: Output, lines: seq<string>, sel: string -> bool, n: nat, opt: Options, any: bool, base: seq<Out>,
      ring: array<Held>)
    requires out.text == base && out.printedAny == any && !out.fileHasOut && ring.Length == opt.before
    ensures Running(out, lines, sel, n, opt, any, base, ring, 0, 0, 0, 0 - opt.after - 1)
    ensures AfterLeft(opt, 0, 0 - opt.after - 1) == 0
  {
    StartScan(lines, sel, n, opt, any);
    StartRing(lines, ring[..]);
  }

  lemma {:induction false} StartScan(lines: seq<string>, sel: string -> bool, n: nat, opt: Options, any: bool)
    ensures Scanned(lines, sel, opt, 0, 0, 0 - opt.after - 1)
    ensures Expected(lines, sel, n, opt, any, 0) == [] && Last(lines, sel, n, opt, 0) == -1
  {
  }

  lemma {:induction false} StartRing(lines: seq<string>, ring: seq<Held>)
    ensures RingHolds(lines, ring, 0, 0, 0)
  {
  }

  lemma {:induction false} EmptyRing(lines: seq<string>, ring: seq<Held>, head: nat, count: nat, f: nat, f': nat)
    requires RingHolds(lines, ring, head, count, f) && f' <= |lines|
    ensures RingHolds(lines, ring, head, 0, f')
  {
  }

  lemma {:induction false} EndScan(
      lines: seq<string>, sel: string -> bool, n: nat, opt: Options, i: nat, f: nat, ls: int)
    requires Scanned(lines, sel, opt, i, f, ls) && i == |lines| && n <= |lines|
    requires n == i
    ensures f <= n && (f < n ==> OutOfReach(lines, sel, n, opt, f))
  {
  }

  lemma {:induction false} CutIsSelected(lines: seq<string>, sel: string -> bool, max: Option<nat>, i: nat, count: nat)
    requires i <= |lines|
    ensures var n := Cut(lines, sel, max, i, count); n < |lines| ==> sel(lines[n])
    decreases |lines| - i
  {
    if i < |lines| && !(sel(lines[i]) && max == Some(count)) {
      CutIsSelected(lines, sel, max, i + 1, if sel(lines[i]) then count + 1 else count);
    }
  }
}
