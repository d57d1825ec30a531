/**
 diff: a line-by-line comparison that resynchronises by looking ahead.

 The comparison never backtracks and looks at most 64 lines ahead, so its hunks need not
 be the shortest; they are proved to be a correct edit script all the same: applied by
 their header numbers they turn the first file into the second and back.
 */
module Diff {

  import opened Wrappers

  type Line = string

  const LOOKAHEAD: nat := 64

  // ----- what is printed -----

  datatype Op = Append | Delete | Change

  /** A printed hunk: the header "left op right" and the lines under it. */
  datatype Hunk = Hunk(l1: int, l2: int, op: Op, r1: int, r2: int, minus: seq<Line>, plus: seq<Line>)

  /** The header numbers of a hunk that replaces a[aFrom..aTo] by b[bFrom..bTo]. */
  function PrintHunk(a: seq<Line>, aFrom: nat, aTo: nat, b: seq<Line>, bFrom: nat, bTo: nat): Hunk
    requires aFrom <= aTo <= |a| && bFrom <= bTo <= |b|
  {
    var aCount := aTo - aFrom;
    var bCount := bTo - bFrom;
    var op := if aCount == 0 then Append else if bCount == 0 then Delete else Change;
    var l1 := if aCount == 0 then aFrom else aFrom + 1;
    var l2 := if aCount <= 1 then l1 else aTo;
    var r1 := if bCount == 0 then bFrom else bFrom + 1;
    var r2 := if bCount <= 1 then r1 else bTo;
    Hunk(l1, l2, op, r1, r2, a[aFrom..aTo], b[bFrom..bTo])
  }

  // ----- what a hunk means to a reader -----

  /** The half-open range of old lines a header speaks of. */
  function OldFrom(h: Hunk): int {
    if h.op == Append then h.l1 else h.l1 - 1
  }

  function OldTo(h: Hunk): int {
    h.l2
  }

  function NewFrom(h: Hunk): int {
    if h.op == Delete then h.r1 else h.r1 - 1
  }

  function NewTo(h: Hunk): int {
    h.r2
  }

  /** The first n old lines with the hunks applied, last hunk last; None if one does not fit. */
  ghost function Patched(a: seq<Line>, n: nat, hunks: seq<Hunk>): Option<seq<Line>>
    requires n <= |a|
    decreases |hunks|
  {
    if hunks == [] then Some(a[..n])
    else
      var h := hunks[|hunks| - 1];
      if !(0 <= OldFrom(h) <= OldTo(h) <= n) || h.minus != a[OldFrom(h)..OldTo(h)] then None
      else
        match Patched(a, OldFrom(h), hunks[..|hunks| - 1])
        case None => None
        case Some(before) => Some(before + h.plus + a[OldTo(h)..n])
  }

  /** The same read backwards: the first n new lines with the hunks undone. */
  ghost function Unpatched(b: seq<Line>, n: nat, hunks: seq<Hunk>): Option<seq<Line>>
    requires n <= |b|
    decreases |hunks|
  {
    if hunks == [] then Some(b[..n])
    else
      var h := hunks[|hunks| - 1];
      if !(0 <= NewFrom(h) <= NewTo(h) <= n) || h.plus != b[NewFrom(h)..NewTo(h)] then None
      else
        match Unpatched(b, NewFrom(h), hunks[..|hunks| - 1])
        case None => None
        case Some(before) => Some(before + h.minus + b[NewTo(h)..n])
  }

  /** The hunks are an edit script for the first i old and the first j new lines. */
  ghost predicate Script(a: seq<Line>, i: nat, b: seq<Line>, j: nat, hunks: seq<Hunk>)
    requires i <= |a| && j <= |b|
  {
    Patched(a, i, hunks) == Some(b[..j]) && Unpatched(b, j, hunks) == Some(a[..i])
  }

  lemma {:induction false} ScriptOverCommonLine(a: seq<Line>, i: nat, b: seq<Line>, j: nat, hunks: seq<Hunk>)
    requires i < |a| && j < |b| && a[i] == b[j] && Script(a, i, b, j, hunks)
    ensures Script(a, i + 1, b, j + 1, hunks)
  {
    PatchedNext(a, i, hunks);
    UnpatchedNext(b, j, hunks);
    assert a[..i] + [a[i]] == a[..i + 1];
    assert b[..j] + [b[j]] == b[..j + 1];
  }

  lemma {:induction false} PatchedNext(a: seq<Line>, i: nat, hunks: seq<Hunk>)
    requires i < |a| && Patched(a, i, hunks).Some?
    ensures Patched(a, i + 1, hunks) == Some(Patched(a, i, hunks).value + [a[i]])
  {
    if hunks == [] {
      assert a[..i] + [a[i]] == a[..i + 1];
    } else {
      var h := hunks[|hunks| - 1];
      var before := Patched(a, OldFrom(h), hunks[..|hunks| - 1]).value + h.plus;
      assert before + a[OldTo(h)..i + 1] == before + a[OldTo(h)..i] + [a[i]];
    }
  }

  lemma {:induction false} UnpatchedNext(b: seq<Line>, j: nat, hunks: seq<Hunk>)
    requires j < |b| && Unpatched(b, j, hunks).Some?
    ensures Unpatched(b, j + 1, hunks) == Some(Unpatched(b, j, hunks).value + [b[j]])
  {
    if hunks == [] {
      assert b[..j] + [b[j]] == b[..j + 1];
    } else {
      var h := hunks[|hunks| - 1];
      var before := Unpatched(b, NewFrom(h), hunks[..|hunks| - 1]).value + h.minus;
      assert before + b[NewTo(h)..j + 1] == before + b[NewTo(h)..j] + [b[j]];
    }
  }

  lemma {:induction false} ScriptOverHunk(
      a: seq<Line>, i: nat, i': nat, b: seq<Line>, j: nat, j': nat, hunks: seq<Hunk>)
    requires i <= i' <= |a| && j <= j' <= |b| && (i < i' || j < j') && Script(a, i, b, j, hunks)
    ensures Script(a, i', b, j', hunks + [PrintHunk(a, i, i', b, j, j')])
  {
    var h := PrintHunk(a, i, i', b, j, j');
    HeaderRanges(a, i, i', b, j, j');
    assert (hunks + [h])[..|hunks|] == hunks;
    assert b[..j] + b[j..j'] + a[i'..i'] == b[..j'];
    assert a[..i] + a[i..i'] + b[j'..j'] == a[..i'];
  }

  /** From (i, j) up to (i', j') the files have the same lines. */
  ghost predicate Common(a: seq<Line>, i: int, i': int, b: seq<Line>, j: int, j': int) {
    0 <= i <= i' <= |a| && 0 <= j <= j' <= |b| && i' - i == j' - j && a[i..i'] == b[j..j']
  }

  /** Where hunk k - 1 ends in the old file; the start for the first one. */
  function OldEnd(hunks: seq<Hunk>, k: nat): int
    requires k <= |hunks|
  {
    if k == 0 then 0 else OldTo(hunks[k - 1])
  }

  function NewEnd(hunks: seq<Hunk>, k: nat): int
    requires k <= |hunks|
  {
    if k == 0 then 0 else NewTo(hunks[k - 1])
  }

  /** The lines in front of hunk k, back to the hunk before it, are the same in both files; between
      two hunks there is at least one. */
  ghost predicate Gap(a: seq<Line>, b: seq<Line>, hunks: seq<Hunk>, k: nat)
    requires k < |hunks|
  {
    && Common(a, OldEnd(hunks, k), OldFrom(hunks[k]), b, NewEnd(hunks, k), NewFrom(hunks[k]))
    && (k > 0 ==> OldEnd(hunks, k) < OldFrom(hunks[k]))
  }

  /** Whatever is outside the hunks, up to (i, j), is common to both files and in the same place. */
  ghost predicate Aligned(a: seq<Line>, i: nat, b: seq<Line>, j: nat, hunks: seq<Hunk>) {
    && (forall k :: 0 <= k < |hunks| ==> Gap(a, b, hunks, k))
    && Common(a, OldEnd(hunks, |hunks|), i, b, NewEnd(hunks, |hunks|), j)
  }

  lemma {:induction false} HeaderRanges(a: seq<Line>, aFrom: nat, aTo: nat, b: seq<Line>, bFrom: nat, bTo: nat)
    requires aFrom <= aTo <= |a| && bFrom <= bTo <= |b| && (aFrom < aTo || bFrom < bTo)
    ensures var h := PrintHunk(a, aFrom, aTo, b, bFrom, bTo);
      OldFrom(h) == aFrom && OldTo(h) == aTo && NewFrom(h) == bFrom && NewTo(h) == bTo
  {
  }

  /** What a header says: lines are counted from one, a range goes from its first line to its last,
      and of the file that has no lines in the hunk it names the line behind which they would be. */
  lemma {:induction false} HeaderMeans(a: seq<Line>, aFrom: nat, aTo: nat, b: seq<Line>, bFrom: nat, bTo: nat)
    requires aFrom <= aTo <= |a| && bFrom <= bTo <= |b| && (aFrom < aTo || bFrom < bTo)
    ensures var h := PrintHunk(a, aFrom, aTo, b, bFrom, bTo);
      && h.op == (if aFrom == aTo then Append else if bFrom == bTo then Delete else Change)
      && h.minus == a[aFrom..aTo]
      && h.plus == b[bFrom..bTo]
      && (h.minus != [] ==> 1 <= h.l1 <= h.l2 <= |a| && h.minus == a[h.l1 - 1..h.l2])
      && (h.minus == [] ==> h.l1 == h.l2 && a[..h.l1] == a[..aFrom])
      && (h.plus != [] ==> 1 <= h.r1 <= h.r2 <= |b| && h.plus == b[h.r1 - 1..h.r2])
      && (h.plus == [] ==> h.r1 == h.r2 && b[..h.r1] == b[..bFrom])
  {
  }

  // ----- the search for the next common place -----

  /** The files agree at distance (di, dj): a common line, or both ends. */
  predicate Resyncs(a: seq<Line>, i: nat, b: seq<Line>, j: nat, di: nat, dj: nat) {
    || (i + di == |a| && j + dj == |b|)
    || (i + di < |a| && j + dj < |b| && a[i + di] == b[j + dj])
  }

  /** Look for the nearest place to resynchronise: least di + dj, then least di. */
  method FindResync(a: seq<Line>, i: nat, b: seq<Line>, j: nat) returns (found: bool, di: nat, dj: nat)
    requires i <= |a| && j <= |b|
    ensures found ==> 1 <= di + dj <= LOOKAHEAD && Resyncs(a, i, b, j, di, dj)
    ensures found ==> forall x: nat, y: nat ::
      1 <= x + y && (x + y < di + dj || (x + y == di + dj && x < di)) ==> !Resyncs(a, i, b, j, x, y)
    ensures !found ==> forall x: nat, y: nat :: 1 <= x + y <= LOOKAHEAD ==> !Resyncs(a, i, b, j, x, y)
  {
    for sum := 1 to LOOKAHEAD + 1
      invariant forall x: nat, y: nat :: 1 <= x + y < sum ==> !Resyncs(a, i, b, j, x, y)
    {
      for d := 0 to sum + 1
        invariant forall x: nat, y: nat :: 1 <= x + y < sum ==> !Resyncs(a, i, b, j, x, y)
        invariant forall x: nat, y: nat :: x + y == sum && x < d ==> !Resyncs(a, i, b, j, x, y)
      {
        var e := sum - d;
        if i + d > |a| || j + e > |b| {
          continue;
        }
        if i + d == |a| && j + e == |b| {
          return true, d, e;
        }
        if i + d < |a| && j + e < |b| && a[i + d] == b[j + e] {
          return true, d, e;
        }
      }
    }
    return false, 0, 0;
  }

  // ----- the comparison -----

  /** Where the comparison stands after its last hunk: past a common line, or in front of one. */
  ghost predicate Resynced(a: seq<Line>, i: nat, b: seq<Line>, j: nat, hunks: seq<Hunk>) {
    hunks == [] ||
    var h := hunks[|hunks| - 1];
    (OldTo(h) < i && NewTo(h) < j) || (OldTo(h) == i && NewTo(h) == j && Resyncs(a, i, b, j, 0, 0))
  }

  lemma {:induction false} AlignedAppend(
      a: seq<Line>, i: nat, i': nat, b: seq<Line>, j: nat, j': nat, hunks: seq<Hunk>)
    requires i <= i' <= |a| && j <= j' <= |b| && (i < i' || j < j')
    requires Aligned(a, i, b, j, hunks) && Resynced(a, i, b, j, hunks) && !Resyncs(a, i, b, j, 0, 0)
    ensures Aligned(a, i', b, j', hunks + [PrintHunk(a, i, i', b, j, j')])
    ensures Resyncs(a, i', b, j', 0, 0) ==> Resynced(a, i', b, j', hunks + [PrintHunk(a, i, i', b, j, j')])
  {
    hide PrintHunk;
    var h := PrintHunk(a, i, i', b, j, j');
    var all := hunks + [h];
    HeaderRanges(a, i, i', b, j, j');
    forall k | 0 <= k < |all|
      ensures Gap(a, b, all, k)
    {
      if k < |hunks| {
        assert Gap(a, b, hunks, k);
      }
    }
  }

  lemma {:induction false} AlignedNext(a: seq<Line>, i: nat, b: seq<Line>, j: nat, hunks: seq<Hunk>)
    requires i < |a| && j < |b| && a[i] == b[j] && Aligned(a, i, b, j, hunks)
    ensures Aligned(a, i + 1, b, j + 1, hunks)
  {
    hide Gap;
    var x, y := OldEnd(hunks, |hunks|), NewEnd(hunks, |hunks|);
    assert a[x..i + 1] == a[x..i] + [a[i]] && b[y..j + 1] == b[y..j] + [b[j]];
  }

  /**
   Compare two files.  The hunks are a correct edit script in both directions; before, between
   and behind them stand the same lines in both files, at the numbers the headers give; and the
   status is 0 exactly when the files are equal.
   */
  method RunDiff(a: seq<Line>, b: seq<Line>) returns (hunks: seq<Hunk>, status: int)
    ensures Patched(a, |a|, hunks) == Some(b)
    ensures Unpatched(b, |b|, hunks) == Some(a)
    ensures Aligned(a, |a|, b, |b|, hunks)
    ensures status == (if a == b then 0 else 1) && (status == 0 <==> hunks == [])
  {
    hide Patched, Unpatched, Aligned, PrintHunk;
    hunks := [];
    var i, j := 0, 0;
    EmptyScript(a, b);
    while i < |a| || j < |b|
      invariant 0 <= i <= |a| && 0 <= j <= |b|
      invariant Script(a, i, b, j, hunks)
      invariant Aligned(a, i, b, j, hunks) && Resynced(a, i, b, j, hunks)
      invariant a == b ==> i == j && hunks == []
      decreases |a| - i + |b| - j
    {
      if i < |a| && j < |b| && a[i] == b[j] {
        ScriptOverCommonLine(a, i, b, j, hunks);
        AlignedNext(a, i, b, j, hunks);
        i, j := i + 1, j + 1;
        continue;
      }
      var found, di, dj := FindResync(a, i, b, j);
      if !found {
        ScriptOverHunk(a, i, |a|, b, j, |b|, hunks);
        AlignedAppend(a, i, |a|, b, j, |b|, hunks);
        hunks := hunks + [PrintHunk(a, i, |a|, b, j, |b|)];
        i, j := |a|, |b|;
        break;
      }
      ScriptOverHunk(a, i, i + di, b, j, j + dj, hunks);
      AlignedAppend(a, i, i + di, b, j, j + dj, hunks);
      hunks := hunks + [PrintHunk(a, i, i + di, b, j, j + dj)];
      i, j := i + di, j + dj;
    }
    assert a[..|a|] == a && b[..|b|] == b;
    status := if hunks == [] then 0 else 1;
    NoHunksMeansEqual(a, b);
  }

  lemma {:induction false} EmptyScript(a: seq<Line>, b: seq<Line>)
    ensures Script(a, 0, b, 0, []) && Aligned(a, 0, b, 0, [])
  {
    assert a[..0] == b[..0] == [];
  }

  lemma {:induction false} NoHunksMeansEqual(a: seq<Line>, b: seq<Line>)
    ensures Patched(a, |a|, []) == Some(a)
  {
    assert a[..|a|] == a;
  }

  /** The brief comparison of -q. */
  method RunBrief(a: seq<Line>, b: seq<Line>) returns (status: int)
    ensures status == (if a == b then 0 else 1)
  {
    if |a| != |b| {
      return 1;
    }
    for i := 0 to |a|
      invariant forall k :: 0 <= k < i ==> a[k] == b[k]
    {
      if a[i] != b[i] {
        return 1;
      }
    }
    return 0;
  }
}
