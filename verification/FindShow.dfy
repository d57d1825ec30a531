/** What a run prints when the expression has no action of its own. */
module FindShow {

  import opened Find
  import opened FindQuit
  import opened FindMeaning

  predicate IsEntry(starts: seq<Tree>, a: Address)
    decreases |a|, 0
  {
    && a != []
    && if |a| == 1 then a[0] < |starts|
       else IsEntry(starts, a[..|a| - 1]) && a[|a| - 1] < |TreeAt(starts, a[..|a| - 1]).kids|
  }

  /** The entry an address leads to. */
  function TreeAt(starts: seq<Tree>, a: Address): Tree
    requires IsEntry(starts, a)
    decreases |a|, 1
  {
    if |a| == 1 then starts[a[0]] else TreeAt(starts, a[..|a| - 1]).kids[a[|a| - 1]]
  }

  /** Its path: the names on the way, with one slash between two of them. */
  function PathOf(starts: seq<Tree>, a: Address): string
    requires IsEntry(starts, a)
    decreases |a|
  {
    if |a| == 1 then starts[a[0]].name else Join(PathOf(starts, a[..|a| - 1]), TreeAt(starts, a).name)
  }

  ghost predicate AllEntries(starts: seq<Tree>, seen: seq<Address>) {
    forall i :: 0 <= i < |seen| ==> IsEntry(starts, seen[i])
  }

  /** The paths of the entries the expression was true of, in the order of evaluation. */
  ghost function Selected(starts: seq<Tree>, seen: seq<Address>, verdicts: seq<bool>): seq<string>
    requires |seen| == |verdicts| && AllEntries(starts, seen)
  {
    if seen == [] then []
    else
      var n := |seen| - 1;
      Selected(starts, seen[..n], verdicts[..n]) + (if verdicts[n] then [PathOf(starts, seen[n])] else [])
  }

  /** What the expression says of an entry. */
  ghost function Says(o: Options, heed: bool, starts: seq<Tree>, a: Address): bool
    requires IsEntry(starts, a)
  {
    Value(heed, o.expr, AnswersAt(o, a, PathOf(starts, a)))
  }

  /** -prune is evaluated at it, where that keeps the walk out. */
  ghost predicate PrunedAt(o: Options, heed: bool, starts: seq<Tree>, a: Address)
    requires IsEntry(starts, a)
  {
    var asked := Asked(o.expr, AnswersAt(o, a, PathOf(starts, a)));
    !o.depthFirst && Prune in if heed then UpToQuit(asked) else asked
  }

  /** Where the answers are steady, verdicts and prunings are what the expression says. */
  ghost predicate AsSaid(o: Options, heed: bool, starts: seq<Tree>, s: State)
    requires |s.seen| == |s.verdicts| && AllEntries(starts, s.seen)
  {
    && (forall i :: 0 <= i < |s.seen| ==> s.verdicts[i] == Says(o, heed, starts, s.seen[i]))
    && (forall a :: a in s.pruned ==> a in s.seen)
    && (forall i :: 0 <= i < |s.seen| ==> (s.seen[i] in s.pruned <==> PrunedAt(o, heed, starts, s.seen[i])))
    && (s.quit ==> s.seen != [] && QuitAt(o, starts, s.seen[|s.seen| - 1]))
  }

  /** -quit is evaluated at it. */
  ghost predicate QuitAt(o: Options, starts: seq<Tree>, a: Address)
    requires IsEntry(starts, a)
  {
    Quit in Asked(o.expr, AnswersAt(o, a, PathOf(starts, a)))
  }

  ghost predicate ShowsSelected(o: Options, heed: bool, starts: seq<Tree>, s: State) {
    && |s.seen| == |s.verdicts| && AllEntries(starts, s.seen)
    && s.shown == (if o.haveAction then [] else Selected(starts, s.seen, s.verdicts))
    && (Steady(o) ==> AsSaid(o, heed, starts, s))
  }

  lemma {:induction false} EntryShows(o: Options, heed: bool, starts: seq<Tree>, a: Address, s: State)
    requires ShowsSelected(o, heed, starts, s) && IsEntry(starts, a) && !s.quit
    ensures ShowsSelected(o, heed, starts, Entry(o, heed, a, PathOf(starts, a), s).state)
  {
    hide Evaluate, PathOf, IsEntry, Steady, AsSaid;
    var path := PathOf(starts, a);
    EvaluateExtends(o, heed, o.expr, a, path, false, s.(seen := s.seen + [a]));
    var x := Entry(o, heed, a, path, s);
    assert x.state.seen == s.seen + [a] && x.state.verdicts == s.verdicts + [x.value];
    assert x.state.seen[..|s.seen|] == s.seen && x.state.verdicts[..|s.seen|] == s.verdicts;
    if Steady(o) {
      EntryAsSaid(o, heed, starts, a, s);
    }
  }

  lemma {:induction false} EntryAsSaid(o: Options, heed: bool, starts: seq<Tree>, a: Address, s: State)
    requires |s.seen| == |s.verdicts| && AllEntries(starts, s.seen) && AsSaid(o, heed, starts, s)
    requires Steady(o) && IsEntry(starts, a) && !s.quit
    ensures var x := Entry(o, heed, a, PathOf(starts, a), s).state;
      |x.seen| == |x.verdicts| && AllEntries(starts, x.seen) && AsSaid(o, heed, starts, x)
  {
    hide Evaluate, PathOf, IsEntry, Steady, Value, Asked, UpToQuit, Events, AnswersAt;
    var path := PathOf(starts, a);
    EvaluateMeans(o, heed, o.expr, a, path, false, s.(seen := s.seen + [a]));
    var x := Entry(o, heed, a, path, s).state;
    assert x.seen == s.seen + [a];
    assert forall b :: b in x.pruned <==> b in s.pruned || (b == a && PrunedAt(o, heed, starts, a));
    forall i | 0 <= i < |x.seen|
      ensures x.verdicts[i] == Says(o, heed, starts, x.seen[i])
      ensures x.seen[i] in x.pruned <==> PrunedAt(o, heed, starts, x.seen[i])
    {
      if i < |s.seen| {
        assert x.seen[i] == s.seen[i];
      }
    }
  }

  lemma {:induction false} KidIsEntry(starts: seq<Tree>, a: Address, k: nat)
    requires IsEntry(starts, a) && k < |TreeAt(starts, a).kids|
    ensures var b := a + [k];
      && IsEntry(starts, b) && TreeAt(starts, b) == TreeAt(starts, a).kids[k]
      && PathOf(starts, b) == Join(PathOf(starts, a), TreeAt(starts, b).name)
  {
    hide Join;
    assert (a + [k])[..|a|] == a;
  }

  lemma {:induction false} VisitShows(
      o: Options, heed: bool, starts: seq<Tree>, t: Tree, a: Address, depth: nat, device: nat, s: State)
    requires ShowsSelected(o, heed, starts, s) && IsEntry(starts, a) && t == TreeAt(starts, a)
    ensures ShowsSelected(o, heed, starts, Visit(o, heed, t, a, PathOf(starts, a), depth, device, s))
    decreases t, |t.kids| + 1
  {
    hide Entry, PathOf, IsEntry, TreeAt, InRange, Descends, Selected;
    if !s.quit && t.found {
      var path := PathOf(starts, a);
      EntryShows(o, heed, starts, a, s);
      var first := if !o.depthFirst && InRange(o, depth) then Entry(o, heed, a, path, s) else Outcome(false, false, s);
      KidsShow(o, heed, starts, t, 0, a, depth, device, first.state);
      var below := Below(o, heed, t, a, path, depth, device, first);
      BelowShows(o, heed, starts, t, a, depth, device, first);
      if !below.quit {
        EntryShows(o, heed, starts, a, below);
      }
    }
  }

  lemma {:induction false} BelowShows(
      o: Options, heed: bool, starts: seq<Tree>, t: Tree, a: Address, depth: nat, device: nat, first: Outcome)
    requires ShowsSelected(o, heed, starts, first.state) && IsEntry(starts, a)
    requires ShowsSelected(o, heed, starts, VisitKids(o, heed, t, 0, a, PathOf(starts, a), depth, device, first.state))
    ensures ShowsSelected(o, heed, starts, Below(o, heed, t, a, PathOf(starts, a), depth, device, first))
  {
    hide VisitKids, PathOf, IsEntry, Descends, Selected, Steady, Says, PrunedAt;
  }

  lemma {:induction false} KidsShow(
      o: Options, heed: bool, starts: seq<Tree>, t: Tree, k: nat, a: Address, depth: nat, device: nat, s: State)
    requires ShowsSelected(o, heed, starts, s) && IsEntry(starts, a) && t == TreeAt(starts, a) && k <= |t.kids|
    ensures ShowsSelected(o, heed, starts, VisitKids(o, heed, t, k, a, PathOf(starts, a), depth, device, s))
    decreases t, |t.kids| - k
  {
    hide Visit, PathOf, IsEntry, TreeAt, ShowsSelected;
    if k < |t.kids| && !s.quit {
      KidIsEntry(starts, a, k);
      VisitShows(o, heed, starts, t.kids[k], a + [k], depth + 1, device, s);
      var after := Visit(o, heed, t.kids[k], a + [k], PathOf(starts, a + [k]), depth + 1, device, s);
      KidsShow(o, heed, starts, t, k + 1, a, depth, device, after);
    }
  }

  lemma {:induction false} WalkShows(o: Options, heed: bool, starts: seq<Tree>, k: nat, s: State)
    requires k <= |starts| && ShowsSelected(o, heed, starts, s)
    ensures ShowsSelected(o, heed, starts, Walk(o, heed, starts, k, s))
    decreases |starts| - k
  {
    hide Visit, ShowsSelected;
    if k < |starts| && !s.quit {
      assert IsEntry(starts, [k]) && TreeAt(starts, [k]) == starts[k] && PathOf(starts, [k]) == starts[k].name;
      VisitShows(o, heed, starts, starts[k], [k], 0, starts[k].device, s);
      WalkShows(o, heed, starts, k + 1, Visit(o, heed, starts[k], [k], starts[k].name, 0, starts[k].device, s));
    }
  }

  lemma {:induction false} RunShows(o: Options, heed: bool, starts: seq<Tree>)
    ensures ShowsSelected(o, heed, starts, Walk(o, heed, starts, 0, START))
  {
    hide Walk;
    WalkShows(o, heed, starts, 0, START);
  }

  /** Every run, ended by -quit or not: without an action exactly the paths of the entries the
      expression is true of are printed, in the order of evaluation; with one nothing is.  Where the
      answers are steady, that is what the connectives of logic say of the answers. */
  lemma {:induction false} PrintsSelected(o: Options, starts: seq<Tree>)
    ensures var run := Walk(o, true, starts, 0, START);
      && |run.seen| == |run.verdicts| && AllEntries(starts, run.seen)
      && run.shown == (if o.haveAction then [] else Selected(starts, run.seen, run.verdicts))
      && (Steady(o) ==> forall i :: 0 <= i < |run.seen| ==>
            var t := AnswersAt(o, run.seen[i], PathOf(starts, run.seen[i]));
            run.verdicts[i] == Verdict(o.expr, t)
              && (Quit !in Asked(o.expr, t) ==> run.verdicts[i] == Truth(o.expr, t)))
  {
    hide Walk, Steady, PathOf, IsEntry;
    WalkShows(o, true, starts, 0, START);
    var run := Walk(o, true, starts, 0, START);
    if Steady(o) {
      forall i | 0 <= i < |run.seen|
        ensures var t := AnswersAt(o, run.seen[i], PathOf(starts, run.seen[i]));
          run.verdicts[i] == Verdict(o.expr, t) && (Quit !in Asked(o.expr, t) ==> run.verdicts[i] == Truth(o.expr, t))
      {
        var t := AnswersAt(o, run.seen[i], PathOf(starts, run.seen[i]));
        assert run.verdicts[i] == Says(o, true, starts, run.seen[i]);
        if Quit !in Asked(o.expr, t) {
          VerdictIsTruth(o.expr, t);
        }
      }
    }
  }
}
