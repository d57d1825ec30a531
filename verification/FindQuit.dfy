/** -quit: the run is the walk without it, cut right behind the first -quit evaluated. */
module FindQuit {

  import opened Find

  /** s2 goes on from s1. */
  predicate Extends(s1: State, s2: State) {
    s1.log <= s2.log && s1.seen <= s2.seen && s1.pruned <= s2.pruned
  }

  predicate NoQuit(log: seq<Event>) {
    forall i :: 0 <= i < |log| ==> log[i].primary != Quit
  }

  /** The first -quit evaluated is the last thing evaluated. */
  predicate EndsInQuit(log: seq<Event>) {
    log != [] && log[|log| - 1].primary == Quit && NoQuit(log[..|log| - 1])
  }

  /** run is where a real run is when the walk without -quit is at walk. */
  ghost predicate Follows(run: State, walk: State) {
    && !walk.quit
    && (!run.quit ==> run == walk && NoQuit(run.log))
    && (run.quit ==> EndsInQuit(run.log) && Extends(run, walk))
  }

  lemma {:induction false} ExtendsOn(s1: State, s2: State, s3: State)
    requires Extends(s1, s2) && Extends(s2, s3)
    ensures Extends(s1, s3)
  {
  }

  /** What evaluating expressions may change: the log, and with `heed` the quit flag. */
  ghost predicate Evaluated(heed: bool, s: State, x: State) {
    && s.log <= x.log
    && x == s.(log := x.log, quit := x.quit)
    && (!heed ==> x.quit == s.quit)
  }

  lemma {:induction false} EvaluatedOn(heed: bool, s: State, x: State, y: State)
    requires Evaluated(heed, s, x)
    ensures Evaluated(heed, x, y) ==> Evaluated(heed, s, y)
  {
  }

  lemma {:induction false} LeafEvaluated(
      o: Options, heed: bool, p: Primary, a: Address, path: string, prune: bool, s: State)
    ensures Evaluated(heed, s, Evaluate(o, heed, Leaf(p), a, path, prune, s).state)
  {
  }

  lemma {:induction false} EvaluateKeeps(
      o: Options, heed: bool, e: Expr, a: Address, path: string, prune: bool, s: State)
    ensures Evaluated(heed, s, Evaluate(o, heed, e, a, path, prune, s).state)
    decreases e
  {
    hide Evaluated;
    if e.Leaf? {
      LeafEvaluated(o, heed, e.primary, a, path, prune, s);
    } else {
      EvaluateKeeps(o, heed, e.l, a, path, prune, s);
      if !e.Not? {
        var x := Evaluate(o, heed, e.l, a, path, prune, s);
        EvaluateKeeps(o, heed, e.r, a, path, x.prune, x.state);
        EvaluatedOn(heed, s, x.state, Evaluate(o, heed, e.r, a, path, x.prune, x.state).state);
      }
    }
  }

  lemma {:induction false} EvaluateExtends(
      o: Options, heed: bool, e: Expr, a: Address, path: string, prune: bool, s: State)
    ensures var x := Evaluate(o, heed, e, a, path, prune, s).state;
      && Extends(s, x) && (!heed && !s.quit ==> !x.quit)
      && x.seen == s.seen && x.verdicts == s.verdicts
      && x.pruned == s.pruned && x.shown == s.shown && x.failed == s.failed
  {
    hide Evaluate;
    EvaluateKeeps(o, heed, e, a, path, prune, s);
  }

  lemma {:induction false} StaysPruned(o: Options, e: Expr, a: Address, path: string, s: State)
    ensures Evaluate(o, false, e, a, path, true, s).prune
    decreases e
  {
    if !e.Leaf? {
      StaysPruned(o, e.l, a, path, s);
      if !e.Not? {
        StaysPruned(o, e.r, a, path, Evaluate(o, false, e.l, a, path, true, s).state);
      }
    }
  }

  /** One expression: same outcome as long as there was no -quit. */
  lemma {:induction false} EvaluateFollows(o: Options, e: Expr, a: Address, path: string, prune: bool, s: State)
    requires Follows(s, s)
    ensures var run, walk := Evaluate(o, true, e, a, path, prune, s), Evaluate(o, false, e, a, path, prune, s);
      Follows(run.state, walk.state) && (!run.state.quit ==> run == walk) && (run.prune ==> walk.prune)
    decreases e, 1
  {
    hide Extends;
    match e
    case Leaf(p) =>
      LeafFollows(o, p, a, path, prune, s);
    case Not(l) =>
      EvaluateFollows(o, l, a, path, prune, s);
    case And(l, r) =>
      SecondFollows(o, e, a, path, prune, s);
    case Or(l, r) =>
      SecondFollows(o, e, a, path, prune, s);
    case Comma(l, r) =>
      SecondFollows(o, e, a, path, prune, s);
  }

  lemma {:induction false} LeafFollows(o: Options, p: Primary, a: Address, path: string, prune: bool, s: State)
    requires Follows(s, s)
    ensures
      var run := Evaluate(o, true, Leaf(p), a, path, prune, s);
      var walk := Evaluate(o, false, Leaf(p), a, path, prune, s);
      Follows(run.state, walk.state) && (!run.state.quit ==> run == walk) && (run.prune ==> walk.prune)
  {
    var run := Evaluate(o, true, Leaf(p), a, path, prune, s);
    assert run.state.log[..|s.log|] == s.log;
  }

  /** The two operands of a connective, and going on from the first to the second. */
  lemma {:induction false} SecondFollows(o: Options, e: Expr, a: Address, path: string, prune: bool, s: State)
    requires Follows(s, s) && (e.And? || e.Or? || e.Comma?)
    ensures var l, r := e.l, e.r;
      var run, walk := Evaluate(o, true, l, a, path, prune, s), Evaluate(o, false, l, a, path, prune, s);
      && Follows(run.state, walk.state)
      && (!run.state.quit ==>
        && run == walk
        && var run2, walk2 :=
            Evaluate(o, true, r, a, path, run.prune, run.state), Evaluate(o, false, r, a, path, walk.prune, walk.state);
          Follows(run2.state, walk2.state) && (!run2.state.quit ==> run2 == walk2) && (run2.prune ==> walk2.prune))
      && (run.prune ==> walk.prune && Evaluate(o, false, r, a, path, walk.prune, walk.state).prune)
      && (run.state.quit ==> Follows(run.state, Evaluate(o, false, r, a, path, walk.prune, walk.state).state))
    decreases e, 0
  {
    var l, r := e.l, e.r;
    EvaluateFollows(o, l, a, path, prune, s);
    var run, walk := Evaluate(o, true, l, a, path, prune, s), Evaluate(o, false, l, a, path, prune, s);
    if run.state.quit {
      EvaluateExtends(o, false, r, a, path, walk.prune, walk.state);
      ExtendsOn(run.state, walk.state, Evaluate(o, false, r, a, path, walk.prune, walk.state).state);
      StaysPruned(o, r, a, path, walk.state);
    } else {
      StaysPruned(o, r, a, path, walk.state);
      EvaluateFollows(o, r, a, path, run.prune, run.state);
    }
  }

  lemma {:induction false} EntryExtends(o: Options, heed: bool, a: Address, path: string, s: State)
    ensures var x := Entry(o, heed, a, path, s).state; Extends(s, x) && (!heed && !s.quit ==> !x.quit)
    ensures Entry(o, heed, a, path, s).state.seen == s.seen + [a]
  {
    EvaluateExtends(o, heed, o.expr, a, path, false, s.(seen := s.seen + [a]));
  }

  lemma {:induction false} EntryFollows(o: Options, a: Address, path: string, s: State)
    requires Follows(s, s)
    ensures var run, walk := Entry(o, true, a, path, s), Entry(o, false, a, path, s);
      Follows(run.state, walk.state) && (!run.state.quit ==> run == walk) && (run.prune ==> walk.prune)
  {
    hide Evaluate;
    var t := s.(seen := s.seen + [a]);
    EvaluateFollows(o, o.expr, a, path, false, t);
    EvaluateExtends(o, true, o.expr, a, path, false, t);
    EvaluateExtends(o, false, o.expr, a, path, false, t);
  }

  lemma {:induction false} VisitExtends(
      o: Options, t: Tree, a: Address, path: string, depth: nat, device: nat, s: State)
    requires !s.quit
    ensures var x := Visit(o, false, t, a, path, depth, device, s); Extends(s, x) && !x.quit
    decreases t, |t.kids| + 1
  {
    hide Entry, Extends, InRange, Descends;
    ExtendsSelf(s);
    if t.found {
      var first := if !o.depthFirst && InRange(o, depth) then Entry(o, false, a, path, s) else Outcome(false, false, s);
      EntryExtends(o, false, a, path, s);
      FailedExtends(first.state);
      var below :=
        if !Descends(o, t, depth, device) || first.prune || first.state.quit then first.state
        else if !t.opens then first.state.(failed := true)
        else VisitKids(o, false, t, 0, a, path, depth, device, first.state);
      KidsExtend(o, t, 0, a, path, depth, device, first.state);
      EntryExtends(o, false, a, path, below);
      ExtendsSelf(first.state);
      ExtendsOn(s, first.state, below);
      ExtendsOn(s, below, Entry(o, false, a, path, below).state);
    } else {
      FailedExtends(s);
    }
  }

  lemma {:induction false} ExtendsSelf(s: State)
    ensures Extends(s, s)
  {
  }

  lemma {:induction false} FailedExtends(s: State)
    ensures Extends(s, s.(failed := true))
  {
  }

  lemma {:induction false} KidsExtend(
      o: Options, t: Tree, k: nat, a: Address, path: string, depth: nat, device: nat, s: State)
    requires k <= |t.kids| && !s.quit
    ensures var x := VisitKids(o, false, t, k, a, path, depth, device, s); Extends(s, x) && !x.quit
    decreases t, |t.kids| - k
  {
    hide Visit, Extends;
    if k == |t.kids| {
      ExtendsSelf(s);
    } else {
      var kid := t.kids[k];
      VisitExtends(o, kid, a + [k], Join(path, kid.name), depth + 1, device, s);
      var after := Visit(o, false, kid, a + [k], Join(path, kid.name), depth + 1, device, s);
      KidsExtend(o, t, k + 1, a, path, depth, device, after);
      ExtendsOn(s, after, VisitKids(o, false, t, k + 1, a, path, depth, device, after));
    }
  }

  /** Once the run has quit, it stands still while the walk goes on. */
  lemma {:induction false} StandsStill(run: State, walk: State, later: State)
    requires Follows(run, walk) && run.quit && Extends(walk, later) && !later.quit
    ensures Follows(run, later)
  {
    ExtendsOn(run, walk, later);
  }

  lemma {:induction false} VisitFollows(
      o: Options, t: Tree, a: Address, path: string, depth: nat, device: nat, run: State, walk: State)
    requires Follows(run, walk)
    ensures Follows(Visit(o, true, t, a, path, depth, device, run), Visit(o, false, t, a, path, depth, device, walk))
    decreases t, |t.kids| + 1
  {
    hide Entry, Extends, InRange, Descends, EndsInQuit, NoQuit;
    if run.quit {
      VisitExtends(o, t, a, path, depth, device, walk);
      StandsStill(run, walk, Visit(o, false, t, a, path, depth, device, walk));
    } else if t.found {
      FirstFollows(o, a, path, depth, run);
      var early := !o.depthFirst && InRange(o, depth);
      var first := if early then Entry(o, true, a, path, run) else Outcome(false, false, run);
      var first2 := if early then Entry(o, false, a, path, run) else Outcome(false, false, run);
      BelowFollows(o, t, a, path, depth, device, first, first2);
      var below := Below(o, true, t, a, path, depth, device, first);
      var below2 := Below(o, false, t, a, path, depth, device, first2);
      LastFollows(o, a, path, depth, below, below2);
    }
  }

  /** The part of Visit between the two evaluations. */
  ghost function Below(
      o: Options, heed: bool, t: Tree, a: Address, path: string, depth: nat, device: nat, first: Outcome): State {
    if !Descends(o, t, depth, device) || first.prune || first.state.quit then first.state
    else if !t.opens then first.state.(failed := true)
    else VisitKids(o, heed, t, 0, a, path, depth, device, first.state)
  }

  lemma {:induction false} FirstFollows(o: Options, a: Address, path: string, depth: nat, s: State)
    requires Follows(s, s)
    ensures !o.depthFirst && InRange(o, depth) ==>
      var run, walk := Entry(o, true, a, path, s), Entry(o, false, a, path, s);
      Follows(run.state, walk.state) && (!run.state.quit ==> run == walk) && (run.prune ==> walk.prune)
  {
    EntryFollows(o, a, path, s);
  }

  lemma {:induction false} BelowFollows(
      o: Options, t: Tree, a: Address, path: string, depth: nat, device: nat, run: Outcome, walk: Outcome)
    requires Follows(run.state, walk.state) && (!run.state.quit ==> run == walk)
    ensures Follows(Below(o, true, t, a, path, depth, device, run), Below(o, false, t, a, path, depth, device, walk))
    decreases t, |t.kids| + 1, 0
  {
    hide Extends, Descends, EndsInQuit, NoQuit;
    if run.state.quit {
      var later := Below(o, false, t, a, path, depth, device, walk);
      ExtendsSelf(walk.state);
      FailedExtends(walk.state);
      KidsExtend(o, t, 0, a, path, depth, device, walk.state);
      StandsStill(run.state, walk.state, later);
    } else {
      KidsFollow(o, t, 0, a, path, depth, device, run.state, walk.state);
    }
  }

  lemma {:induction false} LastFollows(o: Options, a: Address, path: string, depth: nat, run: State, walk: State)
    requires Follows(run, walk)
    ensures o.depthFirst && InRange(o, depth) ==>
      Follows(if run.quit then run else Entry(o, true, a, path, run).state, Entry(o, false, a, path, walk).state)
  {
    hide Entry, Extends;
    if run.quit {
      EntryExtends(o, false, a, path, walk);
      StandsStill(run, walk, Entry(o, false, a, path, walk).state);
    } else {
      EntryFollows(o, a, path, run);
    }
  }

  lemma {:induction false} KidsFollow(
      o: Options, t: Tree, k: nat, a: Address, path: string, depth: nat, device: nat, run: State, walk: State)
    requires k <= |t.kids| && Follows(run, walk)
    ensures Follows(VisitKids(o, true, t, k, a, path, depth, device, run),
                    VisitKids(o, false, t, k, a, path, depth, device, walk))
    decreases t, |t.kids| - k
  {
    hide Visit, Extends, EndsInQuit, NoQuit;
    if run.quit {
      KidsExtend(o, t, k, a, path, depth, device, walk);
      StandsStill(run, walk, VisitKids(o, false, t, k, a, path, depth, device, walk));
    } else if k < |t.kids| {
      var kid := t.kids[k];
      VisitFollows(o, kid, a + [k], Join(path, kid.name), depth + 1, device, run, walk);
      var run2 := Visit(o, true, kid, a + [k], Join(path, kid.name), depth + 1, device, run);
      var walk2 := Visit(o, false, kid, a + [k], Join(path, kid.name), depth + 1, device, walk);
      KidsFollow(o, t, k + 1, a, path, depth, device, run2, walk2);
    }
  }

  lemma {:induction false} WalkExtends(o: Options, starts: seq<Tree>, k: nat, s: State)
    requires k <= |starts| && !s.quit
    ensures var x := Walk(o, false, starts, k, s); Extends(s, x) && !x.quit
    decreases |starts| - k
  {
    hide Visit;
    if k < |starts| {
      VisitExtends(o, starts[k], [k], starts[k].name, 0, starts[k].device, s);
      var after := Visit(o, false, starts[k], [k], starts[k].name, 0, starts[k].device, s);
      WalkExtends(o, starts, k + 1, after);
    }
  }

  lemma {:induction false} WalkFollows(o: Options, starts: seq<Tree>, k: nat, run: State, walk: State)
    requires k <= |starts| && Follows(run, walk)
    ensures Follows(Walk(o, true, starts, k, run), Walk(o, false, starts, k, walk))
    decreases |starts| - k
  {
    hide Visit, Extends, EndsInQuit, NoQuit;
    if run.quit {
      WalkExtends(o, starts, k, walk);
      StandsStill(run, walk, Walk(o, false, starts, k, walk));
    } else if k < |starts| {
      var t := starts[k];
      VisitFollows(o, t, [k], t.name, 0, t.device, run, walk);
      WalkFollows(o, starts, k + 1, Visit(o, true, t, [k], t.name, 0, t.device, run),
                  Visit(o, false, t, [k], t.name, 0, t.device, walk));
    }
  }

  /** The log up to and with the first -quit. */
  function Cut(log: seq<Event>): seq<Event> {
    if log == [] then []
    else if log[0].primary == Quit then [log[0]]
    else [log[0]] + Cut(log[1..])
  }

  lemma {:induction false} CutWhole(log: seq<Event>)
    requires NoQuit(log)
    ensures Cut(log) == log
    decreases |log|
  {
    if log != [] {
      assert forall i :: 0 <= i < |log[1..]| ==> log[1..][i] == log[i + 1];
      CutWhole(log[1..]);
    }
  }

  lemma {:induction false} CutAtQuit(log: seq<Event>, all: seq<Event>)
    requires EndsInQuit(log) && log <= all
    ensures Cut(all) == log
    decreases |log|
  {
    if |log| == 1 {
      assert all[0] == log[0];
    } else {
      var tail := log[1..];
      assert all[0] == log[0] == log[..|log| - 1][0];
      var x, y := tail[..|tail| - 1], log[..|log| - 1];
      assert forall i :: 0 <= i < |x| ==> x[i] == y[i + 1];
      CutAtQuit(tail, all[1..]);
    }
  }

  /** A run evaluates exactly the primaries of the walk without -quit, in the same order, up to
      and with its first -quit, and nothing after it; without a -quit the two are the same run. */
  lemma {:induction false} QuitCutsTheWalk(o: Options, starts: seq<Tree>)
    ensures var run, walk := Walk(o, true, starts, 0, START), Walk(o, false, starts, 0, START);
      && run.log == Cut(walk.log)
      && run.seen <= walk.seen && run.pruned <= walk.pruned
      && (run.quit <==> !NoQuit(walk.log))
      && (!run.quit ==> run == walk)
  {
    hide Walk;
    WalkFollows(o, starts, 0, START, START);
    var run, walk := Walk(o, true, starts, 0, START), Walk(o, false, starts, 0, START);
    if run.quit {
      CutAtQuit(run.log, walk.log);
      assert walk.log[|run.log| - 1].primary == Quit;
    } else {
      CutWhole(walk.log);
    }
  }
}
