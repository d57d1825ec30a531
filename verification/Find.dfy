/**
 find's walk.  The expression is evaluated at every entry the walk reaches; -prune keeps the
 walk out of a directory, -quit ends the run.  A run is compared with the same walk on which
 -quit has no effect, and that walk with a listing of the tree.
 */
module Find {

  /** The way from the starting points to an entry: which start, which child, which child... */
  type Address = seq<nat>

  /** The primaries.  A test is any other test or action; its answer comes from outside. */
  datatype Primary = Prune | Quit | Test(id: nat)

  datatype Expr =
    | Leaf(primary: Primary)
    | And(l: Expr, r: Expr)
    | Or(l: Expr, r: Expr)
    | Comma(l: Expr, r: Expr)
    | Not(l: Expr)

  /** What the file system shows: whether stat works, whether it is a directory and opens. */
  datatype Tree = Tree(name: string, found: bool, directory: bool, device: nat, opens: bool, kids: seq<Tree>)

  /** One evaluation of a primary at an entry. */
  datatype Event = Event(primary: Primary, at: Address, path: string)

  /** The command line, and the outside world: its answer to a test may depend on all that was
      evaluated before. */
  datatype Options = Options(
    expr: Expr,
    mindepth: int,
    maxdepth: int,
    depthFirst: bool,
    xdev: bool,
    haveAction: bool,
    answer: (seq<Event>, Event) -> bool)

  /** The run so far: primaries evaluated, entries evaluated and what the expression said of each,
      directories the walk was kept out of by -prune, paths printed. */
  datatype State = State(
    log: seq<Event>,
    seen: seq<Address>,
    verdicts: seq<bool>,
    pruned: seq<Address>,
    shown: seq<string>,
    quit: bool,
    failed: bool)

  /** What evaluating an expression gives: its value, the entry's prune flag, the state. */
  datatype Outcome = Outcome(value: bool, prune: bool, state: State)

  // ----- the walk; `heed` says whether -quit has its effect -----

  function Evaluate(o: Options, heed: bool, e: Expr, a: Address, path: string, prune: bool, s: State): Outcome
    decreases e
  {
    match e
    case Leaf(p) =>
      var event := Event(p, a, path);
      var after := s.(log := s.log + [event]);
      (match p
       case Prune => Outcome(true, true, after)
       case Quit => Outcome(true, prune, after.(quit := s.quit || heed))
       case Test(_) => Outcome(o.answer(s.log, event), prune, after))
    case And(l, r) =>
      var x := Evaluate(o, heed, l, a, path, prune, s);
      if !x.value then x
      else if x.state.quit then x.(value := false)
      else Evaluate(o, heed, r, a, path, x.prune, x.state)
    case Or(l, r) =>
      var x := Evaluate(o, heed, l, a, path, prune, s);
      if x.value || x.state.quit then x
      else Evaluate(o, heed, r, a, path, x.prune, x.state)
    case Comma(l, r) =>
      var x := Evaluate(o, heed, l, a, path, prune, s);
      if x.state.quit then x.(value := false)
      else Evaluate(o, heed, r, a, path, x.prune, x.state)
    case Not(l) =>
      var x := Evaluate(o, heed, l, a, path, prune, s);
      x.(value := !x.value)
  }

  /** Evaluate the whole expression at an entry and print it if nothing else was asked for. */
  function Entry(o: Options, heed: bool, a: Address, path: string, s: State): Outcome {
    var x := Evaluate(o, heed, o.expr, a, path, false, s.(seen := s.seen + [a]));
    var printed := if x.value && !o.haveAction then x.state.shown + [path] else x.state.shown;
    var pruned := if x.prune && !o.depthFirst then x.state.pruned + [a] else x.state.pruned;
    x.(state := x.state.(verdicts := x.state.verdicts + [x.value], shown := printed, pruned := pruned))
  }

  function Join(path: string, name: string): string {
    if path == "" || path[|path| - 1] != '/' then path + "/" + name else path + name
  }

  predicate InRange(o: Options, depth: nat) {
    depth >= o.mindepth
  }

  predicate Descends(o: Options, t: Tree, depth: nat, device: nat) {
    && t.directory
    && (o.maxdepth < 0 || depth < o.maxdepth)
    && !(o.xdev && depth > 0 && t.device != device)
  }

  function Visit(o: Options, heed: bool, t: Tree, a: Address, path: string, depth: nat, device: nat, s: State): State
    decreases t, |t.kids| + 1
  {
    if s.quit then s
    else if !t.found then s.(failed := true)
    else
      var first := if !o.depthFirst && InRange(o, depth) then Entry(o, heed, a, path, s) else Outcome(false, false, s);
      var below :=
        if !Descends(o, t, depth, device) || first.prune || first.state.quit then first.state
        else if !t.opens then first.state.(failed := true)
        else VisitKids(o, heed, t, 0, a, path, depth, device, first.state);
      if o.depthFirst && InRange(o, depth) && !below.quit then Entry(o, heed, a, path, below).state else below
  }

  /** The children of t from the k-th on. */
  function VisitKids(
      o: Options, heed: bool, t: Tree, k: nat, a: Address, path: string, depth: nat, device: nat, s: State): State
    requires k <= |t.kids|
    decreases t, |t.kids| - k
  {
    if k == |t.kids| || s.quit then s
    else
      var after := Visit(o, heed, t.kids[k], a + [k], Join(path, t.kids[k].name), depth + 1, device, s);
      VisitKids(o, heed, t, k + 1, a, path, depth, device, after)
  }

  /** The starting points from the k-th on. */
  function Walk(o: Options, heed: bool, starts: seq<Tree>, k: nat, s: State): State
    requires k <= |starts|
    decreases |starts| - k
  {
    if k == |starts| || s.quit then s
    else Walk(o, heed, starts, k + 1, Visit(o, heed, starts[k], [k], starts[k].name, 0, starts[k].device, s))
  }

  const START: State := State([], [], [], [], [], false, false)

  // ----- the program -----

  /** The globals of a run; the lists of entries are there for the proof only. */
  class Finder {
    const o: Options
    var quit: bool
    var failed: bool
    var out: seq<string>
    var log: seq<Event>
    ghost var seen: seq<Address>
    ghost var verdicts: seq<bool>
    ghost var pruned: seq<Address>

    constructor (o: Options)
      ensures this.o == o && Now() == START
    {
      this.o := o;
      quit, failed, out := false, false, [];
      log, seen, verdicts, pruned := [], [], [], [];
    }

    ghost function Now(): State
      reads this
    {
      State(log, seen, verdicts, pruned, out, quit, failed)
    }

    /** eval. */
    method Eval(e: Expr, a: Address, path: string, prune: bool) returns (value: bool, pruneNow: bool)
      modifies this
      ensures Outcome(value, pruneNow, Now()) == Evaluate(o, true, e, a, path, prune, old(Now()))
      decreases e
    {
      match e
      case Leaf(p) =>
        value, pruneNow := true, prune;
        var event := Event(p, a, path);
        match p {
          case Prune => pruneNow := true;
          case Quit => quit := true;
          case Test(_) => value := o.answer(log, event);
        }
        log := log + [event];
      case And(l, r) =>
        value, pruneNow := Eval(l, a, path, prune);
        if value {
          if quit {
            value := false;
          } else {
            value, pruneNow := Eval(r, a, path, pruneNow);
          }
        }
      case Or(l, r) =>
        value, pruneNow := Eval(l, a, path, prune);
        if !value && !quit {
          value, pruneNow := Eval(r, a, path, pruneNow);
        }
      case Comma(l, r) =>
        value, pruneNow := Eval(l, a, path, prune);
        if quit {
          value := false;
        } else {
          value, pruneNow := Eval(r, a, path, pruneNow);
        }
      case Not(l) =>
        value, pruneNow := Eval(l, a, path, prune);
        value := !value;
    }

    /** Evaluate the expression at an entry; print the path if there is no action. */
    method EvalEntry(a: Address, path: string) returns (prune: bool)
      modifies this
      ensures var x := Entry(o, true, a, path, old(Now())); Now() == x.state && prune == x.prune
    {
      hide Evaluate;
      var value;
      seen := seen + [a];
      value, prune := Eval(o.expr, a, path, false);
      verdicts := verdicts + [value];
      if value && !o.haveAction {
        out := out + [path];
      }
      if prune && !o.depthFirst {
        pruned := pruned + [a];
      }
    }

    /** visit. */
    method VisitEntry(t: Tree, a: Address, path: string, depth: nat, device: nat)
      modifies this
      ensures Now() == Visit(o, true, t, a, path, depth, device, old(Now()))
      decreases t, 1
    {
      hide Entry, Join;
      if quit {
        return;
      }
      if !t.found {
        failed := true;
        return;
      }
      var inRange := depth >= o.mindepth;
      var descend := t.directory && (o.maxdepth < 0 || depth < o.maxdepth);
      if o.xdev && depth > 0 && t.device != device {
        descend := false;
      }
      if !o.depthFirst && inRange {
        var prune := EvalEntry(a, path);
        if prune {
          descend := false;
        }
      }
      if descend && !quit {
        if !t.opens {
          failed := true;
        } else {
          ReadDirectory(t, a, path, depth, device);
        }
      }
      if o.depthFirst && inRange && !quit {
        var _ := EvalEntry(a, path);
      }
    }

    /** The loop over the directory's entries. */
    method ReadDirectory(t: Tree, a: Address, path: string, depth: nat, device: nat)
      requires !quit
      modifies this
      ensures Now() == VisitKids(o, true, t, 0, a, path, depth, device, old(Now()))
      decreases t, 0
    {
      hide Visit, Join;
      var k := 0;
      while !quit && k < |t.kids|
        invariant 0 <= k <= |t.kids|
        invariant VisitKids(o, true, t, k, a, path, depth, device, Now())
               == VisitKids(o, true, t, 0, a, path, depth, device, old(Now()))
      {
        VisitEntry(t.kids[k], a + [k], Join(path, t.kids[k].name), depth + 1, device);
        k := k + 1;
      }
    }

    /** main's loop over the starting points. */
    method Run(starts: seq<Tree>)
      modifies this
      ensures Now() == Walk(o, true, starts, 0, old(Now()))
    {
      hide Visit;
      var k := 0;
      while k < |starts| && !quit
        invariant 0 <= k <= |starts|
        invariant Walk(o, true, starts, k, Now()) == Walk(o, true, starts, 0, old(Now()))
      {
        VisitEntry(starts[k], [k], starts[k].name, 0, starts[k].device);
        k := k + 1;
      }
    }
  }
}
