/**
 The interpreter is correct: on the text of every well-formed structured program the line
 machine halts exactly when the program terminates, and then with the program's result.
 */
module CshTheorem {
  import opened CshLines
  import opened CshMachine
  import opened CshProgram
  import opened CshSimulation
  import opened CshForward

  // ----- from machine to tree -----

  /** The machine is not running any more after at most n steps. */
  ghost predicate HaltsIn<W>(script: Script<W>, n: nat, m: Machine<W>)
    requires script.Valid()
  {
    !script.Live(Steps(script, n, m))
  }

  /** What is reached on the way to halting halts too, in no more steps. */
  lemma {:induction false} HaltsAfter<W>(script: Script<W>, n: nat, m: Machine<W>, m': Machine<W>)
    requires script.Valid() && HaltsIn(script, n, m) && Reaches(script, m, m')
    ensures HaltsIn(script, n, m')
  {
    var k: nat :| Steps(script, k, m) == m';
    StepsAdd(script, k, n, m);
    StepsAdd(script, n, k, m);
    Stays(script, k, Steps(script, n, m));
  }

  lemma Stays<W>(script: Script<W>, k: nat, m: Machine<W>)
    requires script.Valid() && !script.Live(m)
    ensures Steps(script, k, m) == m
  {
  }

  lemma {:induction false} HaltsNext<W>(script: Script<W>, n: nat, m: Machine<W>)
    requires script.Valid() && script.Live(m) && HaltsIn(script, n, m)
    ensures n > 0 && HaltsIn(script, n - 1, Step(script, m))
  {
  }

  /**
   If the machine started on a program's first line halts, the program terminates.
   The loop cases count machine steps: every further round is entered with fewer left.
   */
  lemma {:induction false} Terminates<W(!new)>(
      script: Script<W>, n: nat, p: Program, at: nat, stack: seq<Frame>, w: W, t: seq<string>)
    returns (fuel: nat)
    requires Runnable(script, p, at, stack)
    requires HaltsIn(script, n, At(at, stack, w, t))
    requires script.Valid() && HeadersSound(script, At(at, stack, w, t))
    ensures Meaning(script.host, fuel, p, w, t).Done?
    decreases n, p, 1, 0
  {
    hide HeadersSound, Runnable, HaltsIn, Size, Placed;
    match p
    case Then(a, b) => fuel := TerminatesThen(script, n, p, a, b, at, stack, w, t);
    case When(c, a) => fuel := TerminatesWhen(script, n, p, a, at, stack, w, t);
    case Choose(c, a, b) => fuel := TerminatesChoose(script, n, p, a, b, at, stack, w, t);
    case ForEach(h, a) => fuel := TerminatesForEach(script, n, p, a, at, stack, w, t);
    case Repeat(c, a) => fuel := TerminatesRepeat(script, n, p, a, at, stack, w, t);
    case _ => fuel := 0;
  }

  lemma {:induction false} TerminatesThen<W(!new)>(
      script: Script<W>, n: nat, p: Program, a: Program, b: Program, at: nat, stack: seq<Frame>, w: W, t: seq<string>)
    returns (fuel: nat)
    requires p == Then(a, b) && Runnable(script, p, at, stack)
    requires HaltsIn(script, n, At(at, stack, w, t))
    requires script.Valid() && HeadersSound(script, At(at, stack, w, t))
    ensures Meaning(script.host, fuel, p, w, t).Done?
    decreases n, p, 0, 0
  {
    hide HeadersSound, Runnable, HaltsIn, Size, Reaches;
    RunnableParts(script, p, a, b, at, stack);
    var x := Terminates(script, n, a, at, stack, w, t);
    var r := Meaning(script.host, x, a, w, t);
    Simulates(script, a, at, x, stack, w, t);
    if r.outcome.Normal? {
      HaltsAfter(script, n, At(at, stack, w, t), At(at + Size(a), stack, r.world, r.trace));
      SoundAfter(script, At(at, stack, w, t), At(at + Size(a), stack, r.world, r.trace));
      var y := Terminates(script, n, b, at + Size(a), stack, r.world, r.trace);
      fuel := x + y;
      MoreFuel(script.host, x, fuel, a, w, t);
      MoreFuel(script.host, y, fuel, b, r.world, r.trace);
    } else {
      fuel := x;
    }
  }

  lemma {:induction false} TerminatesWhen<W(!new)>(
      script: Script<W>, n: nat, p: Program, a: Program, at: nat, stack: seq<Frame>, w: W, t: seq<string>)
    returns (fuel: nat)
    requires p.When? && p.thn == a && Runnable(script, p, at, stack)
    requires HaltsIn(script, n, At(at, stack, w, t))
    requires script.Valid() && HeadersSound(script, At(at, stack, w, t))
    ensures Meaning(script.host, fuel, p, w, t).Done?
    decreases n, p, 0, 0
  {
    hide HeadersSound, HaltsIn, Size, Reaches, Placed, Nesting, Skipping, HasLoop, Scoped;
    fuel := 0;
    if script.host.test(p.cond, w) {
      PlacedBlock(script, p, a, at);
      LineIf(script, at, stack, w, t);
      var f := IfFrame(IfTrue, script.endOf[at]);
      RunnableBody(script, p, a, at, stack, f);
      HaltsAfter(script, n, At(at, stack, w, t), At(at + 1, stack + [f], w, t));
      SoundAfter(script, At(at, stack, w, t), At(at + 1, stack + [f], w, t));
      fuel := Terminates(script, n, a, at + 1, stack + [f], w, t);
    }
  }

  lemma {:induction false} TerminatesChoose<W(!new)>(
      script: Script<W>, n: nat, p: Program, a: Program, b: Program, at: nat, stack: seq<Frame>, w: W, t: seq<string>)
    returns (fuel: nat)
    requires p.Choose? && p.thn == a && p.els == b && Runnable(script, p, at, stack)
    requires HaltsIn(script, n, At(at, stack, w, t))
    requires script.Valid() && HeadersSound(script, At(at, stack, w, t))
    ensures Meaning(script.host, fuel, p, w, t).Done?
    decreases n, p, 0, 0
  {
    hide HeadersSound, HaltsIn, Size, Reaches, Placed, Nesting, Skipping, HasLoop, Scoped;
    PlacedBranches(script, p, a, b, at);
    LineIf(script, at, stack, w, t);
    var c := script.host.test(p.cond, w);
    var f := IfFrame(if c then IfTrue else IfFalse, script.endOf[at]);
    HaltsAfter(script, n, At(at, stack, w, t), At(at + 1, stack + [f], w, t));
    SoundAfter(script, At(at, stack, w, t), At(at + 1, stack + [f], w, t));
    if c {
      RunnableBranches(script, p, a, b, at, stack, f);
      fuel := Terminates(script, n, a, at + 1, stack + [f], w, t);
    } else {
      var g := f.(state := IfElseT);
      var elseAt := at + Size(a) + 1;
      RunnableBranches(script, p, a, b, at, stack, g);
      SkipsOver(script, a, at + 1, stack, f, w, t);
      HaltsAfter(script, n, At(at + 1, stack + [f], w, t), At(elseAt, stack + [f], w, t));
      SoundAfter(script, At(at + 1, stack + [f], w, t), At(elseAt, stack + [f], w, t));
      LineElse(script, elseAt, stack, f, w, t);
      HaltsAfter(script, n, At(elseAt, stack + [f], w, t), At(elseAt + 1, stack + [g], w, t));
      SoundAfter(script, At(elseAt, stack + [f], w, t), At(elseAt + 1, stack + [g], w, t));
      fuel := Terminates(script, n, b, elseAt + 1, stack + [g], w, t);
    }
  }

  lemma {:induction false} TerminatesForEach<W(!new)>(
      script: Script<W>, n: nat, p: Program, a: Program, at: nat, stack: seq<Frame>, w: W, t: seq<string>)
    returns (fuel: nat)
    requires p.ForEach? && p.body == a && Runnable(script, p, at, stack)
    requires HaltsIn(script, n, At(at, stack, w, t))
    requires script.Valid() && HeadersSound(script, At(at, stack, w, t))
    ensures Meaning(script.host, fuel, p, w, t).Done?
    decreases n, p, 0, 0
  {
    hide HeadersSound, HaltsIn, Size, Reaches, Placed, Nesting, Skipping, HasLoop, Scoped;
    PlacedBlock(script, p, a, at);
    SoundHere(script, At(at, stack, w, t));
    LineForeach(script, at, stack, w, t);
    var Header(name, items) := script.host.foreach(p.header, w);
    fuel := 0;
    if items != [] {
      var f := ForeachFrame(at + 1, script.endOf[at], name, items, 0);
      HaltsAfter(script, n, At(at, stack, w, t), At(at + 1, stack + [f], script.host.assign(name, items[0], w), t));
      SoundAfter(script, At(at, stack, w, t), At(at + 1, stack + [f], script.host.assign(name, items[0], w), t));
      assert items[0..] == items;
      fuel := TerminatesItems(script, n, p, a, at, stack, f, w, t);
    }
  }

  lemma {:induction false} TerminatesItems<W(!new)>(
      script: Script<W>, n: nat, p: Program, a: Program, at: nat, stack: seq<Frame>, f: Frame, w: W, t: seq<string>)
    returns (fuel: nat)
    requires p.ForEach? && p.body == a && Runnable(script, p, at, stack)
    requires f.ForeachFrame? && f.bodyLine == at + 1 && f.endLine == script.endOf[at] && f.cur < |f.items|
    requires HaltsIn(script, n, At(at + 1, stack + [f], script.host.assign(f.name, f.items[f.cur], w), t))
    requires script.Valid()
      && HeadersSound(script, At(at + 1, stack + [f], script.host.assign(f.name, f.items[f.cur], w), t))
    ensures MeaningForEach(script.host, fuel, a, f.name, f.items[f.cur..], w, t).Done?
    decreases n, a, 3, |f.items| - f.cur
  {
    hide HeadersSound, HaltsIn, Size, Reaches, Runnable, Meaning;
    PlacedFor(script, p, a, at, stack);
    RunnableBody(script, p, a, at, stack, f);
    var w1 := script.host.assign(f.name, f.items[f.cur], w);
    var start := At(at + 1, stack + [f], w1, t);
    fuel := Terminates(script, n, a, at + 1, stack + [f], w1, t);
    var r := Meaning(script.host, fuel, a, w1, t);
    SimulatesRound(script, a, at + 1, fuel, stack, f, w1, t);
    assert f.items[f.cur..][1..] == f.items[f.cur + 1..];
    if r.outcome.Normal? || r.outcome.Continued? {
      if f.cur + 1 < |f.items| {
        var g := f.(cur := f.cur + 1);
        var atEnd := At(f.endLine, stack + [f], r.world, r.trace);
        LineEndForeach(script, f.endLine, stack, f, r.world, r.trace);
        var again := At(at + 1, stack + [g], script.host.assign(f.name, f.items[g.cur], r.world), r.trace);
        HaltsAfter(script, n, start, atEnd);
        SoundAfter(script, start, atEnd);
        HaltsAfter(script, n, atEnd, again);
        SoundAfter(script, atEnd, again);
        var x := TerminatesItems(script, n, p, a, at, stack, g, r.world, r.trace);
        MoreFuel(script.host, fuel, fuel + x, a, w1, t);
        MoreFuelForEach(script.host, x, fuel + x, a, f.name, f.items[g.cur..], r.world, r.trace);
        fuel := fuel + x;
      }
    }
  }

  lemma {:induction false} TerminatesRepeat<W(!new)>(
      script: Script<W>, n: nat, p: Program, a: Program, at: nat, stack: seq<Frame>, w: W, t: seq<string>)
    returns (fuel: nat)
    requires p.Repeat? && p.body == a && Runnable(script, p, at, stack)
    requires HaltsIn(script, n, At(at, stack, w, t))
    requires script.Valid() && HeadersSound(script, At(at, stack, w, t))
    ensures Meaning(script.host, fuel, p, w, t).Done?
    decreases n, p, 0, 1
  {
    hide HeadersSound, HaltsIn, Size, Reaches, Placed, Nesting, Skipping, HasLoop, Scoped;
    fuel := 0;
    if script.host.test(p.cond, w) {
      PlacedBlock(script, p, a, at);
      LineWhile(script, at, stack, w, t);
      var f := WhileFrame(at + 1, script.endOf[at], p.cond);
      HaltsAfter(script, n, At(at, stack, w, t), At(at + 1, stack + [f], w, t));
      SoundAfter(script, At(at, stack, w, t), At(at + 1, stack + [f], w, t));
      fuel := TerminatesRounds(script, n, p, a, at, stack, f, w, t);
    }
  }

  lemma {:induction false} TerminatesRounds<W(!new)>(
      script: Script<W>, n: nat, p: Program, a: Program, at: nat, stack: seq<Frame>, f: Frame, w: W, t: seq<string>)
    returns (fuel: nat)
    requires p.Repeat? && p.body == a && Runnable(script, p, at, stack)
    requires f == WhileFrame(at + 1, script.endOf[at], p.cond) && script.host.test(p.cond, w)
    requires HaltsIn(script, n, At(at + 1, stack + [f], w, t))
    requires script.Valid() && HeadersSound(script, At(at + 1, stack + [f], w, t))
    ensures Meaning(script.host, fuel, p, w, t).Done?
    decreases n, p, 0, 0
  {
    hide HeadersSound, HaltsIn, Size, Reaches, Runnable;
    PlacedFor(script, p, a, at, stack);
    RunnableBody(script, p, a, at, stack, f);
    var x := Terminates(script, n, a, at + 1, stack + [f], w, t);
    var r := Meaning(script.host, x, a, w, t);
    SimulatesRound(script, a, at + 1, x, stack, f, w, t);
    var y := 0;
    if (r.outcome.Normal? || r.outcome.Continued?) && script.host.test(p.cond, r.world) {
      var atEnd := At(f.endLine, stack + [f], r.world, r.trace);
      HaltsAfter(script, n, At(at + 1, stack + [f], w, t), atEnd);
      SoundAfter(script, At(at + 1, stack + [f], w, t), atEnd);
      LoopsBack(script, n, f.endLine, stack, f, r.world, r.trace);
      LineEndWhile(script, f.endLine, stack, f, r.world, r.trace);
      SoundAfter(script, atEnd, At(f.bodyLine, stack + [f], r.world, r.trace));
      y := TerminatesRounds(script, n - 1, p, a, at, stack, f, r.world, r.trace);
    }
    fuel := x + y + 1;
    MoreFuel(script.host, x, fuel, a, w, t);
    if (r.outcome.Normal? || r.outcome.Continued?) && script.host.test(p.cond, r.world) {
      MoreFuel(script.host, y, fuel - 1, p, r.world, r.trace);
    }
  }

  /** Going back to the body of a `while` costs the machine a step. */
  lemma {:induction false} LoopsBack<W>(
      script: Script<W>, n: nat, at: nat, stack: seq<Frame>, f: Frame, w: W, t: seq<string>)
    requires script.Valid() && at < |script.lines| && script.lines[at].End? && f.WhileFrame?
    requires script.host.test(f.cond, w) && HaltsIn(script, n, At(at, stack + [f], w, t))
    ensures n > 0 && HaltsIn(script, n - 1, At(f.bodyLine, stack + [f], w, t))
  {
    hide HaltsIn;
    HaltsNext(script, n, At(at, stack + [f], w, t));
  }

  // ----- the theorem -----

  /** What the interpreter asks of a script: at most 32 nested blocks, `break` and `continue` inside
      loops, and a name and a list in every `foreach` header that its run comes to. */
  ghost predicate WellFormed<W>(host: Host<W>, p: Program, endOf: seq<int>, w: W) {
    && Nesting(p) <= NEST_MAX && Scoped(p, false)
    && |endOf| == |Flatten(p)| && HeadersSound(Script(host, Flatten(p), endOf), Start(w))
  }

  /** Headers that are sound whatever the variables hold are sound when they are come to. */
  lemma {:induction false} StaticHeaders<W(!new)>(host: Host<W>, p: Program, endOf: seq<int>, w: W)
    requires HeadersOk(host, p) && |endOf| == |Flatten(p)|
    ensures HeadersSound(Script(host, Flatten(p), endOf), Start(w))
  {
    hide Steps, Flatten, HeadersOk;
    var script := Script(host, Flatten(p), endOf);
    forall k: nat
      ensures !BadHeaderAt(script, Steps(script, k, Start(w)))
    {
      var m := Steps(script, k, Start(w));
      if script.Live(m) {
        HeaderLines(host, p, m.line, m.world);
      }
    }
  }

  lemma {:induction false} HeaderLines<W(!new)>(host: Host<W>, p: Program, i: nat, w: W)
    requires HeadersOk(host, p) && i < |Flatten(p)|
    ensures Flatten(p)[i].Foreach? ==> host.foreach(Flatten(p)[i].header, w).Header?
    decreases p, 0
  {
    match p
    case Then(a, b) =>
      if i < |Flatten(a)| {
        HeaderLines(host, a, i, w);
      } else {
        HeaderLines(host, b, i - |Flatten(a)|, w);
      }
    case When(c, a) => InsideLines(host, a, i - 1, w);
    case ForEach(h, a) => InsideLines(host, a, i - 1, w);
    case Repeat(c, a) => InsideLines(host, a, i - 1, w);
    case Choose(c, a, b) =>
      InsideLines(host, a, i - 1, w);
      InsideLines(host, b, i - |Flatten(a)| - 2, w);
    case _ =>
  }

  lemma {:induction false} InsideLines<W(!new)>(host: Host<W>, a: Program, i: int, w: W)
    requires HeadersOk(host, a)
    ensures 0 <= i < |Flatten(a)| && Flatten(a)[i].Foreach? ==> host.foreach(Flatten(a)[i].header, w).Header?
    decreases a, 1
  {
    if 0 <= i < |Flatten(a)| {
      HeaderLines(host, a, i, w);
    }
  }

  lemma {:induction false} HaltedStates<W>(script: Script<W>, n: nat, k: nat, m: Machine<W>)
    requires script.Valid() && HaltsIn(script, n, m) && HaltsIn(script, k, m)
    ensures Steps(script, n, m) == Steps(script, k, m)
  {
    if n <= k {
      StepsAdd(script, n, k - n, m);
      Stays(script, k - n, Steps(script, n, m));
    } else {
      StepsAdd(script, k, n - k, m);
      Stays(script, n - k, Steps(script, k, m));
    }
  }

  /** If the program terminates, the machine halts in the state the program prescribes. */
  lemma {:induction false} HaltsWithResult<W(!new)>(
      host: Host<W>, p: Program, endOf: seq<int>, w: W, fuel: nat)
    returns (n: nat)
    requires WellFormed(host, p, endOf, w) && Matching(Flatten(p), endOf)
    requires Meaning(host, fuel, p, w, []).Done?
    ensures HaltsIn(Script(host, Flatten(p), endOf), n, Start(w))
    ensures Steps(Script(host, Flatten(p), endOf), n, Start(w))
      == Landing(Meaning(host, fuel, p, w, []), |Flatten(p)|, [])
  {
    hide Steps, Meaning, Flatten, Placed, Closing;
    var script := Script(host, Flatten(p), endOf);
    FlattenSize(p);
    PlacedWhereWritten(script, p, 0);
    Simulates(script, p, 0, fuel, [], w, []);
    n :| Steps(script, n, Start(w)) == Landing(Meaning(host, fuel, p, w, []), |Flatten(p)|, []);
    if Meaning(host, fuel, p, w, []).outcome.Broke? || Meaning(host, fuel, p, w, []).outcome.Continued? {
      ScopedOutcome(host, fuel, p, false, w, []);
    }
  }

  lemma {:induction false} TerminatesWhenHalted<W(!new)>(
      host: Host<W>, p: Program, endOf: seq<int>, w: W, n: nat)
    returns (fuel: nat)
    requires WellFormed(host, p, endOf, w) && Matching(Flatten(p), endOf)
    requires HaltsIn(Script(host, Flatten(p), endOf), n, Start(w))
    ensures Meaning(host, fuel, p, w, []).Done?
  {
    hide HeadersSound, HaltsIn, Meaning;
    var script := Script(host, Flatten(p), endOf);
    FlattenSize(p);
    PlacedWhereWritten(script, p, 0);
    fuel := Terminates(script, n, p, 0, [], w, []);
  }

  /**
   The interpreter runs structured programs correctly: their text is accepted, the
   machine halts on it iff the program terminates, and whenever both end, the machine has
   run the program's commands in the program's order to the program's final variables.
   */
  lemma {:induction false} RunsAsProgram<W(!new)>(host: Host<W>, p: Program, endOf: seq<int>, w: W)
    requires WellFormed(host, p, endOf, w) && Matching(Flatten(p), endOf)
    ensures Balanced(Flatten(p))
    ensures (exists n: nat :: HaltsIn(Script(host, Flatten(p), endOf), n, Start(w)))
       <==> (exists fuel: nat :: Meaning(host, fuel, p, w, []).Done?)
    ensures forall n: nat, fuel: nat ::
      HaltsIn(Script(host, Flatten(p), endOf), n, Start(w)) && Meaning(host, fuel, p, w, []).Done?
      ==> Steps(Script(host, Flatten(p), endOf), n, Start(w))
          == Landing(Meaning(host, fuel, p, w, []), |Flatten(p)|, [])
  {
    hide HeadersSound, HaltsIn, Meaning, Steps, WellFormed, Matching, Balanced, Landing;
    FlattenBalanced(p);
    var script := Script(host, Flatten(p), endOf);
    assert script.Valid() by { MatchingLength(Flatten(p), endOf); }
    if n: nat :| HaltsIn(script, n, Start(w)) {
      var fuel := TerminatesWhenHalted(host, p, endOf, w, n);
    }
    if fuel: nat :| Meaning(host, fuel, p, w, []).Done? {
      var n := HaltsWithResult(host, p, endOf, w, fuel);
    }
    forall n: nat, fuel: nat | HaltsIn(script, n, Start(w)) && Meaning(host, fuel, p, w, []).Done?
      ensures Steps(script, n, Start(w)) == Landing(Meaning(host, fuel, p, w, []), |Flatten(p)|, [])
    {
      var k := HaltsWithResult(host, p, endOf, w, fuel);
      HaltedStates(script, n, k, Start(w));
    }
  }

  lemma {:induction false} MatchingLength(lines: seq<Line>, endOf: seq<int>)
    requires Matching(lines, endOf)
    ensures |endOf| == |lines|
  {
  }
}
