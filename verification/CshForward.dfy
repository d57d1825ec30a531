/**
 From tree to machine: whenever a structured program terminates, the line machine runs
 its text to the same outcome, with the same commands, variables and block stack.
 */
module CshForward {
  import opened CshLines
  import opened CshMachine
  import opened CshProgram
  import opened CshSimulation

  /** The machine at line `at`, still running. */
  ghost function At<W>(at: int, stack: seq<Frame>, w: W, t: seq<string>): Machine<W> {
    Machine(at, stack, w, t, Running)
  }

  ghost predicate Reaches<W>(script: Script<W>, m: Machine<W>, m': Machine<W>)
    requires script.Valid()
  {
    exists n: nat :: Steps(script, n, m) == m'
  }

  lemma {:induction false} ReachesHere<W>(script: Script<W>, m: Machine<W>)
    requires script.Valid()
    ensures Reaches(script, m, m)
  {
    assert Steps(script, 0, m) == m;
  }

  lemma {:induction false} ReachesIn<W>(script: Script<W>, n: nat, m: Machine<W>)
    requires script.Valid()
    ensures Reaches(script, m, Steps(script, n, m))
  {
  }

  lemma {:induction false} ReachesNext<W>(script: Script<W>, m: Machine<W>)
    requires script.Valid() && script.Live(m)
    ensures Reaches(script, m, Step(script, m))
  {
    OneStep(script, m);
    ReachesIn(script, 1, m);
  }

  lemma {:induction false} ReachesThen<W>(script: Script<W>, a: Machine<W>, b: Machine<W>, c: Machine<W>)
    requires script.Valid() && Reaches(script, a, b) && Reaches(script, b, c)
    ensures Reaches(script, a, c)
  {
    hide Steps;
    var i: nat :| Steps(script, i, a) == b;
    var j: nat :| Steps(script, j, b) == c;
    StepsAdd(script, i, j, a);
    ReachesIn(script, i + j, a);
  }

  // ----- where a block's outcome lands -----

  /** A program leaves a loop early only when it stands in one. */
  lemma {:induction false} ScopedOutcome<W>(host: Host<W>, fuel: nat, p: Program, inLoop: bool, w: W, t: seq<string>)
    requires Scoped(p, inLoop) && Meaning(host, fuel, p, w, t).Done?
    requires var o := Meaning(host, fuel, p, w, t).outcome; o.Broke? || o.Continued?
    ensures inLoop
    decreases fuel, p
  {
    match p
    case Then(a, b) =>
      var r := Meaning(host, fuel, a, w, t);
      if r.outcome.Normal? {
        ScopedOutcome(host, fuel, b, inLoop, r.world, r.trace);
      } else {
        ScopedOutcome(host, fuel, a, inLoop, w, t);
      }
    case When(c, a) => ScopedOutcome(host, fuel, a, inLoop, w, t);
    case Choose(c, a, b) =>
      ScopedOutcome(host, fuel, if host.test(c, w) then a else b, inLoop, w, t);
    case ForEach(h, a) =>
      var header := host.foreach(h, w);
      LoopOutcome(host, fuel, a, header.name, header.items, w, t);
    case Repeat(c, a) =>
      var r := Meaning(host, fuel, a, w, t);
      ScopedOutcome(host, fuel - 1, p, inLoop, r.world, r.trace);
    case _ =>
  }

  lemma {:induction false} LoopOutcome<W>(
      host: Host<W>, fuel: nat, body: Program, name: string, items: seq<string>, w: W, t: seq<string>)
    requires MeaningForEach(host, fuel, body, name, items, w, t).Done?
    ensures var o := MeaningForEach(host, fuel, body, name, items, w, t).outcome; o.Normal? || o.Left?
    decreases |items|
  {
    if items != [] {
      var r := Meaning(host, fuel, body, host.assign(name, items[0], w), t);
      if r.outcome.Normal? || r.outcome.Continued? {
        LoopOutcome(host, fuel, body, name, items[1..], r.world, r.trace);
      }
    }
  }

  /** Leaving through an `if` frame is leaving without it. */
  lemma {:induction false} IfFrameTransparent<W>(r: Result<W>, x: int, y: int, stack: seq<Frame>, f: Frame)
    requires r.Done? && !r.outcome.Normal? && f.IfFrame? && !f.Skips() && !Skipping(stack)
    requires r.outcome.Broke? || r.outcome.Continued? ==> HasLoop(stack)
    ensures Landing(r, x, stack + [f]) == Landing(r, y, stack)
  {
    hide Skipping, HasLoop;
    PushParts(stack, f);
    if r.outcome.Broke? || r.outcome.Continued? {
      JumpsIgnorePosition(At(0, stack + [f], r.world, r.trace), At(0, stack, r.world, r.trace), stack);
    }
  }

  /** `break` leaves past the end of the loop, `continue` goes to its end line. */
  lemma {:induction false} LoopFrameLanding<W>(r: Result<W>, x: int, stack: seq<Frame>, f: Frame)
    requires r.Done? && f.Loops()
    ensures r.outcome.Normal? ==> Landing(r, x, stack + [f]) == At(x, stack + [f], r.world, r.trace)
    ensures r.outcome.Continued? ==> Landing(r, x, stack + [f]) == At(f.endLine, stack + [f], r.world, r.trace)
    ensures r.outcome.Broke? ==> Landing(r, x, stack + [f]) == At(f.endLine + 1, stack, r.world, r.trace)
    ensures r.outcome.Left? ==> Landing(r, x, stack + [f]) == Gone(r.world, r.trace, r.outcome.arg)
  {
    PushParts(stack, f);
  }

  // ----- headers -----

  /** The machine stands at a `foreach` that it does not skip and whose header is bad. */
  ghost predicate BadHeaderAt<W>(script: Script<W>, m: Machine<W>) {
    && script.Live(m) && script.lines[m.line].Foreach? && !Skipping(m.stack)
    && script.host.foreach(script.lines[m.line].header, m.world).BadHeader?
  }

  /** The run from here never does. */
  ghost predicate HeadersSound<W>(script: Script<W>, m: Machine<W>)
    requires script.Valid()
  {
    forall k: nat :: !BadHeaderAt(script, Steps(script, k, m))
  }

  lemma {:induction false} SoundAfter<W>(script: Script<W>, m: Machine<W>, m': Machine<W>)
    requires script.Valid() && HeadersSound(script, m) && Reaches(script, m, m')
    ensures HeadersSound(script, m')
  {
    hide BadHeaderAt;
    var n: nat :| Steps(script, n, m) == m';
    forall k: nat
      ensures !BadHeaderAt(script, Steps(script, k, m'))
    {
      StepsAdd(script, n, k, m);
      assert !BadHeaderAt(script, Steps(script, n + k, m));
    }
  }

  lemma {:induction false} SoundHere<W>(script: Script<W>, m: Machine<W>)
    requires script.Valid() && HeadersSound(script, m)
    ensures !BadHeaderAt(script, m)
  {
    assert Steps(script, 0, m) == m;
  }

  // ----- what a block needs -----

  /** Everything a block needs to run under `stack`. */
  ghost predicate Runnable<W(!new)>(script: Script<W>, p: Program, at: nat, stack: seq<Frame>) {
    && script.Valid()
    && Placed(script, p, at)
    && |stack| + Nesting(p) <= NEST_MAX
    && !Skipping(stack)
    && Scoped(p, HasLoop(stack))
  }

  lemma {:induction false} RunnableBody<W(!new)>(
      script: Script<W>, p: Program, a: Program, at: nat, stack: seq<Frame>, f: Frame)
    requires Runnable(script, p, at, stack) && IsBlockOf(p, a)
    requires !f.Skips() && (if p.When? then f.IfFrame? else f.Loops())
    ensures Runnable(script, a, at + 1, stack + [f])
  {
    hide Skipping, HasLoop, Placed;
    PlacedBlock(script, p, a, at);
    PushParts(stack, f);
  }

  lemma {:induction false} RunnableBranches<W(!new)>(
      script: Script<W>, p: Program, a: Program, b: Program, at: nat, stack: seq<Frame>, f: Frame)
    requires Runnable(script, p, at, stack) && p.Choose? && p.thn == a && p.els == b
    requires !f.Skips() && f.IfFrame?
    ensures Runnable(script, a, at + 1, stack + [f])
    ensures Runnable(script, b, at + Size(a) + 2, stack + [f])
  {
    hide Skipping, HasLoop, Placed;
    PlacedBranches(script, p, a, b, at);
    PushParts(stack, f);
  }

  // ----- single lines -----

  lemma {:induction false} LineIf<W>(script: Script<W>, at: nat, stack: seq<Frame>, w: W, t: seq<string>)
    requires script.Valid() && at < |script.lines| && script.lines[at].If?
    requires !Skipping(stack) && |stack| < NEST_MAX
    ensures var c := script.host.test(script.lines[at].cond, w);
      Reaches(script, At(at, stack, w, t),
        At(at + 1, stack + [IfFrame(if c then IfTrue else IfFalse, script.endOf[at])], w, t))
  {
    hide Reaches;
    ReachesNext(script, At(at, stack, w, t));
  }

  lemma {:induction false} LineElse<W>(script: Script<W>, at: nat, stack: seq<Frame>, f: Frame, w: W, t: seq<string>)
    requires script.Valid() && at < |script.lines| && script.lines[at].Else?
    requires f.IfFrame? && (f.state == IfTrue || f.state == IfFalse)
    ensures Reaches(script, At(at, stack + [f], w, t),
      At(at + 1, stack + [f.(state := if f.state == IfTrue then IfElseF else IfElseT)], w, t))
  {
    hide Reaches;
    assert Pop(stack + [f]) == stack;
    ReachesNext(script, At(at, stack + [f], w, t));
  }

  /** The closing line of an `if`, or of a loop that is not running. */
  lemma {:induction false} LinePops<W>(script: Script<W>, at: nat, stack: seq<Frame>, f: Frame, w: W, t: seq<string>)
    requires script.Valid() && at < |script.lines| && script.lines[at].Closes() && !f.Loops()
    ensures Reaches(script, At(at, stack + [f], w, t), At(at + 1, stack, w, t))
  {
    hide Reaches;
    assert Pop(stack + [f]) == stack;
    ReachesNext(script, At(at, stack + [f], w, t));
  }

  /** An untaken body and its closing line. */
  lemma {:induction false} SkipsToClose<W>(
      script: Script<W>, a: Program, at: nat, stack: seq<Frame>, f: Frame, w: W, t: seq<string>)
    requires script.Valid() && Placed(script, a, at) && f.Skips()
    requires |stack| + 1 + Nesting(a) <= NEST_MAX
    requires at + Size(a) < |script.lines| && script.lines[at + Size(a)].Closes()
    ensures Reaches(script, At(at, stack + [f], w, t), At(at + Size(a) + 1, stack, w, t))
  {
    hide Reaches, Placed, Steps, Skipping, Size, Nesting;
    PushParts(stack, f);
    var m := At(at, stack + [f], w, t);
    SkipsBlock(script, a, at, m);
    ReachesIn(script, Size(a), m);
    LinePops(script, at + Size(a), stack, f, w, t);
    ReachesThen(script, m, At(at + Size(a), stack + [f], w, t), At(at + Size(a) + 1, stack, w, t));
  }

  lemma {:induction false} SkipsOver<W>(
      script: Script<W>, a: Program, at: nat, stack: seq<Frame>, f: Frame, w: W, t: seq<string>)
    requires script.Valid() && Placed(script, a, at) && f.Skips()
    requires |stack| + 1 + Nesting(a) <= NEST_MAX
    ensures Reaches(script, At(at, stack + [f], w, t), At(at + Size(a), stack + [f], w, t))
  {
    hide Reaches, Placed, Steps, Skipping, Size, Nesting;
    PushParts(stack, f);
    SkipsBlock(script, a, at, At(at, stack + [f], w, t));
    ReachesIn(script, Size(a), At(at, stack + [f], w, t));
  }

  lemma {:induction false} LineLeaf<W(!new)>(
      script: Script<W>, p: Program, at: nat, fuel: nat, stack: seq<Frame>, w: W, t: seq<string>)
    requires Runnable(script, p, at, stack)
    requires p.Empty? || p.Do? || p.BreakOut? || p.GoOn? || p.Quit?
    ensures Reaches(script, At(at, stack, w, t), Landing(Meaning(script.host, fuel, p, w, t), at + 1, stack))
  {
    hide Reaches, Skipping, HasLoop;
    var m := At(at, stack, w, t);
    if p.BreakOut? || p.GoOn? {
      JumpsIgnorePosition(m, At(0, stack, w, t), stack);
    }
    ReachesNext(script, m);
  }

  // ----- the simulation -----

  /**
   If a program terminates, the machine started on its first line reaches the place its
   outcome calls for, with the same variables and the same trace of commands.
   */
  lemma {:induction false} Simulates<W(!new)>(
      script: Script<W>, p: Program, at: nat, fuel: nat, stack: seq<Frame>, w: W, t: seq<string>)
    requires Runnable(script, p, at, stack)
    requires Meaning(script.host, fuel, p, w, t).Done?
    requires script.Valid() && HeadersSound(script, At(at, stack, w, t))
    ensures Reaches(script, At(at, stack, w, t), Landing(Meaning(script.host, fuel, p, w, t), at + Size(p), stack))
    decreases fuel, p, 1, 0
  {
    hide Reaches, HeadersSound, Runnable, Landing;
    match p
    case Nothing => SimulatesNothing(script, at, fuel, stack, w, t);
    case Then(a, b) => SimulatesThen(script, p, a, b, at, fuel, stack, w, t);
    case When(c, a) => SimulatesWhen(script, p, a, at, fuel, stack, w, t);
    case Choose(c, a, b) => SimulatesChoose(script, p, a, b, at, fuel, stack, w, t);
    case ForEach(h, a) => SimulatesForEach(script, p, a, at, fuel, stack, w, t);
    case Repeat(c, a) => SimulatesRepeat(script, p, a, at, fuel, stack, w, t);
    case _ => LineLeaf(script, p, at, fuel, stack, w, t);
  }

  lemma {:induction false} SimulatesNothing<W(!new)>(
      script: Script<W>, at: nat, fuel: nat, stack: seq<Frame>, w: W, t: seq<string>)
    requires Runnable(script, Nothing, at, stack)
    ensures Reaches(script, At(at, stack, w, t), Landing(Meaning(script.host, fuel, Nothing, w, t), at, stack))
  {
    hide Reaches;
    ReachesHere(script, At(at, stack, w, t));
  }

  lemma {:induction false} RunnableParts<W(!new)>(
      script: Script<W>, p: Program, a: Program, b: Program, at: nat, stack: seq<Frame>)
    requires p == Then(a, b) && Runnable(script, p, at, stack)
    ensures script.Valid() && Runnable(script, a, at, stack) && Runnable(script, b, at + Size(a), stack)
    ensures Size(p) == Size(a) + Size(b)
  {
    hide Skipping, HasLoop, Placed;
    PlacedParts(script, p, a, b, at);
  }

  lemma {:induction false} SimulatesThen<W(!new)>(
      script: Script<W>, p: Program, a: Program, b: Program, at: nat, fuel: nat, stack: seq<Frame>, w: W,
      t: seq<string>)
    requires p == Then(a, b) && Runnable(script, p, at, stack)
    requires Meaning(script.host, fuel, p, w, t).Done?
    requires script.Valid() && HeadersSound(script, At(at, stack, w, t))
    ensures Reaches(script, At(at, stack, w, t), Landing(Meaning(script.host, fuel, p, w, t), at + Size(p), stack))
    decreases fuel, p, 0, 0
  {
    hide Reaches, HeadersSound, Runnable, Size;
    RunnableParts(script, p, a, b, at, stack);
    var r := Meaning(script.host, fuel, a, w, t);
    Simulates(script, a, at, fuel, stack, w, t);
    if r.outcome.Normal? {
      SoundAfter(script, At(at, stack, w, t), At(at + Size(a), stack, r.world, r.trace));
      Simulates(script, b, at + Size(a), fuel, stack, r.world, r.trace);
      ReachesThen(script, At(at, stack, w, t), At(at + Size(a), stack, r.world, r.trace),
                  Landing(Meaning(script.host, fuel, p, w, t), at + Size(p), stack));
    }
  }

  /** Running one branch of an `if` under its live frame. */
  lemma {:induction false} SimulatesBranch<W(!new)>(
      script: Script<W>, a: Program, at: nat, fuel: nat, stack: seq<Frame>, f: Frame, after: int, w: W, t: seq<string>)
    requires f.IfFrame? && !f.Skips() && Runnable(script, a, at, stack + [f])
    requires Meaning(script.host, fuel, a, w, t).Done?
    requires var r := Meaning(script.host, fuel, a, w, t);
      Reaches(script, At(at + Size(a), stack + [f], r.world, r.trace), At(after, stack, r.world, r.trace))
    requires script.Valid() && HeadersSound(script, At(at, stack + [f], w, t))
    ensures Reaches(script, At(at, stack + [f], w, t), Landing(Meaning(script.host, fuel, a, w, t), after, stack))
    decreases fuel, a, 2, 0
  {
    hide Reaches, HeadersSound, Meaning, Placed, Size, Skipping, HasLoop, Nesting, Scoped;
    var r := Meaning(script.host, fuel, a, w, t);
    Simulates(script, a, at, fuel, stack + [f], w, t);
    PushParts(stack, f);
    if r.outcome.Normal? {
      ReachesThen(script, At(at, stack + [f], w, t), At(at + Size(a), stack + [f], r.world, r.trace),
        At(after, stack, r.world, r.trace));
    } else {
      if r.outcome.Broke? || r.outcome.Continued? {
        ScopedOutcome(script.host, fuel, a, HasLoop(stack + [f]), w, t);
      }
      IfFrameTransparent(r, at + Size(a), after, stack, f);
    }
  }

  lemma {:induction false} SimulatesWhen<W(!new)>(
      script: Script<W>, p: Program, a: Program, at: nat, fuel: nat, stack: seq<Frame>, w: W, t: seq<string>)
    requires p.When? && p.thn == a && Runnable(script, p, at, stack)
    requires Meaning(script.host, fuel, p, w, t).Done?
    requires script.Valid() && HeadersSound(script, At(at, stack, w, t))
    ensures Reaches(script, At(at, stack, w, t), Landing(Meaning(script.host, fuel, p, w, t), at + Size(p), stack))
    decreases fuel, p, 0, 0
  {
    hide Reaches, HeadersSound, Placed, Size, Skipping, Nesting, Scoped, HasLoop;
    PlacedBlock(script, p, a, at);
    LineIf(script, at, stack, w, t);
    var r := Meaning(script.host, fuel, p, w, t);
    var c := script.host.test(p.cond, w);
    var f := IfFrame(if c then IfTrue else IfFalse, script.endOf[at]);
    SoundAfter(script, At(at, stack, w, t), At(at + 1, stack + [f], w, t));
    if c {
      RunnableBody(script, p, a, at, stack, f);
      LinePops(script, at + Size(a) + 1, stack, f, r.world, r.trace);
      SimulatesBranch(script, a, at + 1, fuel, stack, f, at + Size(p), w, t);
    } else {
      SkipsToClose(script, a, at + 1, stack, f, w, t);
    }
    ReachesThen(script, At(at, stack, w, t), At(at + 1, stack + [f], w, t), Landing(r, at + Size(p), stack));
  }

  lemma {:induction false} SimulatesChoose<W(!new)>(
      script: Script<W>, p: Program, a: Program, b: Program, at: nat, fuel: nat, stack: seq<Frame>, w: W,
      t: seq<string>)
    requires p.Choose? && p.thn == a && p.els == b && Runnable(script, p, at, stack)
    requires Meaning(script.host, fuel, p, w, t).Done?
    requires script.Valid() && HeadersSound(script, At(at, stack, w, t))
    ensures Reaches(script, At(at, stack, w, t), Landing(Meaning(script.host, fuel, p, w, t), at + Size(p), stack))
    decreases fuel, p, 0, 0
  {
    hide Reaches, HeadersSound, Placed, Size, Skipping, Nesting, Scoped, HasLoop;
    PlacedBranches(script, p, a, b, at);
    LineIf(script, at, stack, w, t);
    var r := Meaning(script.host, fuel, p, w, t);
    var c := script.host.test(p.cond, w);
    var f := IfFrame(if c then IfTrue else IfFalse, script.endOf[at]);
    var start := At(at + 1, stack + [f], w, t);
    var elseAt := at + Size(a) + 1;
    SoundAfter(script, At(at, stack, w, t), start);
    if c {
      RunnableBranches(script, p, a, b, at, stack, f);
      ElseThenSkips(script, b, elseAt, stack, f, r.world, r.trace);
      SimulatesBranch(script, a, at + 1, fuel, stack, f, at + Size(p), w, t);
    } else {
      var g := f.(state := IfElseT);
      RunnableBranches(script, p, a, b, at, stack, g);
      SkipsOver(script, a, at + 1, stack, f, w, t);
      LineElse(script, elseAt, stack, f, w, t);
      ReachesThen(script, start, At(elseAt, stack + [f], w, t), At(elseAt + 1, stack + [g], w, t));
      SoundAfter(script, start, At(elseAt + 1, stack + [g], w, t));
      LinePops(script, elseAt + Size(b) + 1, stack, g, r.world, r.trace);
      SimulatesBranch(script, b, elseAt + 1, fuel, stack, g, at + Size(p), w, t);
      ReachesThen(script, start, At(elseAt + 1, stack + [g], w, t), Landing(r, at + Size(p), stack));
    }
    ReachesThen(script, At(at, stack, w, t), start, Landing(r, at + Size(p), stack));
  }

  /** After a taken first branch: the `else` line, the skipped second branch, the `endif`. */
  lemma {:induction false} ElseThenSkips<W>(
      script: Script<W>, b: Program, at: nat, stack: seq<Frame>, f: Frame, w: W, t: seq<string>)
    requires script.Valid() && at < |script.lines| && script.lines[at].Else?
    requires f.IfFrame? && f.state == IfTrue
    requires Placed(script, b, at + 1) && |stack| + 1 + Nesting(b) <= NEST_MAX
    requires at + 1 + Size(b) < |script.lines| && script.lines[at + 1 + Size(b)].Closes()
    ensures Reaches(script, At(at, stack + [f], w, t), At(at + Size(b) + 2, stack, w, t))
  {
    hide Reaches, HeadersSound, Placed, Size, Nesting;
    var g := f.(state := IfElseF);
    LineElse(script, at, stack, f, w, t);
    SkipsToClose(script, b, at + 1, stack, g, w, t);
    ReachesThen(script, At(at, stack + [f], w, t), At(at + 1, stack + [g], w, t), At(at + Size(b) + 2, stack, w, t));
  }

  // ----- loops -----

  lemma {:induction false} LineForeach<W>(script: Script<W>, at: nat, stack: seq<Frame>, w: W, t: seq<string>)
    requires script.Valid() && at < |script.lines| && script.lines[at].Foreach?
    requires !Skipping(stack) && |stack| < NEST_MAX
    requires script.host.foreach(script.lines[at].header, w).Header?
    ensures var Header(name, items) := script.host.foreach(script.lines[at].header, w);
      Reaches(script, At(at, stack, w, t),
        if items == [] then At(at + 1, stack + [ForeachSkip(script.endOf[at])], w, t)
        else At(at + 1, stack + [ForeachFrame(at + 1, script.endOf[at], name, items, 0)],
                script.host.assign(name, items[0], w), t))
  {
    hide Reaches;
    ReachesNext(script, At(at, stack, w, t));
  }

  lemma {:induction false} LineEndForeach<W>(
      script: Script<W>, at: nat, stack: seq<Frame>, f: Frame, w: W, t: seq<string>)
    requires script.Valid() && at < |script.lines| && script.lines[at].End? && f.ForeachFrame?
    ensures Reaches(script, At(at, stack + [f], w, t),
      if f.cur + 1 < |f.items| then
        At(f.bodyLine, stack + [f.(cur := f.cur + 1)], script.host.assign(f.name, f.items[f.cur + 1], w), t)
      else At(at + 1, stack, w, t))
  {
    hide Reaches;
    assert Pop(stack + [f]) == stack;
    ReachesNext(script, At(at, stack + [f], w, t));
  }

  lemma {:induction false} LineWhile<W>(script: Script<W>, at: nat, stack: seq<Frame>, w: W, t: seq<string>)
    requires script.Valid() && at < |script.lines| && script.lines[at].While?
    requires !Skipping(stack) && |stack| < NEST_MAX
    ensures var c := script.lines[at].cond;
      Reaches(script, At(at, stack, w, t),
        At(at + 1,
           stack + [if script.host.test(c, w) then WhileFrame(at + 1, script.endOf[at], c)
                    else WhileSkip(script.endOf[at])],
           w, t))
  {
    hide Reaches;
    ReachesNext(script, At(at, stack, w, t));
  }

  lemma {:induction false} LineEndWhile<W>(
      script: Script<W>, at: nat, stack: seq<Frame>, f: Frame, w: W, t: seq<string>)
    requires script.Valid() && at < |script.lines| && script.lines[at].End? && f.WhileFrame?
    ensures Reaches(script, At(at, stack + [f], w, t),
      if script.host.test(f.cond, w) then At(f.bodyLine, stack + [f], w, t) else At(at + 1, stack, w, t))
  {
    hide Reaches;
    assert Pop(stack + [f]) == stack;
    ReachesNext(script, At(at, stack + [f], w, t));
  }

  /** One run of a loop body: it comes back to the end line, or leaves the loop. */
  lemma {:induction false} SimulatesRound<W(!new)>(
      script: Script<W>, a: Program, at: nat, fuel: nat, stack: seq<Frame>, f: Frame, w: W, t: seq<string>)
    requires f.Loops() && f.endLine == at + Size(a) && Runnable(script, a, at, stack + [f])
    requires Meaning(script.host, fuel, a, w, t).Done?
    requires script.Valid() && HeadersSound(script, At(at, stack + [f], w, t))
    ensures var r := Meaning(script.host, fuel, a, w, t);
      Reaches(script, At(at, stack + [f], w, t),
        match r.outcome
        case Left(arg) => Gone(r.world, r.trace, arg)
        case Broke => At(f.endLine + 1, stack, r.world, r.trace)
        case _ => At(f.endLine, stack + [f], r.world, r.trace))
    decreases fuel, a, 2, 0
  {
    hide Reaches, HeadersSound, Meaning, Runnable, Size, Landing;
    Simulates(script, a, at, fuel, stack + [f], w, t);
    LoopFrameLanding(Meaning(script.host, fuel, a, w, t), at + Size(a), stack, f);
  }

  lemma {:induction false} SimulatesForEach<W(!new)>(
      script: Script<W>, p: Program, a: Program, at: nat, fuel: nat, stack: seq<Frame>, w: W, t: seq<string>)
    requires p.ForEach? && p.body == a && Runnable(script, p, at, stack)
    requires Meaning(script.host, fuel, p, w, t).Done?
    requires script.Valid() && HeadersSound(script, At(at, stack, w, t))
    ensures Reaches(script, At(at, stack, w, t), Landing(Meaning(script.host, fuel, p, w, t), at + Size(p), stack))
    decreases fuel, p, 0, 0
  {
    hide Reaches, HeadersSound, Placed, Size, Skipping, Nesting, Scoped, HasLoop;
    PlacedBlock(script, p, a, at);
    SoundHere(script, At(at, stack, w, t));
    LineForeach(script, at, stack, w, t);
    var Header(name, items) := script.host.foreach(p.header, w);
    var r := Meaning(script.host, fuel, p, w, t);
    if items == [] {
      var f := ForeachSkip(script.endOf[at]);
      SkipsToClose(script, a, at + 1, stack, f, w, t);
      ReachesThen(script, At(at, stack, w, t), At(at + 1, stack + [f], w, t), Landing(r, at + Size(p), stack));
    } else {
      var f := ForeachFrame(at + 1, script.endOf[at], name, items, 0);
      assert items[0..] == items;
      SoundAfter(script, At(at, stack, w, t), At(at + 1, stack + [f], script.host.assign(name, items[0], w), t));
      SimulatesItems(script, p, a, at, fuel, stack, f, w, t);
      ReachesThen(script, At(at, stack, w, t), At(at + 1, stack + [f], script.host.assign(name, items[0], w), t),
        Landing(r, at + Size(p), stack));
    }
  }

  /** The rest of a `foreach`, from the body line with the current item already assigned. */
  lemma {:induction false} SimulatesItems<W(!new)>(
      script: Script<W>, p: Program, a: Program, at: nat, fuel: nat, stack: seq<Frame>, f: Frame, w: W, t: seq<string>)
    requires p.ForEach? && p.body == a && Runnable(script, p, at, stack)
    requires f.ForeachFrame? && f.bodyLine == at + 1 && f.endLine == script.endOf[at] && f.cur < |f.items|
    requires MeaningForEach(script.host, fuel, a, f.name, f.items[f.cur..], w, t).Done?
    requires script.Valid()
      && HeadersSound(script, At(at + 1, stack + [f], script.host.assign(f.name, f.items[f.cur], w), t))
    ensures Reaches(script, At(at + 1, stack + [f], script.host.assign(f.name, f.items[f.cur], w), t),
                    Landing(MeaningForEach(script.host, fuel, a, f.name, f.items[f.cur..], w, t), at + Size(p), stack))
    decreases fuel, a, 3, |f.items| - f.cur
  {
    hide Reaches, HeadersSound, Runnable, Size, Nesting, Meaning, Placed;
    PlacedFor(script, p, a, at, stack);
    RunnableBody(script, p, a, at, stack, f);
    var w1 := script.host.assign(f.name, f.items[f.cur], w);
    var start := At(at + 1, stack + [f], w1, t);
    var r := Meaning(script.host, fuel, a, w1, t);
    SimulatesRound(script, a, at + 1, fuel, stack, f, w1, t);
    if r.outcome.Normal? || r.outcome.Continued? {
      LineEndForeach(script, f.endLine, stack, f, r.world, r.trace);
      var last := Landing(MeaningForEach(script.host, fuel, a, f.name, f.items[f.cur..], w, t), at + Size(p), stack);
      var atEnd := At(f.endLine, stack + [f], r.world, r.trace);
      assert f.items[f.cur..][1..] == f.items[f.cur + 1..];
      if f.cur + 1 < |f.items| {
        var g := f.(cur := f.cur + 1);
        var again := At(f.bodyLine, stack + [g], script.host.assign(f.name, g.items[g.cur], r.world), r.trace);
        SoundAfter(script, start, atEnd);
        SoundAfter(script, atEnd, again);
        SimulatesItems(script, p, a, at, fuel, stack, g, r.world, r.trace);
        ReachesThen(script, atEnd, again, last);
      }
      ReachesThen(script, start, atEnd, last);
    }
  }

  lemma {:induction false} PlacedFor<W(!new)>(script: Script<W>, p: Program, a: Program, at: nat, stack: seq<Frame>)
    requires IsBlockOf(p, a) && Runnable(script, p, at, stack)
    ensures script.Valid() && at + Size(a) + 1 < |script.lines|
    ensures script.lines[at]
      == (if p.When? then If(p.cond) else if p.ForEach? then Foreach(p.header) else While(p.cond))
    ensures script.lines[at + Size(a) + 1] == (if p.When? then Endif else End)
    ensures script.endOf[at] == at + Size(a) + 1
    ensures Size(p) == Size(a) + 2
  {
    hide Placed;
    PlacedBlock(script, p, a, at);
  }

  lemma {:induction false} SimulatesRepeat<W(!new)>(
      script: Script<W>, p: Program, a: Program, at: nat, fuel: nat, stack: seq<Frame>, w: W, t: seq<string>)
    requires p.Repeat? && p.body == a && Runnable(script, p, at, stack)
    requires Meaning(script.host, fuel, p, w, t).Done?
    requires script.Valid() && HeadersSound(script, At(at, stack, w, t))
    ensures Reaches(script, At(at, stack, w, t), Landing(Meaning(script.host, fuel, p, w, t), at + Size(p), stack))
    decreases fuel, p, 0, 1
  {
    hide Reaches, HeadersSound, Placed, Size, Skipping, Nesting, Scoped, HasLoop;
    PlacedBlock(script, p, a, at);
    LineWhile(script, at, stack, w, t);
    var r := Meaning(script.host, fuel, p, w, t);
    if script.host.test(p.cond, w) {
      var f := WhileFrame(at + 1, script.endOf[at], p.cond);
      SoundAfter(script, At(at, stack, w, t), At(at + 1, stack + [f], w, t));
      SimulatesRounds(script, p, a, at, fuel, stack, f, w, t);
      ReachesThen(script, At(at, stack, w, t), At(at + 1, stack + [f], w, t), Landing(r, at + Size(p), stack));
    } else {
      var f := WhileSkip(script.endOf[at]);
      SkipsToClose(script, a, at + 1, stack, f, w, t);
      ReachesThen(script, At(at, stack, w, t), At(at + 1, stack + [f], w, t), Landing(r, at + Size(p), stack));
    }
  }

  /** The rest of a `while`, from the body line after its condition held. */
  lemma {:induction false} SimulatesRounds<W(!new)>(
      script: Script<W>, p: Program, a: Program, at: nat, fuel: nat, stack: seq<Frame>, f: Frame, w: W, t: seq<string>)
    requires p.Repeat? && p.body == a && Runnable(script, p, at, stack)
    requires f == WhileFrame(at + 1, script.endOf[at], p.cond)
    requires script.host.test(p.cond, w) && Meaning(script.host, fuel, p, w, t).Done?
    requires script.Valid() && HeadersSound(script, At(at + 1, stack + [f], w, t))
    ensures Reaches(script, At(at + 1, stack + [f], w, t),
      Landing(Meaning(script.host, fuel, p, w, t), at + Size(p), stack))
    decreases fuel, p, 0, 0
  {
    hide Reaches, HeadersSound, Runnable, Size, Nesting, Placed;
    PlacedFor(script, p, a, at, stack);
    RunnableBody(script, p, a, at, stack, f);
    var r := Meaning(script.host, fuel, a, w, t);
    SimulatesRound(script, a, at + 1, fuel, stack, f, w, t);
    if r.outcome.Normal? || r.outcome.Continued? {
      LineEndWhile(script, f.endLine, stack, f, r.world, r.trace);
      var last := Landing(Meaning(script.host, fuel, p, w, t), at + Size(p), stack);
      var atEnd := At(f.endLine, stack + [f], r.world, r.trace);
      if script.host.test(p.cond, r.world) {
        SoundAfter(script, At(at + 1, stack + [f], w, t), atEnd);
        SoundAfter(script, atEnd, At(at + 1, stack + [f], r.world, r.trace));
        SimulatesRounds(script, p, a, at, fuel - 1, stack, f, r.world, r.trace);
        ReachesThen(script, atEnd, At(at + 1, stack + [f], r.world, r.trace), last);
      }
      ReachesThen(script, At(at + 1, stack + [f], w, t), atEnd, last);
    }
  }
}
