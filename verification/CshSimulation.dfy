/**
 The text of a structured program inside a script, and what the parser makes of it: the ground
 on which `CshForward` and `CshTheorem` compare the line machine with the program tree.
 */
module CshSimulation {
  import opened CshLines
  import opened CshMachine
  import opened CshProgram

  // ----- a program's text inside a script -----

  /** The lines of `p` stand in the script from line `at` on, and its blocks are paired. */
  ghost predicate Placed<W>(script: Script<W>, p: Program, at: nat)
    requires script.Valid()
  {
    && at + Size(p) <= |script.lines|
    && match p
       case Nothing => true
       case Empty => script.lines[at] == Blank
       case Do(text) => script.lines[at] == Command(text)
       case Then(a, b) => Placed(script, a, at) && Placed(script, b, at + Size(a))
       case When(c, a) => Wrapped(script, at, If(c), a, Endif) && Placed(script, a, at + 1)
       case Choose(c, a, b) =>
         && script.lines[at] == If(c)
         && script.lines[at + Size(a) + 1] == Else
         && script.lines[at + Size(a) + Size(b) + 2] == Endif
         && script.endOf[at] == at + Size(a) + Size(b) + 2
         && Placed(script, a, at + 1)
         && Placed(script, b, at + Size(a) + 2)
       case ForEach(h, a) => Wrapped(script, at, Foreach(h), a, End) && Placed(script, a, at + 1)
       case Repeat(c, a) => Wrapped(script, at, While(c), a, End) && Placed(script, a, at + 1)
       case BreakOut => script.lines[at] == Break
       case GoOn => script.lines[at] == Continue
       case Quit(arg) => script.lines[at] == Exit(arg)
  }

  /** The body of a one-branch block. */
  ghost predicate IsBlockOf(p: Program, a: Program) {
    (p.When? && p.thn == a) || (p.ForEach? && p.body == a) || (p.Repeat? && p.body == a)
  }

  lemma {:induction false} PlacedParts<W>(script: Script<W>, p: Program, a: Program, b: Program, at: nat)
    requires p == Then(a, b) && script.Valid() && Placed(script, p, at)
    ensures Placed(script, a, at) && Placed(script, b, at + Size(a))
    ensures Size(p) == Size(a) + Size(b)
    ensures Nesting(p) >= Nesting(a) && Nesting(p) >= Nesting(b)
  {
  }

  lemma {:induction false} PlacedBlock<W>(script: Script<W>, p: Program, a: Program, at: nat)
    requires IsBlockOf(p, a) && script.Valid() && Placed(script, p, at)
    ensures at + Size(a) + 1 < |script.lines|
    ensures script.lines[at]
      == (if p.When? then If(p.cond) else if p.ForEach? then Foreach(p.header) else While(p.cond))
    ensures script.lines[at + Size(a) + 1] == (if p.When? then Endif else End)
    ensures script.endOf[at] == at + Size(a) + 1
    ensures Placed(script, a, at + 1)
    ensures Size(p) == Size(a) + 2 && Nesting(p) == Nesting(a) + 1
  {
  }

  lemma {:induction false} PlacedBranches<W>(script: Script<W>, p: Program, a: Program, b: Program, at: nat)
    requires p.Choose? && p.thn == a && p.els == b && script.Valid() && Placed(script, p, at)
    ensures at + Size(a) + Size(b) + 2 < |script.lines|
    ensures script.lines[at] == If(p.cond)
    ensures script.lines[at + Size(a) + 1] == Else
    ensures script.lines[at + Size(a) + Size(b) + 2] == Endif
    ensures script.endOf[at] == at + Size(a) + Size(b) + 2
    ensures Placed(script, a, at + 1) && Placed(script, b, at + Size(a) + 2)
    ensures Size(p) == Size(a) + Size(b) + 3
    ensures Nesting(p) > Nesting(a) && Nesting(p) > Nesting(b)
  {
  }

  /** A block whose body has the size of `a`. */
  ghost predicate Wrapped<W>(script: Script<W>, at: nat, opener: Line, a: Program, closer: Line)
    requires script.Valid() && at + Size(a) + 2 <= |script.lines|
  {
    && script.lines[at] == opener
    && script.lines[at + Size(a) + 1] == closer
    && script.endOf[at] == at + Size(a) + 1
  }

  /** Depth inside a slice is depth in the whole list, up to the depth at the slice. */
  lemma {:induction false} DepthSlice(lines: seq<Line>, at: nat, n: nat, k: nat)
    requires at + n <= |lines| && k <= n
    ensures Depth(lines, at + k) == Depth(lines, at) + Depth(lines[at..at + n], k)
  {
    if k > 0 {
      DepthSlice(lines, at, n, k - 1);
    }
  }

  /** A pair found in a slice is a pair of the whole list, so it is the recorded one. */
  lemma {:induction false} SliceCloses(lines: seq<Line>, endOf: seq<int>, at: nat, n: nat, c: nat)
    requires Matching(lines, endOf) && at + n <= |lines|
    requires Closing(lines[at..at + n], 0, c)
    ensures endOf[at] == at + c
  {
    var sub := lines[at..at + n];
    DepthSlice(lines, at, n, 0);
    DepthSlice(lines, at, n, c + 1);
    forall k | at < k <= at + c
      ensures Depth(lines, k) > Depth(lines, at)
    {
      DepthSlice(lines, at, n, k - at);
    }
    assert Closing(lines, at, at + c);
    ClosingUnique(lines, at, at + c, endOf[at]);
  }

  ghost predicate Written(lines: seq<Line>, at: nat, l: seq<Line>) {
    at + |l| <= |lines| && forall i :: 0 <= i < |l| ==> lines[at + i] == l[i]
  }

  lemma {:induction false} WrittenPart(lines: seq<Line>, at: nat, l: seq<Line>, k: nat, part: seq<Line>)
    requires Written(lines, at, l)
    requires k + |part| <= |l| && forall i :: 0 <= i < |part| ==> l[k + i] == part[i]
    ensures Written(lines, at + k, part)
  {
    forall i | 0 <= i < |part|
      ensures lines[at + k + i] == part[i]
    {
      assert lines[at + (k + i)] == l[k + i];
    }
  }

  lemma {:induction false} WrittenCloses(lines: seq<Line>, endOf: seq<int>, at: nat, l: seq<Line>, c: nat)
    requires Matching(lines, endOf) && Written(lines, at, l) && Closing(l, 0, c)
    ensures endOf[at] == at + c
  {
    assert lines[at..at + |l|] == l;
    SliceCloses(lines, endOf, at, |l|, c);
  }

  ghost predicate WrapText(l: seq<Line>, opener: Line, x: seq<Line>, closer: Line) {
    && |l| == |x| + 2
    && l[0] == opener && l[|x| + 1] == closer
    && (forall i :: 0 <= i < |x| ==> l[1 + i] == x[i])
  }

  lemma {:induction false} WrapPieces(l: seq<Line>, opener: Line, a: Program, closer: Line)
    requires l == [opener] + Flatten(a) + [closer] && opener.Opens() && closer.Closes()
    ensures WrapText(l, opener, Flatten(a), closer)
    ensures Closing(l, 0, |Flatten(a)| + 1)
  {
    hide Flatten, Closing, Balanced, WrapText, Wrappable;
    FlattenBalanced(a);
    BalancedIsWrappable(Flatten(a));
    BalancedWrap(opener, Flatten(a), closer);
    WrapLayout(l, opener, Flatten(a), closer);
  }

  lemma {:induction false} BalancedIsWrappable(l: seq<Line>)
    requires Balanced(l)
    ensures Wrappable(l)
  {
  }

  lemma {:induction false} WrapLayout(l: seq<Line>, opener: Line, x: seq<Line>, closer: Line)
    requires l == [opener] + x + [closer]
    ensures WrapText(l, opener, x, closer)
  {
  }

  lemma {:induction false} WrittenWrapped<W>(
      script: Script<W>, at: nat, l: seq<Line>, opener: Line, a: Program, closer: Line)
    requires Matching(script.lines, script.endOf) && opener.Opens() && closer.Closes()
    requires l == [opener] + Flatten(a) + [closer] && Written(script.lines, at, l)
    ensures at + Size(a) + 2 <= |script.lines| && Wrapped(script, at, opener, a, closer)
    ensures Written(script.lines, at + 1, Flatten(a))
  {
    hide Flatten, Closing, Matching, Written, WrapText, Size;
    FlattenSize(a);
    WrapPieces(l, opener, a, closer);
    WrittenAround(script.lines, at, l, opener, Flatten(a), closer);
    WrittenCloses(script.lines, script.endOf, at, l, Size(a) + 1);
  }

  lemma {:induction false} WrittenAround(
      lines: seq<Line>, at: nat, l: seq<Line>, opener: Line, x: seq<Line>, closer: Line)
    requires Written(lines, at, l) && WrapText(l, opener, x, closer)
    ensures at + |x| + 1 < |lines|
    ensures lines[at] == opener && lines[at + |x| + 1] == closer
    ensures Written(lines, at + 1, x)
  {
    assert lines[at + 0] == l[0];
    assert lines[at + (|x| + 1)] == l[|x| + 1];
    WrittenPart(lines, at, l, 1, x);
  }

  /** The lines of a two-branch `if`, one by one. */
  ghost predicate ChooseText(l: seq<Line>, c: string, x: seq<Line>, y: seq<Line>) {
    && |l| == |x| + |y| + 3
    && l[0] == If(c) && l[|x| + 1] == Else && l[|x| + |y| + 2] == Endif
    && (forall i :: 0 <= i < |x| ==> l[1 + i] == x[i])
    && (forall i :: 0 <= i < |y| ==> l[|x| + 2 + i] == y[i])
  }

  lemma {:induction false} ChoosePieces(p: Program, c: string, a: Program, b: Program)
    requires p == Choose(c, a, b)
    ensures ChooseText(Flatten(p), c, Flatten(a), Flatten(b))
    ensures Closing(Flatten(p), 0, |Flatten(a)| + |Flatten(b)| + 2)
  {
    hide Closing, Balanced, ChooseText, Depth;
    FlattenBalanced(a);
    FlattenBalanced(b);
    ElseBalanced(If(c), Flatten(a), Flatten(b), Endif);
    ChooseLayout(Flatten(p), c, Flatten(a), Flatten(b));
  }

  lemma {:induction false} ChooseLayout(l: seq<Line>, c: string, x: seq<Line>, y: seq<Line>)
    requires l == [If(c)] + x + [Else] + y + [Endif]
    ensures ChooseText(l, c, x, y)
  {
    var front := [If(c)] + x + [Else];
    assert l == front + (y + [Endif]);
    assert forall i :: 0 <= i < |x| ==> front[1 + i] == x[i];
  }

  lemma {:induction false} WrittenChoose(lines: seq<Line>, at: nat, l: seq<Line>, c: string, x: seq<Line>, y: seq<Line>)
    requires Written(lines, at, l) && ChooseText(l, c, x, y)
    ensures at + |x| + |y| + 2 < |lines|
    ensures lines[at] == If(c) && lines[at + |x| + 1] == Else && lines[at + |x| + |y| + 2] == Endif
    ensures Written(lines, at + 1, x) && Written(lines, at + |x| + 2, y)
  {
    assert lines[at + 0] == l[0];
    assert lines[at + (|x| + 1)] == l[|x| + 1];
    assert lines[at + (|x| + |y| + 2)] == l[|x| + |y| + 2];
    WrittenPart(lines, at, l, 1, x);
    WrittenPart(lines, at, l, |x| + 2, y);
  }

  lemma {:induction false} PlacedWhereWritten<W>(script: Script<W>, p: Program, at: nat)
    requires Matching(script.lines, script.endOf)
    requires Written(script.lines, at, Flatten(p))
    ensures Placed(script, p, at)
    decreases p, 1
  {
    hide Matching, Closing, ChooseText;
    FlattenSize(p);
    match p
    case Nothing =>
    case Then(a, b) =>
      PlacedThen(script, p, a, b, at);
    case When(c, a) =>
      WrittenWrapped(script, at, Flatten(p), If(c), a, Endif);
      PlacedWhereWritten(script, a, at + 1);
    case Choose(c, a, b) =>
      PlacedChoose(script, p, c, a, b, at);
    case ForEach(h, a) =>
      WrittenWrapped(script, at, Flatten(p), Foreach(h), a, End);
      PlacedWhereWritten(script, a, at + 1);
    case Repeat(c, a) =>
      WrittenWrapped(script, at, Flatten(p), While(c), a, End);
      PlacedWhereWritten(script, a, at + 1);
    case _ =>
      assert script.lines[at + 0] == Flatten(p)[0];
  }

  lemma {:induction false} PlacedThen<W>(script: Script<W>, p: Program, a: Program, b: Program, at: nat)
    requires p == Then(a, b) && Matching(script.lines, script.endOf)
    requires Written(script.lines, at, Flatten(p))
    ensures Placed(script, p, at)
    decreases p, 0
  {
    hide Matching, Written, Flatten;
    WrittenThen(script.lines, p, a, b, at);
    PlacedWhereWritten(script, a, at);
    PlacedWhereWritten(script, b, at + Size(a));
  }

  lemma {:induction false} FlattenedChoose<W>(script: Script<W>, p: Program, c: string, a: Program, b: Program, at: nat)
    requires p == Choose(c, a, b) && Matching(script.lines, script.endOf)
    requires Written(script.lines, at, Flatten(p))
    ensures at + Size(a) + Size(b) + 2 < |script.lines|
    ensures script.lines[at] == If(c)
    ensures script.lines[at + Size(a) + 1] == Else
    ensures script.lines[at + Size(a) + Size(b) + 2] == Endif
    ensures script.endOf[at] == at + Size(a) + Size(b) + 2
    ensures Written(script.lines, at + 1, Flatten(a)) && Written(script.lines, at + Size(a) + 2, Flatten(b))
  {
    hide *;
    FlattenSize(a);
    FlattenSize(b);
    ChoosePieces(p, c, a, b);
    WrittenChoose(script.lines, at, Flatten(p), c, Flatten(a), Flatten(b));
    WrittenCloses(script.lines, script.endOf, at, Flatten(p), Size(a) + Size(b) + 2);
  }

  lemma {:induction false} WrittenThen(lines: seq<Line>, p: Program, a: Program, b: Program, at: nat)
    requires p == Then(a, b) && Written(lines, at, Flatten(p))
    ensures at + Size(p) <= |lines|
    ensures Written(lines, at, Flatten(a)) && Written(lines, at + Size(a), Flatten(b))
  {
    FlattenSize(a);
    FlattenSize(b);
    WrittenJoin(lines, at, Flatten(a), Flatten(b));
  }

  lemma {:induction false} WrittenJoin(lines: seq<Line>, at: nat, x: seq<Line>, y: seq<Line>)
    requires Written(lines, at, x + y)
    ensures Written(lines, at, x) && Written(lines, at + |x|, y)
  {
    WrittenPart(lines, at, x + y, 0, x);
    WrittenPart(lines, at, x + y, |x|, y);
  }

  lemma {:induction false} PlacedChoose<W>(script: Script<W>, p: Program, c: string, a: Program, b: Program, at: nat)
    requires p == Choose(c, a, b) && Matching(script.lines, script.endOf)
    requires Written(script.lines, at, Flatten(p))
    ensures Placed(script, p, at)
    decreases p, 0
  {
    hide Matching, Written, Flatten;
    FlattenedChoose(script, p, c, a, b, at);
    PlacedWhereWritten(script, a, at + 1);
    PlacedWhereWritten(script, b, at + Size(a) + 2);
  }

  // ----- from tree to machine -----

  /** Where the machine stands when a block that began under `stack` is over. */
  ghost function Landing<W>(r: Result<W>, after: int, stack: seq<Frame>): Machine<W>
    requires r.Done?
  {
    match r.outcome
    case Normal => Machine(after, stack, r.world, r.trace, Running)
    case Broke => BreakFrom(Machine(0, stack, r.world, r.trace, Running), stack)
    case Continued => ContinueFrom(Machine(0, stack, r.world, r.trace, Running), stack)
    case Left(arg) => Gone(r.world, r.trace, arg)
  }

  ghost predicate HasLoop(stack: seq<Frame>) {
    exists i :: 0 <= i < |stack| && stack[i].Loops()
  }

  /** Inside a loop, where `break` and `continue` resume does not depend on where they stand. */
  lemma {:induction false} JumpsIgnorePosition<W>(m: Machine<W>, n: Machine<W>, stack: seq<Frame>)
    requires m.world == n.world && m.trace == n.trace && m.status == n.status
    requires HasLoop(stack) && !Skipping(stack)
    ensures BreakFrom(m, stack) == BreakFrom(n, stack)
    ensures ContinueFrom(m, stack) == ContinueFrom(n, stack)
  {
    if !Top(stack).Loops() {
      assert HasLoop(Pop(stack)) by {
        var i :| 0 <= i < |stack| && stack[i].Loops();
        assert Pop(stack)[i].Loops();
      }
      assert !Top(stack).Skips();
      SkippingParts(stack);
      JumpsIgnorePosition(m, n, Pop(stack));
    }
  }

  lemma {:induction false} SkippingParts(stack: seq<Frame>)
    ensures stack != [] ==> (Skipping(stack) <==> Skipping(Pop(stack)) || Top(stack).Skips())
  {
    if stack != [] {
      assert forall i :: 0 <= i < |Pop(stack)| ==> Pop(stack)[i] == stack[i];
      if Skipping(stack) {
        var i :| 0 <= i < |stack| && stack[i].Skips();
        assert i < |Pop(stack)| ==> Pop(stack)[i].Skips();
      }
    }
  }

  lemma {:induction false} PushParts(stack: seq<Frame>, f: Frame)
    ensures Pop(stack + [f]) == stack && Top(stack + [f]) == f
    ensures Skipping(stack + [f]) <==> Skipping(stack) || f.Skips()
    ensures HasLoop(stack + [f]) <==> HasLoop(stack) || f.Loops()
  {
    var s := stack + [f];
    assert Pop(s) == stack;
    SkippingParts(s);
    if HasLoop(stack) {
      var i :| 0 <= i < |stack| && stack[i].Loops();
      assert s[i].Loops();
    }
    if f.Loops() {
      assert s[|stack|].Loops();
    }
  }

  /** The frame an opener pushes while the machine is skipping. */
  ghost function SkipFrame(line: Line, endLine: int): Frame
    requires line.Opens()
  {
    match line
    case If(_) => IfFrame(IfSkip, endLine)
    case Foreach(_) => ForeachSkip(endLine)
    case While(_) => WhileSkip(endLine)
  }

  /** Skipping, with no running loop on top: the situation inside an untaken branch. */
  ghost predicate SkipReady(stack: seq<Frame>) {
    stack != [] && Skipping(stack) && !Top(stack).Loops()
  }

  lemma {:induction false} SkipStep<W>(script: Script<W>, m: Machine<W>)
    requires script.Valid() && script.Live(m) && SkipReady(m.stack)
    requires |m.stack| < NEST_MAX || !script.lines[m.line].Opens()
    requires script.lines[m.line].Else? ==> Top(m.stack).IfFrame? ==> Top(m.stack).state == IfSkip
    ensures var line := script.lines[m.line];
      Step(script, m) == m.(line := m.line + 1, stack :=
        if line.Opens() then m.stack + [SkipFrame(line, script.endOf[m.line])]
        else if line.Closes() then Pop(m.stack)
        else m.stack)
  {
  }

  /** A block met while skipping is walked through and changes nothing. */
  lemma {:induction false} SkipsBlock<W>(script: Script<W>, p: Program, at: nat, m: Machine<W>)
    requires script.Valid() && Placed(script, p, at)
    requires |m.stack| + Nesting(p) <= NEST_MAX && SkipReady(m.stack)
    requires m.line == at && m.status.Running?
    ensures Steps(script, Size(p), m) == m.(line := at + Size(p))
    decreases p, 1
  {
    hide Step, Steps, SkipReady, Placed;
    match p
    case Nothing => NoStep(script, m);
    case Then(a, b) => SkipsThen(script, p, a, b, at, m);
    case When(c, a) => SkipsWrapped(script, p, a, at, m);
    case Choose(c, a, b) => SkipsChoose(script, p, a, b, at, m);
    case ForEach(h, a) => SkipsWrapped(script, p, a, at, m);
    case Repeat(c, a) => SkipsWrapped(script, p, a, at, m);
    case _ => SkipsLine(script, p, m);
  }

  lemma {:induction false} SkipsThen<W>(script: Script<W>, p: Program, a: Program, b: Program, at: nat, m: Machine<W>)
    requires p == Then(a, b) && script.Valid() && Placed(script, p, at)
    requires |m.stack| + Nesting(p) <= NEST_MAX && SkipReady(m.stack)
    requires m.line == at && m.status.Running?
    ensures Steps(script, Size(p), m) == m.(line := at + Size(p))
    decreases p, 0
  {
    hide Step, Steps, SkipReady, Placed, Size, Nesting;
    PlacedParts(script, p, a, b, at);
    SkipsBlock(script, a, at, m);
    SkipsBlock(script, b, at + Size(a), m.(line := at + Size(a)));
    StepsAdd(script, Size(a), Size(b), m);
  }

  lemma {:induction false} SkipsLine<W>(script: Script<W>, p: Program, m: Machine<W>)
    requires p.Empty? || p.Do? || p.BreakOut? || p.GoOn? || p.Quit?
    requires script.Valid() && 0 <= m.line && Placed(script, p, m.line) && SkipReady(m.stack) && m.status.Running?
    ensures Steps(script, 1, m) == m.(line := m.line + 1)
  {
    hide Step;
    SkipStep(script, m);
    OneStep(script, m);
  }

  lemma {:induction false} NoStep<W>(script: Script<W>, m: Machine<W>)
    requires script.Valid()
    ensures Steps(script, 0, m) == m
  {
  }

  lemma {:induction false} OneStep<W>(script: Script<W>, m: Machine<W>)
    requires script.Valid() && script.Live(m)
    ensures Steps(script, 1, m) == Step(script, m)
  {
    hide Step;
    NoStep(script, Step(script, m));
  }

  lemma {:induction false} FirstStep<W>(script: Script<W>, n: nat, m: Machine<W>)
    requires script.Valid() && script.Live(m)
    ensures Steps(script, n + 1, m) == Steps(script, n, Step(script, m))
  {
  }

  lemma {:induction false} ThenStep<W>(script: Script<W>, n: nat, m: Machine<W>)
    requires script.Valid() && script.Live(Steps(script, n, m))
    ensures Steps(script, n + 1, m) == Step(script, Steps(script, n, m))
  {
    hide Step;
    StepsAdd(script, n, 1, m);
    OneStep(script, Steps(script, n, m));
  }

  /** An opener met while skipping pushes a skip frame of its own. */
  lemma {:induction false} SkipsOpener<W>(script: Script<W>, m: Machine<W>) returns (m1: Machine<W>)
    requires script.Valid() && script.Live(m) && SkipReady(m.stack)
    requires |m.stack| < NEST_MAX && script.lines[m.line].Opens()
    ensures m1 == Step(script, m)
    ensures m1.stack != [] && m1 == m.(line := m.line + 1, stack := m1.stack) && Pop(m1.stack) == m.stack
    ensures SkipReady(m1.stack) && |m1.stack| == |m.stack| + 1
    ensures Top(m1.stack).IfFrame? ==> Top(m1.stack).state == IfSkip
  {
    hide Step;
    SkipStep(script, m);
    m1 := Step(script, m);
    PushParts(m.stack, SkipFrame(script.lines[m.line], script.endOf[m.line]));
  }

  /** A skipped opener, its skipped body, and the closer that pops the skip frame. */
  lemma {:induction false} SkipsWrapped<W>(script: Script<W>, p: Program, a: Program, at: nat, m: Machine<W>)
    requires IsBlockOf(p, a)
    requires script.Valid() && Placed(script, p, at)
    requires |m.stack| + Nesting(p) <= NEST_MAX && SkipReady(m.stack)
    requires m.line == at && m.status.Running?
    ensures Steps(script, Size(p), m) == m.(line := at + Size(p))
    decreases p, 0
  {
    hide Step, Steps, SkipReady, Placed, Size, Nesting;
    PlacedBlock(script, p, a, at);
    var m1 := SkipsOpener(script, m);
    SkipsThenLine(script, a, at + 1, m1);
    FirstStep(script, Size(a) + 1, m);
  }

  /** A skipped `if` with two branches: the `else` leaves its skip frame alone. */
  lemma {:induction false} SkipsChoose<W>(script: Script<W>, p: Program, a: Program, b: Program, at: nat, m: Machine<W>)
    requires p.Choose? && p.thn == a && p.els == b
    requires script.Valid() && Placed(script, p, at)
    requires |m.stack| + Nesting(p) <= NEST_MAX && SkipReady(m.stack)
    requires m.line == at && m.status.Running?
    ensures Steps(script, Size(p), m) == m.(line := at + Size(p))
    decreases p, 0
  {
    hide Step, Steps, SkipReady, Placed, Size, Nesting;
    PlacedBranches(script, p, a, b, at);
    var m1 := SkipsOpener(script, m);
    SkipsThenLine(script, a, at + 1, m1);
    var m2 := m1.(line := at + Size(a) + 2);
    SkipsThenLine(script, b, at + Size(a) + 2, m2);
    StepsAdd(script, Size(a) + 1, Size(b) + 1, m1);
    FirstStep(script, Size(a) + Size(b) + 2, m);
  }

  /** A skipped block and one more line that is not an opener. */
  lemma {:induction false} SkipsThenLine<W>(script: Script<W>, a: Program, at: nat, m: Machine<W>)
    requires script.Valid() && Placed(script, a, at)
    requires |m.stack| + Nesting(a) <= NEST_MAX && SkipReady(m.stack)
    requires m.line == at && m.status.Running?
    requires at + Size(a) < |script.lines| && !script.lines[at + Size(a)].Opens()
    requires script.lines[at + Size(a)].Else? ==> Top(m.stack).IfFrame? ==> Top(m.stack).state == IfSkip
    ensures Steps(script, Size(a) + 1, m)
      == m.(line := at + Size(a) + 1, stack := if script.lines[at + Size(a)].Closes() then Pop(m.stack) else m.stack)
    decreases a, 2
  {
    hide Step, Steps, SkipReady;
    SkipsBlock(script, a, at, m);
    ThenStep(script, Size(a), m);
    SkipStep(script, m.(line := at + Size(a)));
  }
}
