/**
 The line machine of the csh interpreter: a line number, a stack of at most 32 block
 frames, and one transition per line.  Untaken branches are not jumped over: the machine
 walks through them, pushing skip frames for the blocks it meets.

 Everything the machine delegates (running a command, testing a condition, expanding a
 `foreach` header, setting a variable) is a `Host`, so every result holds for all hosts.
 */
module CshMachine {
  import opened CshLines

  const NEST_MAX: nat := 32

  datatype Header = BadHeader | Header(name: string, items: seq<string>)

  datatype Host<!W> = Host(
    expandsToNothing: (string, W) -> bool,
    run: (string, W) -> W,
    test: (string, W) -> bool,
    foreach: (string, W) -> Header,
    complain: W -> W,
    assign: (string, string, W) -> W)

  datatype IfState = IfTrue | IfFalse | IfElseT | IfElseF | IfSkip

  datatype Frame =
    | IfFrame(state: IfState, endLine: int)
    | ForeachFrame(bodyLine: nat, endLine: int, name: string, items: seq<string>, cur: nat)
    | ForeachSkip(endLine: int)
    | WhileFrame(bodyLine: nat, endLine: int, cond: string)
    | WhileSkip(endLine: int)
  {
    predicate Skips() {
      match this
      case IfFrame(s, _) => s == IfFalse || s == IfElseF || s == IfSkip
      case ForeachSkip(_) => true
      case WhileSkip(_) => true
      case _ => false
    }

    predicate Loops() {
      ForeachFrame? || WhileFrame?
    }
  }

  datatype Status = Running | Exited(arg: string)

  datatype Machine<W> = Machine(line: int, stack: seq<Frame>, world: W, trace: seq<string>, status: Status)

  /** Some frame on the stack is skipping. */
  predicate Skipping(stack: seq<Frame>) {
    exists i :: 0 <= i < |stack| && stack[i].Skips()
  }

  function Push(stack: seq<Frame>, f: Frame): seq<Frame> {
    if |stack| < NEST_MAX then stack + [f] else stack
  }

  function Top(stack: seq<Frame>): Frame
    requires stack != []
  {
    stack[|stack| - 1]
  }

  function Pop(stack: seq<Frame>): seq<Frame>
    requires stack != []
  {
    stack[..|stack| - 1]
  }

  /** A script that has been parsed: its lines and the closer of each opener. */
  datatype Script<!W> = Script(host: Host<W>, lines: seq<Line>, endOf: seq<int>) {
    ghost predicate Valid() {
      |endOf| == |lines|
    }

    predicate Live(m: Machine<W>) {
      0 <= m.line < |lines| && m.status.Running?
    }
  }

  function Advance<W>(m: Machine<W>): Machine<W> {
    m.(line := m.line + 1)
  }

  function EnterForeach<W>(host: Host<W>, endLine: int, header: string, m: Machine<W>): Machine<W>
    requires 0 <= m.line
  {
    match host.foreach(header, m.world)
    case BadHeader =>
      Advance(m.(world := host.complain(m.world)))
    case Header(name, items) =>
      if items == [] then
        Advance(m.(stack := Push(m.stack, ForeachSkip(endLine))))
      else if |m.stack| < NEST_MAX then
        Advance(m.(stack := m.stack + [ForeachFrame(m.line + 1, endLine, name, items, 0)],
                   world := host.assign(name, items[0], m.world)))
      else
        Advance(m)
  }

  function EndOfBlock<W>(host: Host<W>, m: Machine<W>): Machine<W> {
    if m.stack == [] then Advance(m)
    else
      match Top(m.stack)
      case ForeachFrame(body, end, name, items, cur) =>
        if cur + 1 < |items| then
          m.(line := body,
             stack := Pop(m.stack) + [ForeachFrame(body, end, name, items, cur + 1)],
             world := host.assign(name, items[cur + 1], m.world))
        else
          Advance(m.(stack := Pop(m.stack)))
      case WhileFrame(body, end, cond) =>
        if host.test(cond, m.world) then m.(line := body) else Advance(m.(stack := Pop(m.stack)))
      case _ => Advance(m.(stack := Pop(m.stack)))
  }

  /** Where `break` resumes: it pops `if` frames until a running loop, pops that too and
      goes past its end; without one it goes to the next line. */
  function BreakFrom<W>(m: Machine<W>, stack: seq<Frame>): Machine<W> {
    if stack == [] then Advance(m.(stack := []))
    else if Top(stack).Loops() then m.(line := Top(stack).endLine + 1, stack := Pop(stack))
    else if Top(stack).IfFrame? then BreakFrom(m, Pop(stack))
    else Advance(m.(stack := stack))
  }

  /** Where `continue` resumes: at the end line of the innermost running loop. */
  function ContinueFrom<W>(m: Machine<W>, stack: seq<Frame>): Machine<W> {
    if stack == [] then Advance(m)
    else if Top(stack).Loops() then m.(line := Top(stack).endLine, stack := stack)
    else ContinueFrom(m, Pop(stack))
  }

  /** `exit` ends the process, so nothing is left of its position. */
  function Gone<W>(world: W, trace: seq<string>, arg: string): Machine<W> {
    Machine(0, [], world, trace, Exited(arg))
  }

  /** One iteration of the interpreter's loop. */
  function Step<W>(script: Script<W>, m: Machine<W>): Machine<W>
    requires script.Valid() && script.Live(m)
  {
    var Script(host, lines, endOf) := script;
    var skip := Skipping(m.stack);
    match lines[m.line]
    case Blank => Advance(m)
    case If(cond) =>
      var state := if skip then IfSkip else if host.test(cond, m.world) then IfTrue else IfFalse;
      Advance(m.(stack := Push(m.stack, IfFrame(state, endOf[m.line]))))
    case Else =>
      if m.stack != [] && Top(m.stack).IfFrame? && Top(m.stack).state == IfTrue then
        Advance(m.(stack := Pop(m.stack) + [Top(m.stack).(state := IfElseF)]))
      else if m.stack != [] && Top(m.stack).IfFrame? && Top(m.stack).state == IfFalse then
        Advance(m.(stack := Pop(m.stack) + [Top(m.stack).(state := IfElseT)]))
      else
        Advance(m)
    case Endif =>
      Advance(if m.stack == [] then m else m.(stack := Pop(m.stack)))
    case Foreach(header) =>
      if skip then Advance(m.(stack := Push(m.stack, ForeachSkip(endOf[m.line]))))
      else EnterForeach(host, endOf[m.line], header, m)
    case While(cond) =>
      var frame :=
        if !skip && host.test(cond, m.world) then WhileFrame(m.line + 1, endOf[m.line], cond)
        else WhileSkip(endOf[m.line]);
      Advance(m.(stack := Push(m.stack, frame)))
    case End => EndOfBlock(host, m)
    case Break => if skip then Advance(m) else BreakFrom(m, m.stack)
    case Continue => if skip then Advance(m) else ContinueFrom(m, m.stack)
    case Exit(arg) => if skip then Advance(m) else Gone(m.world, m.trace, arg)
    case Command(text) =>
      if skip || host.expandsToNothing(text, m.world) then Advance(m)
      else Advance(m.(world := host.run(text, m.world), trace := m.trace + [text]))
  }

  /** n iterations, fewer if the machine halts. */
  ghost function Steps<W>(script: Script<W>, n: nat, m: Machine<W>): Machine<W>
    requires script.Valid()
  {
    if n == 0 || !script.Live(m) then m else Steps(script, n - 1, Step(script, m))
  }

  lemma {:induction false} StepsAdd<W>(script: Script<W>, a: nat, b: nat, m: Machine<W>)
    requires script.Valid()
    ensures Steps(script, a + b, m) == Steps(script, b, Steps(script, a, m))
  {
    if a > 0 && script.Live(m) {
      StepsAdd(script, a - 1, b, Step(script, m));
    }
  }

  function Start<W>(world: W): Machine<W> {
    Machine(0, [], world, [], Running)
  }

  /** The interpreter's global state and its main loop, updated in place. */
  class Interpreter<W> {
    const host: Host<W>
    const lines: seq<Line>
    var endOf: seq<int>
    var line: int
    var stack: seq<Frame>
    var world: W
    var trace: seq<string>
    var status: Status

    constructor (host: Host<W>, lines: seq<Line>, world: W)
      ensures this.host == host && this.lines == lines
      ensures State() == Start(world) && endOf == []
    {
      this.host, this.lines, this.endOf := host, lines, [];
      this.line, this.stack, this.world, this.trace, this.status := 0, [], world, [], Running;
    }

    ghost function State(): Machine<W>
      reads this
    {
      Machine(line, stack, world, trace, status)
    }

    ghost function Parsed(): Script<W>
      reads this
    {
      Script(host, lines, endOf)
    }

    /** Scan the stack for a skipping frame. */
    method IsSkipping() returns (skip: bool)
      ensures skip == Skipping(stack)
    {
      for i := 0 to |stack|
        invariant forall j :: 0 <= j < i ==> !stack[j].Skips()
      {
        if stack[i].Skips() {
          return true;
        }
      }
      return false;
    }

    /** The `break` line: pop frames until a loop is popped. */
    method DoBreak()
      modifies `line, `stack
      ensures State() == BreakFrom(old(State()), old(stack))
    {
      while stack != []
        invariant line == old(line) && world == old(world) && trace == old(trace) && status == old(status)
        invariant BreakFrom(old(State()), stack) == BreakFrom(old(State()), old(stack))
        decreases |stack|
      {
        var top := stack[|stack| - 1];
        if top.Loops() {
          stack := stack[..|stack| - 1];
          line := top.endLine + 1;
          return;
        }
        if !top.IfFrame? {
          break;
        }
        stack := stack[..|stack| - 1];
      }
      line := line + 1;
    }

    /** The `continue` line: find the innermost loop, drop the frames above it. */
    method DoContinue()
      modifies `line, `stack
      ensures State() == ContinueFrom(old(State()), old(stack))
    {
      var s := |stack|;
      assert stack[..s] == stack;
      while s > 0
        invariant 0 <= s <= |stack|
        invariant unchanged(this)
        invariant ContinueFrom(old(State()), stack[..s]) == ContinueFrom(old(State()), old(stack))
      {
        assert Pop(stack[..s]) == stack[..s - 1];
        if stack[s - 1].Loops() {
          line := stack[s - 1].endLine;
          stack := stack[..s];
          return;
        }
        s := s - 1;
      }
      line := line + 1;
    }

    /** A `foreach` line. */
    method StartForeach(header: string, skip: bool)
      requires |endOf| == |lines| && Parsed().Live(State()) && lines[line] == Foreach(header) && skip == Skipping(stack)
      modifies `line, `stack, `world
      ensures State() == Step(Parsed(), old(State()))
    {
      hide Skipping;
      if skip {
        if |stack| < NEST_MAX {
          stack := stack + [ForeachSkip(endOf[line])];
        }
      } else {
        match host.foreach(header, world) {
          case BadHeader =>
            world := host.complain(world);
          case Header(name, items) =>
            if |items| == 0 {
              if |stack| < NEST_MAX {
                stack := stack + [ForeachSkip(endOf[line])];
              }
            } else if |stack| < NEST_MAX {
              stack := stack + [ForeachFrame(line + 1, endOf[line], name, items, 0)];
              world := host.assign(name, items[0], world);
            }
        }
      }
      line := line + 1;
    }

    /** An `end` line: the next turn of the innermost loop, or past it. */
    method EndLoop()
      requires |endOf| == |lines| && Parsed().Live(State()) && lines[line] == End
      modifies `line, `stack, `world
      ensures State() == Step(Parsed(), old(State()))
    {
      hide Skipping;
      if |stack| == 0 {
        line := line + 1;
        return;
      }
      var top := stack[|stack| - 1];
      if top.ForeachFrame? {
        var cur := top.cur + 1;
        if cur < |top.items| {
          stack := stack[..|stack| - 1] + [top.(cur := cur)];
          world := host.assign(top.name, top.items[cur], world);
          line := top.bodyLine;
          return;
        }
      } else if top.WhileFrame? {
        var c := host.test(top.cond, world);
        if c {
          line := top.bodyLine;
          return;
        }
      }
      stack := stack[..|stack| - 1];
      line := line + 1;
    }

    /** One pass through the loop body of `run_script`. */
    method StepLine()
      requires |endOf| == |lines| && Parsed().Live(State())
      modifies `line, `stack, `world, `trace, `status
      ensures State() == Step(Parsed(), old(State()))
    {
      hide Skipping;
      var skip := IsSkipping();
      match lines[line] {
        case Blank =>
          line := line + 1;
        case If(cond) =>
          if skip {
            if |stack| < NEST_MAX {
              stack := stack + [IfFrame(IfSkip, endOf[line])];
            }
          } else {
            var c := host.test(cond, world);
            if |stack| < NEST_MAX {
              stack := stack + [IfFrame(if c then IfTrue else IfFalse, endOf[line])];
            }
          }
          line := line + 1;
        case Else =>
          if |stack| > 0 && stack[|stack| - 1].IfFrame? {
            var top := stack[|stack| - 1];
            if top.state == IfTrue {
              stack := stack[..|stack| - 1] + [top.(state := IfElseF)];
            } else if top.state == IfFalse {
              stack := stack[..|stack| - 1] + [top.(state := IfElseT)];
            }
          }
          line := line + 1;
        case Endif =>
          if |stack| > 0 {
            stack := stack[..|stack| - 1];
          }
          line := line + 1;
        case Foreach(header) =>
          StartForeach(header, skip);
        case While(cond) =>
          if skip {
            if |stack| < NEST_MAX {
              stack := stack + [WhileSkip(endOf[line])];
            }
          } else {
            var c := host.test(cond, world);
            if |stack| < NEST_MAX {
              stack := stack + [if c then WhileFrame(line + 1, endOf[line], cond) else WhileSkip(endOf[line])];
            }
          }
          line := line + 1;
        case End =>
          EndLoop();
        case Break =>
          if skip {
            line := line + 1;
          } else {
            DoBreak();
          }
        case Continue =>
          if skip {
            line := line + 1;
          } else {
            DoContinue();
          }
        case Exit(arg) =>
          if skip {
            line := line + 1;
          } else {
            line, stack, status := 0, [], Exited(arg);
          }
        case Command(text) =>
          if !skip {
            var nothing := host.expandsToNothing(text, world);
            if !nothing {
              trace := trace + [text];
              world := host.run(text, world);
            }
          }
          line := line + 1;
      }
    }

    /**
     Parse the blocks, then iterate.  A script may loop for ever, so the number of
     iterations is capped by `budget`; `CshTheorem` says when some budget suffices.
     */
    method RunScript(budget: nat) returns (accepted: bool)
      requires State() == Start(world)
      modifies this
      ensures accepted <==> Balanced(lines)
      ensures accepted ==> Matching(lines, endOf)
      ensures accepted ==> State() == Steps(Parsed(), budget, old(State()))
      ensures !accepted ==> State() == old(State())
    {
      hide Step, Balanced, Matching;
      var ok, ends := ParseBlockStructure(lines);
      if !ok {
        return false;
      }
      endOf := ends;
      var n := 0;
      while n < budget && 0 <= line < |lines| && status.Running?
        invariant 0 <= n <= budget && endOf == ends
        invariant Steps(Parsed(), budget - n, State()) == Steps(Parsed(), budget, old(State()))
      {
        StepLine();
        n := n + 1;
      }
      return true;
    }
  }
}
