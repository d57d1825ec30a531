/**
 Where the interpreter stops following the program tree: blocks nested deeper than the
 stack, and `break` outside every loop.
 */
module CshLimits {
  import opened CshLines
  import opened CshMachine
  import opened CshProgram
  import opened CshSimulation
  import opened CshForward
  import opened CshTheorem

  /** `deep` taken conditions around one that is not taken. */
  function Deep(yes: string, no: string, text: string, deep: nat): Program {
    if deep == 0 then When(no, Do(text)) else When(yes, Deep(yes, no, text, deep - 1))
  }

  lemma {:induction false} DeepFacts<W(!new)>(
      host: Host<W>, yes: string, no: string, text: string, deep: nat, w: W, k: nat)
    requires k <= deep
    ensures var l := Flatten(Deep(yes, no, text, deep));
      && |l| == 2 * deep + 3 && l[k] == (if k < deep then If(yes) else If(no)) && l[deep + 1] == Command(text)
    ensures Nesting(Deep(yes, no, text, deep)) == deep + 1
    ensures Scoped(Deep(yes, no, text, deep), false) && HeadersOk(host, Deep(yes, no, text, deep))
    decreases deep
  {
    if deep > 0 {
      var inner := Flatten(Deep(yes, no, text, deep - 1));
      DeepFacts(host, yes, no, text, deep - 1, w, if k == 0 then 0 else k - 1);
      assert Flatten(Deep(yes, no, text, deep)) == [If(yes)] + inner + [Endif];
    }
  }

  lemma {:induction false} DeepMeaning<W>(host: Host<W>, yes: string, no: string, text: string, deep: nat, w: W)
    requires host.test(yes, w) && !host.test(no, w)
    ensures Meaning(host, 0, Deep(yes, no, text, deep), w, []) == Done(Normal, w, [])
    decreases deep
  {
    if deep > 0 {
      DeepMeaning(host, yes, no, text, deep - 1, w);
    }
  }

  ghost predicate AllTaken(stack: seq<Frame>) {
    forall i :: 0 <= i < |stack| ==> stack[i].IfFrame? && stack[i].state == IfTrue
  }

  /** After the first k lines the stack holds the k taken conditions, as far as it reaches. */
  lemma {:induction false} DeepDescent<W(!new)>(
      script: Script<W>, yes: string, no: string, text: string, deep: nat, w: W, k: nat)
    requires script.lines == Flatten(Deep(yes, no, text, deep)) && script.Valid()
    requires script.host.test(yes, w) && k <= deep
    ensures var m := Steps(script, k, Start(w));
      m == At(k, m.stack, w, []) && AllTaken(m.stack) && |m.stack| == (if k <= NEST_MAX then k else NEST_MAX)
    decreases k
  {
    if k > 0 {
      DeepDescent(script, yes, no, text, deep, w, k - 1);
      DeepFacts(script.host, yes, no, text, deep, w, k - 1);
      ThenStep(script, k - 1, Start(w));
    }
  }

  lemma {:induction false} JumpKeepsTrace<W>(m: Machine<W>, stack: seq<Frame>)
    ensures BreakFrom(m, stack).trace == m.trace && ContinueFrom(m, stack).trace == m.trace
    decreases |stack|
  {
    if stack != [] {
      JumpKeepsTrace(m, Pop(stack));
    }
  }

  /** Commands are only ever added to the trace. */
  lemma {:induction false} TraceGrows<W>(script: Script<W>, n: nat, m: Machine<W>)
    requires script.Valid()
    ensures m.trace <= Steps(script, n, m).trace
    decreases n
  {
    if n > 0 && script.Live(m) {
      JumpKeepsTrace(m, m.stack);
      TraceGrows(script, n - 1, Step(script, m));
    }
  }

  /** A machine that halts without having run a command never ran one. */
  lemma {:induction false} SilentRun<W>(script: Script<W>, halt: nat, n: nat, m: Machine<W>)
    requires script.Valid() && HaltsIn(script, halt, m) && Steps(script, halt, m).trace == []
    ensures Steps(script, n, m).trace == []
  {
    if n <= halt {
      StepsAdd(script, n, halt - n, m);
      TraceGrows(script, halt - n, Steps(script, n, m));
    } else {
      StepsAdd(script, halt, n - halt, m);
      Stays(script, n - halt, Steps(script, halt, m));
    }
  }

  /** On a full stack an untaken `if` leaves no frame, so its body runs. */
  lemma {:induction false} UntakenBodyRuns<W(!new)>(
      script: Script<W>, yes: string, no: string, text: string, deep: nat, w: W)
    requires script.lines == Flatten(Deep(yes, no, text, deep)) && script.Valid() && deep >= NEST_MAX
    requires script.host.test(yes, w) && !script.host.test(no, w) && !script.host.expandsToNothing(text, w)
    ensures Steps(script, deep + 2, Start(w)).trace == [text]
  {
    DeepDescent(script, yes, no, text, deep, w, deep);
    DeepFacts(script.host, yes, no, text, deep, w, deep);
    ThenStep(script, deep, Start(w));
    ThenStep(script, deep + 1, Start(w));
  }

  /**
   With `deep` taken blocks around it, the command of an untaken branch is left alone
   exactly as long as that branch still fits on the stack: from 32 blocks on it runs.
   */
  lemma {:induction false} DepthLimitIsExact<W(!new)>(
      host: Host<W>, yes: string, no: string, text: string, deep: nat, w: W, endOf: seq<int>)
    requires host.test(yes, w) && !host.test(no, w) && !host.expandsToNothing(text, w)
    requires Matching(Flatten(Deep(yes, no, text, deep)), endOf)
    ensures Meaning(host, 0, Deep(yes, no, text, deep), w, []) == Done(Normal, w, [])
    ensures deep < NEST_MAX
      <==> forall n: nat :: Steps(Script(host, Flatten(Deep(yes, no, text, deep)), endOf), n, Start(w)).trace == []
  {
    hide Matching, Steps, Meaning, Flatten, HaltsIn;
    var p := Deep(yes, no, text, deep);
    var script := Script(host, Flatten(p), endOf);
    MatchingLength(Flatten(p), endOf);
    DeepMeaning(host, yes, no, text, deep, w);
    if deep < NEST_MAX {
      DeepFacts(host, yes, no, text, deep, w, deep);
      StaticHeaders(host, p, endOf, w);
      var halt := HaltsWithResult(host, p, endOf, w, 0);
      forall n: nat ensures Steps(script, n, Start(w)).trace == [] {
        SilentRun(script, halt, n, Start(w));
      }
    } else {
      UntakenBodyRuns(script, yes, no, text, deep, w);
    }
  }

  /** `break` outside a loop pops the `if` it stands in, so the `else` branch runs as well. */
  lemma {:induction false} BreakOutsideLoop<W>(host: Host<W>, yes: string, text: string, w: W, endOf: seq<int>)
    requires host.test(yes, w) && !host.expandsToNothing(text, w)
    requires |endOf| == |Flatten(Choose(yes, BreakOut, Do(text)))|
    ensures Steps(Script(host, Flatten(Choose(yes, BreakOut, Do(text))), endOf), 4, Start(w)).trace == [text]
  {
    assert Flatten(BreakOut) == [Break] && Flatten(Do(text)) == [Command(text)];
    var script := Script(host, Flatten(Choose(yes, BreakOut, Do(text))), endOf);
    assert script.lines == [If(yes), Break, Else, Command(text), Endif];
    BreakSteps(script, yes, text, w);
  }

  lemma {:induction false} BreakSteps<W>(script: Script<W>, yes: string, text: string, w: W)
    requires script.lines == [If(yes), Break, Else, Command(text), Endif] && script.Valid()
    requires script.host.test(yes, w) && !script.host.expandsToNothing(text, w)
    ensures Steps(script, 4, Start(w)).trace == [text]
  {
    hide Steps;
    var s := Start(w);
    NoStep(script, s);
    ThenStep(script, 0, s);
    var m1 := At(1, [IfFrame(IfTrue, script.endOf[0])], w, []);
    assert Steps(script, 1, s) == m1;
    ThenStep(script, 1, s);
    assert Pop(m1.stack) == [];
    assert BreakFrom(m1, []) == At(2, [], w, []);
    ThenStep(script, 2, s);
    ThenStep(script, 3, s);
  }

  /** A `foreach` line without a list pushes no frame, so its `end` pops the `if` around it and
      the `else` branch of a taken `if` runs as well. */
  lemma {:induction false} BadHeaderPopsOuter<W>(
      host: Host<W>, yes: string, header: string, text: string, w: W, endOf: seq<int>)
    requires host.test(yes, w) && host.foreach(header, w).BadHeader? && !host.expandsToNothing(text, host.complain(w))
    requires |endOf| == |Flatten(Choose(yes, ForEach(header, Nothing), Do(text)))|
    ensures Steps(Script(host, Flatten(Choose(yes, ForEach(header, Nothing), Do(text))), endOf), 5, Start(w)).trace
      == [text]
  {
    assert Flatten(ForEach(header, Nothing)) == [Foreach(header), End] && Flatten(Do(text)) == [Command(text)];
    var script := Script(host, Flatten(Choose(yes, ForEach(header, Nothing), Do(text))), endOf);
    assert script.lines == [If(yes), Foreach(header), End, Else, Command(text), Endif];
    HeaderSteps(script, yes, header, text, w);
  }

  lemma {:induction false} HeaderSteps<W>(script: Script<W>, yes: string, header: string, text: string, w: W)
    requires script.lines == [If(yes), Foreach(header), End, Else, Command(text), Endif] && script.Valid()
    requires script.host.test(yes, w) && script.host.foreach(header, w).BadHeader?
    requires !script.host.expandsToNothing(text, script.host.complain(w))
    ensures Steps(script, 5, Start(w)).trace == [text]
  {
    hide Steps;
    var s, after := Start(w), script.host.complain(w);
    var frame := IfFrame(IfTrue, script.endOf[0]);
    NoStep(script, s);
    ThenStep(script, 0, s);
    assert Steps(script, 1, s) == At(1, [frame], w, []);
    ThenStep(script, 1, s);
    assert Steps(script, 2, s) == At(2, [frame], after, []);
    ThenStep(script, 2, s);
    assert Pop([frame]) == [];
    assert Steps(script, 3, s) == At(3, [], after, []);
    ThenStep(script, 3, s);
    ThenStep(script, 4, s);
  }
}
