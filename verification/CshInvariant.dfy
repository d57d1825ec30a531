/**
 What the states of the line machine keep, for any line list the parser accepts (not only the
 text of a program tree): the block stack is exactly the list of blocks enclosing the current
 line, and skipping is contagious upwards, until one of three kinds of step loses the thread.
 */
module CshInvariant {
  import opened CshLines
  import opened CshMachine
  import opened CshSimulation
  import opened CshForward

  ghost predicate LoopAround(lines: seq<Line>, k: nat)
    requires k <= |lines|
  {
    exists j :: 0 <= j < |Enclosing(lines, k)| && IsLoop(lines, Enclosing(lines, k)[j])
  }

  ghost predicate IsLoop(lines: seq<Line>, o: nat) {
    o < |lines| && (lines[o].Foreach? || lines[o].While?)
  }

  /** What the parser gives: balanced lines, and the closer of every opener.  Nothing is asked of
      the words that close a block, nor of where `else`, `break` and `continue` stand. */
  ghost predicate Paired<W>(script: Script<W>) {
    Balanced(script.lines) && Matching(script.lines, script.endOf)
  }

  /** The steps that lose the thread: a block opened on a full stack, a `foreach` that is not
      skipped and has a bad header, a `break` that is not skipped inside blocks but in no loop. */
  ghost predicate Derails<W>(script: Script<W>, m: Machine<W>)
    requires script.Live(m)
  {
    match script.lines[m.line]
    case If(_) => |m.stack| >= NEST_MAX
    case While(_) => |m.stack| >= NEST_MAX
    case Foreach(h) => |m.stack| >= NEST_MAX || (!Skipping(m.stack) && script.host.foreach(h, m.world).BadHeader?)
    case Break => !Skipping(m.stack) && m.stack != [] && !HasLoop(m.stack)
    case _ => false
  }

  /** Frame f belongs to the block opened on line o. */
  ghost predicate FrameOf<W>(script: Script<W>, f: Frame, o: nat) {
    && o < |script.lines| && o < |script.endOf|
    && f.endLine == script.endOf[o]
    && match script.lines[o]
       case If(_) => f.IfFrame?
       case Foreach(_) => f.ForeachSkip? || (f.ForeachFrame? && f.bodyLine == o + 1 && f.cur < |f.items|)
       case While(c) => f.WhileSkip? || (f.WhileFrame? && f.bodyLine == o + 1 && f.cond == c)
       case _ => false
  }

  /** A frame pushed while skipping. */
  ghost predicate SkipOnly(f: Frame) {
    f.ForeachSkip? || f.WhileSkip? || (f.IfFrame? && f.state == IfSkip)
  }

  ghost predicate SkipsAbove(stack: seq<Frame>) {
    forall i, j :: 0 <= i < j < |stack| && stack[i].Skips() ==> SkipOnly(stack[j])
  }

  ghost predicate FramesOf<W>(script: Script<W>, stack: seq<Frame>, open: seq<nat>) {
    |stack| == |open| && forall j :: 0 <= j < |stack| ==> FrameOf(script, stack[j], open[j])
  }

  /** The stack is the list of enclosing blocks, and above a skipping frame all are skip frames. */
  ghost predicate Inv<W>(script: Script<W>, m: Machine<W>) {
    && 0 <= m.line <= |script.lines|
    && FramesOf(script, m.stack, Enclosing(script.lines, m.line))
    && SkipsAbove(m.stack)
  }

  lemma {:induction false} SkippingTop(stack: seq<Frame>)
    requires SkipsAbove(stack) && Skipping(stack)
    ensures stack != [] && Top(stack).Skips() && !Top(stack).Loops()
  {
    var i :| 0 <= i < |stack| && stack[i].Skips();
    if i < |stack| - 1 {
      assert SkipOnly(stack[|stack| - 1]);
    }
  }

  /** Nothing happens under a skip: no command runs, no variable is set, no jump is taken. */
  lemma {:induction false} SkipIsSilent<W>(script: Script<W>, m: Machine<W>)
    requires script.Valid() && script.Live(m) && Inv(script, m) && Skipping(m.stack)
    ensures var m' := Step(script, m);
      m'.world == m.world && m'.trace == m.trace && m'.status == m.status && m'.line == m.line + 1
  {
    hide Inv, SkipsAbove, Skipping;
    InvSkips(script, m);
    SkippingTop(m.stack);
  }

  lemma {:induction false} InvSkips<W>(script: Script<W>, m: Machine<W>)
    requires Inv(script, m)
    ensures SkipsAbove(m.stack)
  {
  }

  // ----- preservation, line by line -----

  lemma {:induction false} InvPush<W>(script: Script<W>, m: Machine<W>, f: Frame, m': Machine<W>)
    requires Inv(script, m) && script.Live(m) && script.lines[m.line].Opens()
    requires FrameOf(script, f, m.line) && (Skipping(m.stack) ==> SkipOnly(f))
    requires m'.line == m.line + 1 && m'.stack == m.stack + [f]
    ensures Inv(script, m')
  {
    var open := Enclosing(script.lines, m.line);
    assert Enclosing(script.lines, m'.line) == open + [m.line];
    assert FramesOf(script, m'.stack, open + [m.line]);
    forall i, j | 0 <= i < j < |m'.stack| && m'.stack[i].Skips()
      ensures SkipOnly(m'.stack[j])
    {
      assert m.stack[i].Skips();
      if j < |m.stack| {
        assert SkipOnly(m.stack[j]);
      }
    }
  }

  /** Behind an opener there must be one frame more. */
  lemma {:induction false} InvLost<W>(script: Script<W>, m: Machine<W>, m': Machine<W>)
    requires Inv(script, m) && script.Live(m) && script.lines[m.line].Opens()
    requires m'.line == m.line + 1 && m'.stack == m.stack
    ensures !Inv(script, m')
  {
    assert |Enclosing(script.lines, m.line + 1)| == |Enclosing(script.lines, m.line)| + 1;
  }

  lemma {:induction false} InvOpener<W>(script: Script<W>, m: Machine<W>)
    requires Inv(script, m) && script.Valid() && script.Live(m) && script.lines[m.line].Opens()
    ensures Inv(script, Step(script, m)) <==> !Derails(script, m)
  {
    hide Inv, Skipping;
    var m' := Step(script, m);
    if Derails(script, m) {
      InvLost(script, m, m');
    } else {
      InvPush(script, m, Top(m'.stack), m');
    }
  }

  lemma {:induction false} CloserTop<W>(script: Script<W>, m: Machine<W>) returns (o: nat)
    requires Inv(script, m) && Paired(script) && script.Live(m) && script.lines[m.line].Closes()
    ensures m.stack != [] && |Enclosing(script.lines, m.line)| == |m.stack|
    ensures o == Enclosing(script.lines, m.line)[|m.stack| - 1] < |script.lines|
    ensures FrameOf(script, Top(m.stack), o)
    ensures Enclosing(script.lines, o + 1) == Enclosing(script.lines, m.line)
  {
    var lines := script.lines;
    var open := Enclosing(lines, m.line);
    EnclosingCounts(lines, m.line);
    assert Depth(lines, m.line + 1) >= 0;
    o := open[|open| - 1];
    EnclosingNested(lines, m.line, |open| - 1);
    assert open[..|open|] == open;
  }

  lemma {:induction false} InvElse<W>(script: Script<W>, m: Machine<W>)
    requires Inv(script, m) && script.Valid() && script.Live(m) && script.lines[m.line].Else?
    ensures Inv(script, Step(script, m))
  {
    var m' := Step(script, m);
    var open := Enclosing(script.lines, m.line);
    assert Enclosing(script.lines, m'.line) == open;
    if m'.stack != m.stack {
      var last := |m.stack| - 1;
      assert FrameOf(script, m.stack[last], open[last]);
      assert forall j :: 0 <= j < last ==> m'.stack[j] == m.stack[j];
      assert FramesOf(script, m'.stack, open);
      forall i | 0 <= i < last
        ensures !m.stack[i].Skips()
      {
        if m.stack[i].Skips() {
          assert false;
        }
      }
    }
  }

  lemma {:induction false} InvPop<W>(script: Script<W>, m: Machine<W>, m': Machine<W>)
    requires Inv(script, m) && script.Live(m) && script.lines[m.line].Closes() && m.stack != []
    requires m'.line == m.line + 1 && m'.stack == Pop(m.stack)
    ensures Inv(script, m')
  {
    var open := Enclosing(script.lines, m.line);
    assert Enclosing(script.lines, m'.line) == open[..|open| - 1];
    assert FramesOf(script, m'.stack, open[..|open| - 1]);
    PrefixSkips(m.stack, |m.stack| - 1);
  }

  lemma {:induction false} PrefixSkips(stack: seq<Frame>, k: nat)
    requires SkipsAbove(stack) && k <= |stack|
    ensures SkipsAbove(stack[..k])
  {
  }

  lemma {:induction false} PrefixFrames<W>(script: Script<W>, stack: seq<Frame>, open: seq<nat>, k: nat)
    requires FramesOf(script, stack, open) && k <= |stack|
    ensures FramesOf(script, stack[..k], open[..k])
  {
  }

  /** Going round a loop: back to its body line, its frame updated. */
  lemma {:induction false} InvRound<W>(script: Script<W>, m: Machine<W>, o: nat, f: Frame, m': Machine<W>)
    requires Inv(script, m) && m.stack != [] && m.line <= |script.lines|
    requires o < |script.lines| && Enclosing(script.lines, o + 1) == Enclosing(script.lines, m.line)
    requires o == Enclosing(script.lines, m.line)[|m.stack| - 1]
    requires FrameOf(script, f, o) && f.Loops() && Top(m.stack).Loops()
    requires m'.line == o + 1 && m'.stack == Pop(m.stack) + [f]
    ensures Inv(script, m')
  {
    var open := Enclosing(script.lines, m.line);
    var last := |m.stack| - 1;
    assert forall j :: 0 <= j < last ==> m'.stack[j] == m.stack[j];
    assert FramesOf(script, m'.stack, open);
    forall i | 0 <= i < last
      ensures !m.stack[i].Skips()
    {
      if m.stack[i].Skips() {
        assert false;
      }
    }
  }

  lemma {:induction false} InvCloser<W>(script: Script<W>, m: Machine<W>)
    requires Inv(script, m) && Paired(script) && script.Valid() && script.Live(m) && script.lines[m.line].Closes()
    ensures Inv(script, Step(script, m))
  {
    var o := CloserTop(script, m);
    hide Inv, Paired, Enclosing, Step;
    CloserSteps(script, m, o);
    var m' := Step(script, m);
    if m'.stack == Pop(m.stack) {
      InvPop(script, m, m');
    } else {
      InvRound(script, m, o, Top(m'.stack), m');
    }
  }

  /** A closing line pops its block, or goes round a running loop. */
  lemma {:induction false} CloserSteps<W>(script: Script<W>, m: Machine<W>, o: nat)
    requires script.Valid() && script.Live(m) && script.lines[m.line].Closes() && m.stack != []
    requires FrameOf(script, Top(m.stack), o)
    ensures var m' := Step(script, m);
      || (m'.line == m.line + 1 && m'.stack == Pop(m.stack))
      || (m'.line == o + 1 && |m'.stack| == |m.stack| && Top(m.stack).Loops() && m'.stack != Pop(m.stack)
          && m'.stack == Pop(m.stack) + [Top(m'.stack)] && Top(m'.stack).Loops() && FrameOf(script, Top(m'.stack), o))
  {
    assert m.stack == Pop(m.stack) + [Top(m.stack)];
  }

  // ----- jumps -----

  /** The lines around the closer of an enclosing block. */
  lemma {:induction false} AroundCloser<W>(script: Script<W>, k: nat, j: nat) returns (e: nat)
    requires Paired(script) && k <= |script.lines| && j < |Enclosing(script.lines, k)|
    ensures var open := Enclosing(script.lines, k);
      && open[j] < |script.endOf| && script.endOf[open[j]] == e < |script.lines|
      && Enclosing(script.lines, e) == open[..j + 1]
      && Enclosing(script.lines, e + 1) == open[..j]
  {
    var open := Enclosing(script.lines, k);
    EnclosingNested(script.lines, k, j);
    e := script.endOf[open[j]];
    CloserEnclosing(script.lines, open[j], e);
    assert open[..j] + [open[j]] == open[..j + 1];
  }

  /** A stack prefix belongs to any line enclosed by just those blocks. */
  lemma {:induction false} InvPrefix<W>(script: Script<W>, m: Machine<W>, k: nat, m': Machine<W>)
    requires Inv(script, m) && k <= |m.stack|
    requires 0 <= m'.line <= |script.lines| && m'.stack == m.stack[..k]
    requires Enclosing(script.lines, m'.line) == Enclosing(script.lines, m.line)[..k]
    ensures Inv(script, m')
  {
    PrefixFrames(script, m.stack, Enclosing(script.lines, m.line), k);
    PrefixSkips(m.stack, k);
  }

  lemma {:induction false} InvJumps<W>(script: Script<W>, m: Machine<W>, k: nat)
    requires Inv(script, m) && Paired(script) && script.Live(m) && !Skipping(m.stack)
    requires k <= |m.stack| && HasLoop(m.stack[..k])
    ensures Inv(script, BreakFrom(m, m.stack[..k]))
    ensures Inv(script, ContinueFrom(m, m.stack[..k]))
    decreases k
  {
    hide Inv, Paired, Skipping, HasLoop;
    LoopBelow(m.stack, k);
    var s := m.stack[..k];
    assert Top(s) == m.stack[k - 1] && Pop(s) == m.stack[..k - 1];
    if Top(s).Loops() {
      InvFrame(script, m, k - 1);
      var e := AroundCloser(script, m.line, k - 1);
      InvPrefix(script, m, k - 1, BreakFrom(m, s));
      InvPrefix(script, m, k, ContinueFrom(m, s));
    } else {
      InvJumps(script, m, k - 1);
      assert !m.stack[k - 1].Skips() by { NotSkipping(m.stack, k - 1); }
    }
  }

  /** With no loop on the stack `break` drops every frame and `continue` none. */
  lemma {:induction false} NoLoop<W>(m: Machine<W>, k: nat)
    requires k <= |m.stack| && !HasLoop(m.stack) && !Skipping(m.stack)
    ensures BreakFrom(m, m.stack[..k]) == Advance(m.(stack := []))
    ensures ContinueFrom(m, m.stack[..k]) == Advance(m)
    decreases k
  {
    hide HasLoop, Skipping;
    if k > 0 {
      NotLooping(m.stack, k - 1);
      NotSkipping(m.stack, k - 1);
      assert Pop(m.stack[..k]) == m.stack[..k - 1] && Top(m.stack[..k]) == m.stack[k - 1];
      NoLoop(m, k - 1);
    }
  }

  lemma {:induction false} NotLooping(stack: seq<Frame>, i: nat)
    requires !HasLoop(stack) && i < |stack|
    ensures !stack[i].Loops()
  {
  }

  lemma {:induction false} NotSkipping(stack: seq<Frame>, i: nat)
    requires !Skipping(stack) && i < |stack|
    ensures !stack[i].Skips()
  {
  }

  lemma {:induction false} LoopBelow(stack: seq<Frame>, k: nat)
    requires k <= |stack| && HasLoop(stack[..k])
    ensures k > 0 && (stack[k - 1].Loops() || HasLoop(stack[..k - 1]))
  {
    var i :| 0 <= i < k && stack[..k][i].Loops();
    if i < k - 1 {
      assert stack[..k - 1][i].Loops();
    }
  }

  lemma {:induction false} InvFrame<W>(script: Script<W>, m: Machine<W>, j: nat)
    requires Inv(script, m) && j < |m.stack|
    ensures |Enclosing(script.lines, m.line)| == |m.stack|
    ensures FrameOf(script, m.stack[j], Enclosing(script.lines, m.line)[j])
  {
  }

  lemma {:induction false} InvJump<W>(script: Script<W>, m: Machine<W>)
    requires Inv(script, m) && Paired(script) && script.Valid() && script.Live(m)
    requires script.lines[m.line].Break? || script.lines[m.line].Continue?
    ensures Inv(script, Step(script, m)) <==> !Derails(script, m)
  {
    hide Paired, FrameOf, SkipsAbove, HasLoop, Skipping;
    var open := Enclosing(script.lines, m.line);
    assert Enclosing(script.lines, m.line + 1) == open;
    assert m.stack[..|m.stack|] == m.stack;
    if !Skipping(m.stack) {
      if HasLoop(m.stack) {
        InvJumps(script, m, |m.stack|);
      } else {
        NoLoop(m, |m.stack|);
      }
    }
  }

  lemma {:induction false} InvPlain<W>(script: Script<W>, m: Machine<W>)
    requires Inv(script, m) && script.Valid() && script.Live(m)
    requires script.lines[m.line].Blank? || script.lines[m.line].Command? || script.lines[m.line].Exit?
    ensures Inv(script, Step(script, m))
  {
    assert Enclosing(script.lines, m.line + 1) == Enclosing(script.lines, m.line);
  }

  /** One step keeps the stack right exactly when it does not derail. */
  lemma {:induction false} InvStep<W>(script: Script<W>, m: Machine<W>)
    requires Inv(script, m) && Paired(script) && script.Valid() && script.Live(m)
    ensures Inv(script, Step(script, m)) <==> !Derails(script, m)
  {
    hide Inv, Paired, Step, Skipping, HasLoop;
    var line := script.lines[m.line];
    if line.Opens() { InvOpener(script, m); }
    else if line.Closes() { InvCloser(script, m); }
    else if line.Else? { InvElse(script, m); }
    else if line.Break? || line.Continue? { InvJump(script, m); }
    else { InvPlain(script, m); }
  }

  /** No step among the first n derails. */
  ghost predicate OnTrack<W>(script: Script<W>, n: nat, m: Machine<W>)
    requires script.Valid()
  {
    n == 0 || !script.Live(m) || (!Derails(script, m) && OnTrack(script, n - 1, Step(script, m)))
  }

  /** The stack is right in each of the first n states behind m. */
  ghost predicate AlwaysInv<W>(script: Script<W>, n: nat, m: Machine<W>)
    requires script.Valid()
  {
    Inv(script, m) && (n == 0 || !script.Live(m) || AlwaysInv(script, n - 1, Step(script, m)))
  }

  lemma {:induction false} InvSteps<W>(script: Script<W>, n: nat, m: Machine<W>)
    requires Paired(script) && script.Valid() && Inv(script, m)
    ensures AlwaysInv(script, n, m) <==> OnTrack(script, n, m)
    decreases n
  {
    hide Inv, Paired, Step, Derails;
    if n > 0 && script.Live(m) {
      InvStep(script, m);
      if Inv(script, Step(script, m)) {
        InvSteps(script, n - 1, Step(script, m));
      }
    }
  }

  /** Every accepted script, every run, any number of steps: in all states so far the stack is exactly
      the list of blocks enclosing the line, with the right body and end lines and nothing but skip
      frames above a skipping one, if and only if no step so far opened a block on a full stack, met
      a bad `foreach` header or broke out of blocks without a loop. */
  lemma {:induction false} StackIsEnclosing<W>(script: Script<W>, n: nat, w: W)
    requires Paired(script) && script.Valid()
    ensures AlwaysInv(script, n, Start(w)) <==> OnTrack(script, n, Start(w))
  {
    hide Paired, Step, AlwaysInv, OnTrack;
    InvSteps(script, n, Start(w));
  }

  /** A run that stays on track comes to no bad header. */
  lemma {:induction false} TrackIsSound<W(!new)>(script: Script<W>, m: Machine<W>)
    requires script.Valid() && forall n: nat :: OnTrack(script, n, m)
    ensures HeadersSound(script, m)
  {
    hide OnTrack, Steps;
    forall k: nat
      ensures !BadHeaderAt(script, Steps(script, k, m))
    {
      assert OnTrack(script, k + 1, m);
      TrackAt(script, k, m);
    }
  }

  lemma {:induction false} TrackAt<W>(script: Script<W>, k: nat, m: Machine<W>)
    requires script.Valid() && OnTrack(script, k + 1, m)
    ensures !BadHeaderAt(script, Steps(script, k, m))
    decreases k
  {
    hide Step, Skipping;
    if k > 0 && script.Live(m) {
      TrackAt(script, k - 1, Step(script, m));
    }
  }

  // ----- scripts that never derail -----

  /** Nesting stays within the stack, `break` stands in a loop or outside all blocks, and `foreach`
      headers are well formed. */
  ghost predicate Proper<W(!new)>(script: Script<W>) {
    && (forall k :: 0 <= k <= |script.lines| ==> |Enclosing(script.lines, k)| <= NEST_MAX)
    && (forall k :: 0 <= k < |script.lines| ==> ProperLine(script, k))
  }

  ghost predicate ProperLine<W(!new)>(script: Script<W>, k: nat)
    requires k < |script.lines|
  {
    match script.lines[k]
    case Break => Enclosing(script.lines, k) == [] || LoopAround(script.lines, k)
    case Foreach(h) => forall w: W :: script.host.foreach(h, w).Header?
    case _ => true
  }

  lemma {:induction false} LoopFrameAround<W>(script: Script<W>, m: Machine<W>)
    requires Inv(script, m) && script.Live(m) && !Skipping(m.stack) && LoopAround(script.lines, m.line)
    ensures HasLoop(m.stack)
  {
    var open := Enclosing(script.lines, m.line);
    var j :| 0 <= j < |open| && IsLoop(script.lines, open[j]);
    assert FrameOf(script, m.stack[j], open[j]);
    NotSkipping(m.stack, j);
    assert m.stack[j].Loops();
  }

  lemma {:induction false} ProperStaysOn<W(!new)>(script: Script<W>, m: Machine<W>)
    requires Proper(script) && Inv(script, m) && script.Live(m)
    ensures !Derails(script, m)
  {
    hide FrameOf, SkipsAbove, Skipping, HasLoop;
    assert ProperLine(script, m.line);
    if script.lines[m.line].Opens() {
      assert |Enclosing(script.lines, m.line + 1)| == |Enclosing(script.lines, m.line)| + 1;
    } else if script.lines[m.line].Break? && !Skipping(m.stack) && m.stack != [] {
      LoopFrameAround(script, m);
    }
  }

  /** In such a script every reachable state has the right stack. */
  lemma {:induction false} ProperIsEnclosing<W(!new)>(script: Script<W>, n: nat, m: Machine<W>)
    requires Proper(script) && Paired(script) && script.Valid() && Inv(script, m)
    ensures OnTrack(script, n, m) && AlwaysInv(script, n, m)
    decreases n
  {
    hide Inv, Proper, Paired, Step, Derails;
    if n > 0 && script.Live(m) {
      ProperStaysOn(script, m);
      InvStep(script, m);
      ProperIsEnclosing(script, n - 1, Step(script, m));
    }
  }
}
