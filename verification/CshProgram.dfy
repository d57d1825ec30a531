/**
 Structured csh programs: the tree a script author has in mind, its text as lines, and
 what it means, given without lines, jumps or a block stack.
 */
module CshProgram {
  import opened CshLines
  import opened CshMachine

  datatype Program =
    | Nothing
    | Empty                                    // a blank or comment line
    | Do(text: string)
    | Then(first: Program, second: Program)
    | When(cond: string, thn: Program)
    | Choose(cond: string, thn: Program, els: Program)
    | ForEach(header: string, body: Program)
    | Repeat(cond: string, body: Program)
    | BreakOut
    | GoOn
    | Quit(arg: string)

  function Flatten(p: Program): seq<Line> {
    match p
    case Nothing => []
    case Empty => [Blank]
    case Do(text) => [Command(text)]
    case Then(a, b) => Flatten(a) + Flatten(b)
    case When(c, a) => [If(c)] + Flatten(a) + [Endif]
    case Choose(c, a, b) => [If(c)] + Flatten(a) + [Else] + Flatten(b) + [Endif]
    case ForEach(h, a) => [Foreach(h)] + Flatten(a) + [End]
    case Repeat(c, a) => [While(c)] + Flatten(a) + [End]
    case BreakOut => [Break]
    case GoOn => [Continue]
    case Quit(arg) => [Exit(arg)]
  }

  /** How many lines the program takes. */
  function Size(p: Program): nat {
    match p
    case Nothing => 0
    case Then(a, b) => Size(a) + Size(b)
    case When(_, a) => Size(a) + 2
    case Choose(_, a, b) => Size(a) + Size(b) + 3
    case ForEach(_, a) => Size(a) + 2
    case Repeat(_, a) => Size(a) + 2
    case _ => 1
  }

  lemma FlattenSize(p: Program)
    ensures |Flatten(p)| == Size(p)
  {
  }

  /** How many blocks are open at the deepest line. */
  function Nesting(p: Program): nat {
    match p
    case Then(a, b) => Max(Nesting(a), Nesting(b))
    case When(_, a) => 1 + Nesting(a)
    case Choose(_, a, b) => 1 + Max(Nesting(a), Nesting(b))
    case ForEach(_, a) => 1 + Nesting(a)
    case Repeat(_, a) => 1 + Nesting(a)
    case _ => 0
  }

  function Max(a: nat, b: nat): nat {
    if a < b then b else a
  }

  /** `break` and `continue` occur inside loops only. */
  predicate Scoped(p: Program, inLoop: bool) {
    match p
    case Then(a, b) => Scoped(a, inLoop) && Scoped(b, inLoop)
    case When(_, a) => Scoped(a, inLoop)
    case Choose(_, a, b) => Scoped(a, inLoop) && Scoped(b, inLoop)
    case ForEach(_, a) => Scoped(a, true)
    case Repeat(_, a) => Scoped(a, true)
    case BreakOut => inLoop
    case GoOn => inLoop
    case _ => true
  }

  /** Every `foreach` header is well formed, whatever the variables hold. */
  ghost predicate HeadersOk<W(!new)>(host: Host<W>, p: Program) {
    match p
    case Then(a, b) => HeadersOk(host, a) && HeadersOk(host, b)
    case When(_, a) => HeadersOk(host, a)
    case Choose(_, a, b) => HeadersOk(host, a) && HeadersOk(host, b)
    case ForEach(h, a) => (forall w: W :: host.foreach(h, w).Header?) && HeadersOk(host, a)
    case Repeat(_, a) => HeadersOk(host, a)
    case _ => true
  }

  datatype Outcome = Normal | Broke | Continued | Left(arg: string)

  datatype Result<W> = Diverging | Done(outcome: Outcome, world: W, trace: seq<string>)

  /**
   The meaning of a program.  `fuel` bounds the iterations of each `while`; `Diverging`
   means that it was not enough, so a program terminates when some fuel gives `Done`.
   */
  ghost function Meaning<W>(host: Host<W>, fuel: nat, p: Program, w: W, t: seq<string>): Result<W>
    decreases fuel, p, 0
  {
    match p
    case Nothing => Done(Normal, w, t)
    case Empty => Done(Normal, w, t)
    case Do(text) =>
      if host.expandsToNothing(text, w) then Done(Normal, w, t)
      else Done(Normal, host.run(text, w), t + [text])
    case Then(a, b) =>
      var r := Meaning(host, fuel, a, w, t);
      if r.Done? && r.outcome.Normal? then Meaning(host, fuel, b, r.world, r.trace) else r
    case When(c, a) =>
      if host.test(c, w) then Meaning(host, fuel, a, w, t) else Done(Normal, w, t)
    case Choose(c, a, b) =>
      if host.test(c, w) then Meaning(host, fuel, a, w, t) else Meaning(host, fuel, b, w, t)
    case ForEach(h, a) =>
      var header := host.foreach(h, w);
      if header.BadHeader? then Done(Normal, host.complain(w), t)
      else MeaningForEach(host, fuel, a, header.name, header.items, w, t)
    case Repeat(c, a) =>
      if !host.test(c, w) then Done(Normal, w, t)
      else if fuel == 0 then Diverging
      else
        var r := Meaning(host, fuel, a, w, t);
        if r.Diverging? || r.outcome.Left? then r
        else if r.outcome.Broke? then r.(outcome := Normal)
        else Meaning(host, fuel - 1, p, r.world, r.trace)
    case BreakOut => Done(Broke, w, t)
    case GoOn => Done(Continued, w, t)
    case Quit(arg) => Done(Left(arg), w, t)
  }

  /** The body once per item, over the items fixed at loop entry. */
  ghost function MeaningForEach<W>(
      host: Host<W>, fuel: nat, body: Program, name: string, items: seq<string>, w: W, t: seq<string>): Result<W>
    decreases fuel, body, |items| + 1
  {
    if items == [] then Done(Normal, w, t)
    else
      var r := Meaning(host, fuel, body, host.assign(name, items[0], w), t);
      if r.Diverging? || r.outcome.Left? then r
      else if r.outcome.Broke? then r.(outcome := Normal)
      else MeaningForEach(host, fuel, body, name, items[1..], r.world, r.trace)
  }

  /** More fuel never changes a result. */
  lemma {:induction false} MoreFuel<W>(host: Host<W>, fuel: nat, more: nat, p: Program, w: W, t: seq<string>)
    requires fuel <= more
    requires Meaning(host, fuel, p, w, t).Done?
    ensures Meaning(host, more, p, w, t) == Meaning(host, fuel, p, w, t)
    decreases fuel, p, 0
  {
    match p
    case Then(a, b) =>
      MoreFuel(host, fuel, more, a, w, t);
      var r := Meaning(host, fuel, a, w, t);
      if r.outcome.Normal? {
        MoreFuel(host, fuel, more, b, r.world, r.trace);
      }
    case When(c, a) =>
      if host.test(c, w) { MoreFuel(host, fuel, more, a, w, t); }
    case Choose(c, a, b) =>
      if host.test(c, w) { MoreFuel(host, fuel, more, a, w, t); } else { MoreFuel(host, fuel, more, b, w, t); }
    case ForEach(h, a) =>
      var header := host.foreach(h, w);
      if header.Header? {
        MoreFuelForEach(host, fuel, more, a, header.name, header.items, w, t);
      }
    case Repeat(c, a) =>
      if host.test(c, w) {
        MoreFuel(host, fuel, more, a, w, t);
        var r := Meaning(host, fuel, a, w, t);
        if r.outcome.Normal? || r.outcome.Continued? {
          MoreFuel(host, fuel - 1, more - 1, p, r.world, r.trace);
        }
      }
    case _ =>
  }

  lemma {:induction false} MoreFuelForEach<W>(
      host: Host<W>, fuel: nat, more: nat, body: Program, name: string, items: seq<string>, w: W, t: seq<string>)
    requires fuel <= more
    requires MeaningForEach(host, fuel, body, name, items, w, t).Done?
    ensures MeaningForEach(host, more, body, name, items, w, t) == MeaningForEach(host, fuel, body, name, items, w, t)
    decreases fuel, body, |items| + 1
  {
    if items != [] {
      MoreFuel(host, fuel, more, body, host.assign(name, items[0], w), t);
      var r := Meaning(host, fuel, body, host.assign(name, items[0], w), t);
      if r.outcome.Normal? || r.outcome.Continued? {
        MoreFuelForEach(host, fuel, more, body, name, items[1..], r.world, r.trace);
      }
    }
  }

  // ----- the lines of a program form properly nested blocks -----

  /** The change in depth over a prefix of a line list, from a given start. */
  lemma {:induction false} DepthShift(a: seq<Line>, b: seq<Line>, k: nat)
    requires k <= |b|
    ensures Depth(a + b, |a| + k) == Depth(a, |a|) + Depth(b, k)
  {
    if k == 0 {
      DepthPrefix(a, b, |a|);
    } else {
      DepthShift(a, b, k - 1);
      assert (a + b)[|a| + k - 1] == b[k - 1];
    }
  }

  lemma {:induction false} DepthPrefix(a: seq<Line>, b: seq<Line>, k: nat)
    requires k <= |a|
    ensures Depth(a + b, k) == Depth(a, k)
  {
    if k > 0 {
      DepthPrefix(a, b, k - 1);
      assert (a + b)[k - 1] == a[k - 1];
    }
  }

  /** Depth of `ls` never goes below zero, ends at zero, and an `else` is always inside. */
  lemma {:induction false} BalancedConcat(a: seq<Line>, b: seq<Line>)
    requires Balanced(a) && Balanced(b)
    ensures Balanced(a + b)
  {
    forall k | 0 <= k <= |a + b|
      ensures Depth(a + b, k) >= 0
      ensures k < |a + b| && (a + b)[k].Else? ==> Depth(a + b, k) > 0
    {
      if k < |a| { DepthPrefix(a, b, k); } else { DepthShift(a, b, k - |a|); }
    }
    DepthShift(a, b, |b|);
  }

  /** Wrapping a balanced list in an opener and a closer. */
  lemma {:induction false} BalancedWrap(open: Line, a: seq<Line>, close: Line)
    requires open.Opens() && close.Closes() && Wrappable(a)
    ensures Balanced([open] + a + [close])
    ensures Closing([open] + a + [close], 0, |a| + 1)
  {
    var l := [open] + a;
    var all := l + [close];
    assert Depth([open], 1) == 1 + Depth([open], 0);
    forall k | 0 <= k <= |a|
      ensures Depth(all, k + 1) == 1 + Depth(a, k)
    {
      DepthShift([open], a, k);
      DepthPrefix(l, [close], k + 1);
    }
    assert Depth(all, 1 + |a|) == 1;
    assert Depth(all, |a| + 2) == 0;
    forall k | 0 <= k <= |all|
      ensures Depth(all, k) >= 0
      ensures 0 < k <= |a| + 1 ==> Depth(all, k) > 0
      ensures k < |all| && all[k].Else? ==> Depth(all, k) > 0
    {
      if 0 < k <= |a| + 1 { assert Depth(all, (k - 1) + 1) == 1 + Depth(a, k - 1); }
    }
  }

  /** Balanced up to `else` lines at its outermost level. */
  ghost predicate Wrappable(a: seq<Line>) {
    && (forall k :: 0 <= k <= |a| ==> Depth(a, k) >= 0)
    && Depth(a, |a|) == 0
  }

  lemma {:induction false} WrappableElse(a: seq<Line>, b: seq<Line>)
    requires Balanced(a) && Balanced(b)
    ensures Wrappable(a + [Else] + b)
  {
    var l := a + [Else];
    DepthShift(a, [Else], 1);
    assert Depth([Else], 1) == Depth([Else], 0);
    forall k | 0 <= k <= |l + b|
      ensures Depth(l + b, k) >= 0
    {
      if k <= |a| {
        DepthPrefix(a, [Else], k);
        DepthPrefix(l, b, k);
      } else {
        DepthShift(l, b, k - |l|);
      }
    }
    DepthShift(l, b, |b|);
  }

  lemma {:induction false} PlainBalanced(line: Line)
    requires !line.Opens() && !line.Closes() && !line.Else?
    ensures Balanced([line])
  {
    assert Depth([line], 1) == Depth([line], 0);
  }

  lemma {:induction false} ElseBalanced(open: Line, a: seq<Line>, b: seq<Line>, close: Line)
    requires open.Opens() && close.Closes() && Balanced(a) && Balanced(b)
    ensures Balanced([open] + a + [Else] + b + [close])
    ensures Closing([open] + a + [Else] + b + [close], 0, |a| + |b| + 2)
  {
    hide Balanced, Closing, Wrappable;
    WrappableElse(a, b);
    BalancedWrap(open, a + [Else] + b, close);
    assert [open] + (a + [Else] + b) + [close] == [open] + a + [Else] + b + [close];
  }

  /** The text of every program is balanced. */
  lemma {:induction false} FlattenBalanced(p: Program)
    ensures Balanced(Flatten(p))
  {
    match p
    case Nothing =>
    case Empty => PlainBalanced(Blank);
    case Do(text) => PlainBalanced(Command(text));
    case Then(a, b) =>
      FlattenBalanced(a);
      FlattenBalanced(b);
      BalancedConcat(Flatten(a), Flatten(b));
    case When(c, a) =>
      FlattenBalanced(a);
      BalancedWrap(If(c), Flatten(a), Endif);
    case Choose(c, a, b) =>
      FlattenBalanced(a);
      FlattenBalanced(b);
      ElseBalanced(If(c), Flatten(a), Flatten(b), Endif);
    case ForEach(h, a) =>
      FlattenBalanced(a);
      BalancedWrap(Foreach(h), Flatten(a), End);
    case Repeat(c, a) =>
      FlattenBalanced(a);
      BalancedWrap(While(c), Flatten(a), End);
    case BreakOut => PlainBalanced(Break);
    case GoOn => PlainBalanced(Continue);
    case Quit(arg) => PlainBalanced(Exit(arg));
  }
}
