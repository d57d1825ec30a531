/**
 What an expression says of an entry, apart from the walk: the connectives are those of logic, and
 of the primaries only those are asked that can still change the value.
 */
module FindMeaning {

  import opened Find

  /** Answers that depend on the entry and the test alone. */
  ghost predicate Steady(o: Options) {
    forall log: seq<Event>, event: Event :: o.answer(log, event) == o.answer([], event)
  }

  /** The answers at an entry; -prune and -quit are true. */
  function AnswersAt(o: Options, a: Address, path: string): Primary -> bool {
    (p: Primary) => p.Test? ==> o.answer([], Event(p, a, path))
  }

  function Truth(e: Expr, t: Primary -> bool): bool {
    match e
    case Leaf(p) => t(p)
    case And(l, r) => Truth(l, t) && Truth(r, t)
    case Or(l, r) => Truth(l, t) || Truth(r, t)
    case Comma(l, r) => Truth(r, t)
    case Not(l) => !Truth(l, t)
  }

  /** The primaries that are asked, in order. */
  function Asked(e: Expr, t: Primary -> bool): seq<Primary> {
    match e
    case Leaf(p) => [p]
    case And(l, r) => Asked(l, t) + if Truth(l, t) then Asked(r, t) else []
    case Or(l, r) => Asked(l, t) + if Truth(l, t) then [] else Asked(r, t)
    case Comma(l, r) => Asked(l, t) + Asked(r, t)
    case Not(l) => Asked(l, t)
  }

  /** The value once -quit has its effect: what stands behind it is not asked, and `and` and the comma
      are false then. */
  function Verdict(e: Expr, t: Primary -> bool): bool {
    match e
    case Leaf(p) => t(p)
    case And(l, r) => Quit !in Asked(l, t) && Truth(l, t) && Verdict(r, t)
    case Or(l, r) => if Quit in Asked(l, t) then Verdict(l, t) else Truth(l, t) || Verdict(r, t)
    case Comma(l, r) => Quit !in Asked(l, t) && Verdict(r, t)
    case Not(l) => !Verdict(l, t)
  }

  /** Without a -quit among the primaries asked that is the truth. */
  lemma {:induction false} VerdictIsTruth(e: Expr, t: Primary -> bool)
    requires Quit !in Asked(e, t)
    ensures Verdict(e, t) == Truth(e, t)
    decreases e
  {
    match e
    case Leaf(p) =>
    case And(l, r) =>
      VerdictIsTruth(l, t);
      if Truth(l, t) {
        VerdictIsTruth(r, t);
      }
    case Or(l, r) =>
      VerdictIsTruth(l, t);
      if !Truth(l, t) {
        VerdictIsTruth(r, t);
      }
    case Comma(l, r) => VerdictIsTruth(r, t);
    case Not(l) => VerdictIsTruth(l, t);
  }

  /** Up to and with the first -quit. */
  function UpToQuit(ps: seq<Primary>): seq<Primary> {
    if ps == [] then [] else if ps[0] == Quit then [Quit] else [ps[0]] + UpToQuit(ps[1..])
  }

  lemma {:induction false} UpToQuitJoin(ps: seq<Primary>, qs: seq<Primary>)
    ensures UpToQuit(ps + qs) == if Quit in ps then UpToQuit(ps) else ps + UpToQuit(qs)
    ensures Quit in UpToQuit(ps) <==> Quit in ps
    ensures Quit !in ps ==> UpToQuit(ps) == ps
    decreases |ps|
  {
    if ps == [] {
      assert ps + qs == qs;
    } else {
      assert (ps + qs)[1..] == ps[1..] + qs;
      UpToQuitJoin(ps[1..], qs);
      assert [ps[0]] + ps[1..] == ps;
    }
  }

  function Events(ps: seq<Primary>, a: Address, path: string): seq<Event> {
    seq(|ps|, i requires 0 <= i < |ps| => Event(ps[i], a, path))
  }

  lemma {:induction false} EventsJoin(ps: seq<Primary>, qs: seq<Primary>, a: Address, path: string)
    ensures Events(ps + qs, a, path) == Events(ps, a, path) + Events(qs, a, path)
  {
  }

  /** The state behind the primaries ps, of which -quit ends the list where it is heeded. */
  ghost predicate Behind(heed: bool, ps: seq<Primary>, a: Address, path: string, prune: bool, s: State, x: Outcome) {
    var asked := if heed then UpToQuit(ps) else ps;
    && x.prune == (prune || Prune in asked)
    && x.state == s.(log := s.log + Events(asked, a, path), quit := heed && Quit in ps)
  }

  /** Primaries behind a -quit that was heeded change nothing, others are added. */
  lemma {:induction false} BehindMore(
      heed: bool, ps: seq<Primary>, qs: seq<Primary>, a: Address, path: string, prune: bool, s: State, x: Outcome,
      y: Outcome)
    requires Behind(heed, ps, a, path, prune, s, x)
    ensures x.state.quit ==> Behind(heed, ps + qs, a, path, prune, s, x)
    ensures !x.state.quit && Behind(heed, qs, a, path, x.prune, x.state, y) ==>
      Behind(heed, ps + qs, a, path, prune, s, y)
  {
    hide UpToQuit, Events;
    UpToQuitJoin(ps, qs);
    UpToQuitJoin(qs, []);
    var more := if heed then UpToQuit(qs) else qs;
    EventsJoin(ps, more, a, path);
    if !x.state.quit && Behind(heed, qs, a, path, x.prune, x.state, y) {
      assert (if heed then UpToQuit(ps + qs) else ps + qs) == ps + more;
      assert y.state.log == s.log + Events(ps + more, a, path);
    }
  }

  function Value(heed: bool, e: Expr, t: Primary -> bool): bool {
    if heed then Verdict(e, t) else Truth(e, t)
  }

  /** With steady answers: the value, and the state behind the primaries asked. */
  lemma {:induction false} EvaluateMeans(
      o: Options, heed: bool, e: Expr, a: Address, path: string, prune: bool, s: State)
    requires Steady(o) && !s.quit
    ensures var x := Evaluate(o, heed, e, a, path, prune, s); var t := AnswersAt(o, a, path);
      x.value == Value(heed, e, t) && Behind(heed, Asked(e, t), a, path, prune, s, x)
    decreases e, 1
  {
    match e
    case Leaf(p) => LeafMeans(o, heed, p, a, path, prune, s);
    case Not(l) => EvaluateMeans(o, heed, l, a, path, prune, s);
    case And(l, r) => AndMeans(o, heed, l, r, a, path, prune, s);
    case Or(l, r) => OrMeans(o, heed, l, r, a, path, prune, s);
    case Comma(l, r) => CommaMeans(o, heed, l, r, a, path, prune, s);
  }

  lemma {:induction false} LeafMeans(
      o: Options, heed: bool, p: Primary, a: Address, path: string, prune: bool, s: State)
    requires Steady(o) && !s.quit
    ensures var x := Evaluate(o, heed, Leaf(p), a, path, prune, s); var t := AnswersAt(o, a, path);
      x.value == Value(heed, Leaf(p), t) && Behind(heed, Asked(Leaf(p), t), a, path, prune, s, x)
  {
    assert [p][1..] == [] && UpToQuit([p]) == [p];
    assert Events([p], a, path) == [Event(p, a, path)];
  }

  lemma {:induction false} QuitIsAsked(
      heed: bool, ps: seq<Primary>, a: Address, path: string, prune: bool, s: State, x: Outcome)
    requires Behind(heed, ps, a, path, prune, s, x)
    ensures x.state.quit <==> heed && Quit in ps
  {
  }

  lemma {:induction false} AndMeans(
      o: Options, heed: bool, l: Expr, r: Expr, a: Address, path: string, prune: bool, s: State)
    requires Steady(o) && !s.quit
    ensures var x := Evaluate(o, heed, And(l, r), a, path, prune, s); var t := AnswersAt(o, a, path);
      x.value == Value(heed, And(l, r), t) && Behind(heed, Asked(And(l, r), t), a, path, prune, s, x)
    decreases And(l, r), 0
  {
    hide Behind, Steady;
    var t := AnswersAt(o, a, path);
    var x := Evaluate(o, heed, l, a, path, prune, s);
    EvaluateMeans(o, heed, l, a, path, prune, s);
    QuitIsAsked(heed, Asked(l, t), a, path, prune, s, x);
    assert Asked(l, t) + [] == Asked(l, t);
    if !x.state.quit {
      if heed {
        VerdictIsTruth(l, t);
      }
      if x.value {
        EvaluateMeans(o, heed, r, a, path, x.prune, x.state);
        BehindMore(heed, Asked(l, t), Asked(r, t), a, path, prune, s, x,
                   Evaluate(o, heed, r, a, path, x.prune, x.state));
      }
    } else {
      BehindMore(heed, Asked(l, t), Asked(r, t), a, path, prune, s, x, x);
      BehindValue(heed, Asked(And(l, r), t), a, path, prune, s, x);
    }
  }

  /** The value is not part of the state. */
  lemma {:induction false} BehindValue(
      heed: bool, ps: seq<Primary>, a: Address, path: string, prune: bool, s: State, x: Outcome)
    requires Behind(heed, ps, a, path, prune, s, x)
    ensures forall v: bool :: Behind(heed, ps, a, path, prune, s, x.(value := v))
  {
  }

  lemma {:induction false} OrMeans(
      o: Options, heed: bool, l: Expr, r: Expr, a: Address, path: string, prune: bool, s: State)
    requires Steady(o) && !s.quit
    ensures var x := Evaluate(o, heed, Or(l, r), a, path, prune, s); var t := AnswersAt(o, a, path);
      x.value == Value(heed, Or(l, r), t) && Behind(heed, Asked(Or(l, r), t), a, path, prune, s, x)
    decreases Or(l, r), 0
  {
    hide Behind, Steady;
    var t := AnswersAt(o, a, path);
    var x := Evaluate(o, heed, l, a, path, prune, s);
    EvaluateMeans(o, heed, l, a, path, prune, s);
    QuitIsAsked(heed, Asked(l, t), a, path, prune, s, x);
    assert Asked(l, t) + [] == Asked(l, t);
    if !x.state.quit {
      if heed {
        VerdictIsTruth(l, t);
      }
      if !x.value {
        EvaluateMeans(o, heed, r, a, path, x.prune, x.state);
        BehindMore(heed, Asked(l, t), Asked(r, t), a, path, prune, s, x,
                   Evaluate(o, heed, r, a, path, x.prune, x.state));
      }
    } else {
      BehindMore(heed, Asked(l, t), Asked(r, t), a, path, prune, s, x, x);
    }
  }

  lemma {:induction false} CommaMeans(
      o: Options, heed: bool, l: Expr, r: Expr, a: Address, path: string, prune: bool, s: State)
    requires Steady(o) && !s.quit
    ensures var x := Evaluate(o, heed, Comma(l, r), a, path, prune, s); var t := AnswersAt(o, a, path);
      x.value == Value(heed, Comma(l, r), t) && Behind(heed, Asked(Comma(l, r), t), a, path, prune, s, x)
    decreases Comma(l, r), 0
  {
    hide Behind, Steady;
    var t := AnswersAt(o, a, path);
    var x := Evaluate(o, heed, l, a, path, prune, s);
    EvaluateMeans(o, heed, l, a, path, prune, s);
    QuitIsAsked(heed, Asked(l, t), a, path, prune, s, x);
    if !x.state.quit {
      EvaluateMeans(o, heed, r, a, path, x.prune, x.state);
      BehindMore(heed, Asked(l, t), Asked(r, t), a, path, prune, s, x,
                 Evaluate(o, heed, r, a, path, x.prune, x.state));
    } else {
      BehindMore(heed, Asked(l, t), Asked(r, t), a, path, prune, s, x, x);
      BehindValue(heed, Asked(Comma(l, r), t), a, path, prune, s, x);
    }
  }
}
