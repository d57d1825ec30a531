/**
 awk's current record as a reader expects it, with the text of $0 and the fields $1..$NF always up
 to date, beside what the program does: it brings each up to date only when asked, and keeps the
 variable NF apart.  The two are compared over every sequence of operations.
 */
module AwkEager {
  import opened AwkSplit

  // ----- the eager record -----

  datatype Separators = Separators(fs: string, ofs: string, regex: Regex)

  /** Both views, always up to date.  NF may be set below zero; there are no fields then. */
  datatype Eager = Eager(sep: Separators, record: string, fields: seq<string>, nf: int) {
    predicate Sane() {
      |fields| == if nf < 0 then 0 else nf
    }
  }

  function Empties(n: nat): seq<string> {
    seq(n, _ => "")
  }

  /** Field lists with field i replaced, or extended by empty fields up to field i. */
  function WithField(fields: seq<string>, i: nat, v: string): seq<string>
    requires i >= 1
  {
    if i <= |fields| then fields[i - 1 := v] else fields + Empties(i - 1 - |fields|) + [v]
  }

  function WithCount(fields: seq<string>, n: int): seq<string> {
    if n < 0 then [] else if n <= |fields| then fields[..n] else fields + Empties(n - |fields|)
  }

  /** Which value of an update is used: none, the one before it (`NF++`), or the one after it
      (`++NF`, `NF += y`). */
  datatype Value = Unused | Before | After

  datatype Op =
    | NewRecord(text: string)
    | GetField(i: int)
    | SetField(i: int, v: string)
    | GetNF
    /** `NF = n`, whose value may be used. */
    | SetNF(n: int, used: bool)
    /** `NF++`, `NF -= y` and the like: NF becomes f of what it was. */
    | UpdateNF(f: int -> int, value: Value)
    | SetFS(fs: string)
    | SetOFS(ofs: string)

  /** `Astray` stands for an access in front of the field array. */
  datatype Answer = Nothing | Text(s: string) | Count(n: int) | Astray

  function EagerGet(e: Eager, i: int): string {
    if i == 0 then e.record else if 1 <= i <= |e.fields| then e.fields[i - 1] else ""
  }

  /** The record with this text. */
  function Read(sep: Separators, text: string): Eager {
    var fields := Split(sep.fs, sep.regex, text);
    Eager(sep, text, fields, |fields|)
  }

  function WithNF(e: Eager, n: int): Eager {
    var fields := WithCount(e.fields, n);
    Eager(e.sep, Join(e.sep.ofs, fields), fields, n)
  }

  function Chosen(value: Value, before: int, after: int): Answer {
    match value
    case Unused => Nothing
    case Before => Count(before)
    case After => Count(after)
  }

  /** One operation on the eager record. */
  function EagerStep(e: Eager, op: Op): (Eager, Answer) {
    match op
    case NewRecord(text) => (Read(e.sep, text), Nothing)
    case GetField(i) => (e, Text(EagerGet(e, i)))
    case SetField(i, v) =>
      if i < 0 then (e, Nothing)
      else if i == 0 then (Read(e.sep, v), Nothing)
      else
        var fields := WithField(e.fields, i, v);
        (Eager(e.sep, Join(e.sep.ofs, fields), fields, |fields|), Nothing)
    case GetNF => (e, Count(e.nf))
    case SetNF(n, used) => (WithNF(e, n), if used then Count(n) else Nothing)
    case UpdateNF(f, value) => (WithNF(e, f(e.nf)), Chosen(value, e.nf, f(e.nf)))
    case SetFS(fs) => (e.(sep := e.sep.(fs := fs)), Nothing)
    case SetOFS(ofs) => (e.(sep := e.sep.(ofs := ofs)), Nothing)
  }

  /** A field that was set is read back, the others are as before, those in between are empty, and
      the record is the fields with OFS between them. */
  lemma {:induction false} SetFieldReadsBack(e: Eager, i: int, v: string, j: int)
    requires i >= 1 && j >= 1
    ensures var after := EagerStep(e, SetField(i, v)).0;
      && EagerGet(after, j) == (if j == i then v else EagerGet(e, j))
      && after.nf == (if i <= |e.fields| then |e.fields| else i)
      && |after.fields| == after.nf
      && EagerGet(after, 0) == Join(e.sep.ofs, after.fields)
  {
  }

  /** Setting NF keeps the fields up to it, adds empty ones or drops the rest. */
  lemma {:induction false} SetNFReadsBack(e: Eager, n: int, used: bool, j: int)
    requires j >= 1
    ensures var after := EagerStep(e, SetNF(n, used)).0;
      && EagerGet(after, j) == (if j <= n then EagerGet(e, j) else "")
      && after.nf == n
      && |after.fields| == (if n < 0 then 0 else n)
      && EagerGet(after, 0) == Join(e.sep.ofs, after.fields)
  {
  }

  /** A new record, or a new `$0`, is split at once. */
  lemma {:induction false} RecordIsSplit(e: Eager, text: string)
    ensures forall op :: op in {NewRecord(text), SetField(0, text)} ==>
      var after := EagerStep(e, op).0;
      EagerGet(after, 0) == text && after.fields == Split(e.sep.fs, e.sep.regex, text) && after.nf == |after.fields|
  {
  }

  /** What is seen after each operation: the record, and the answer given. */
  function EagerTrace(e: Eager, ops: seq<Op>): (r: seq<(Eager, Answer)>)
    ensures |r| == |ops|
    decreases |ops|
  {
    if |ops| == 0 then [] else var step := EagerStep(e, ops[0]); [step] + EagerTrace(step.0, ops[1..])
  }

  // ----- the program -----

  /** What the program keeps beside the record: whether the fields have been split and the text been
      joined since they were last changed through the other view, and the variable NF. */
  datatype Store = Store(split: bool, joined: bool, cell: int)

  /** A record that is not split yet has no other NF than its number of fields. */
  predicate Consistent(e: Eager, s: Store) {
    e.Sane() && (!s.split ==> e.nf >= 0)
  }

  /** The variable is written when the record is split, when a field beyond the last is set, and by
      an assignment; splitting for the assignment writes it over with the old count. */
  function StoreStep(e: Eager, s: Store, op: Op): Store {
    var read := if s.split then s else s.(split := true, cell := e.nf);
    match op
    case NewRecord(_) => Store(false, true, s.cell)
    case GetField(i) => if i == 0 then s.(joined := true) else read
    case SetField(i, _) =>
      if i < 0 then read
      else if i == 0 then Store(false, true, s.cell)
      else if i > e.nf then Store(true, false, i)
      else read.(joined := false)
    case GetNF => read
    case SetNF(n, _) => Store(true, false, if s.split then n else e.nf)
    case UpdateNF(f, _) => Store(true, false, if s.split then f(s.cell) else e.nf)
    case SetFS(_) => s
    case SetOFS(_) => s
  }

  /** An assignment to NF clears or fills the array from the lower count on. */
  function CodeSetNF(e: Eager, n: int, a: Answer): (Eager, Answer) {
    if n < -1 then (e, Astray) else (WithNF(e, n), a)
  }

  /** What the program does.  The value of `NF = n` is read back from the variable; an update starts
      from the variable; fields not split yet are split with the new FS, and a text not joined yet is
      joined with the new OFS. */
  function CodeStep(e: Eager, s: Store, op: Op): (Eager, Answer) {
    match op
    case SetField(i, v) => if i < 0 then (e, Astray) else EagerStep(e, op)
    case SetNF(n, used) => CodeSetNF(e, n, if used then Count(StoreStep(e, s, op).cell) else Nothing)
    case UpdateNF(f, value) => CodeSetNF(e, f(s.cell), Chosen(value, s.cell, f(s.cell)))
    case SetFS(fs) =>
      var sep := e.sep.(fs := fs);
      (if s.split then e.(sep := sep) else Read(sep, e.record), Nothing)
    case SetOFS(ofs) =>
      var sep := e.sep.(ofs := ofs);
      (if s.joined then e.(sep := sep) else e.(sep := sep, record := Join(ofs, e.fields)), Nothing)
    case _ => EagerStep(e, op)
  }

  /** Nothing is said of a run that went astray. */
  function CodeTrace(e: Eager, s: Store, ops: seq<Op>): seq<(Eager, Answer)>
    decreases |ops|
  {
    if |ops| == 0 then []
    else
      var step := CodeStep(e, s, ops[0]);
      [step] + if step.1.Astray? then [] else CodeTrace(step.0, StoreStep(e, s, ops[0]), ops[1..])
  }

  lemma {:induction false} StaysConsistent(e: Eager, s: Store, op: Op)
    requires Consistent(e, s)
    ensures Consistent(CodeStep(e, s, op).0, StoreStep(e, s, op))
  {
    hide Join, Split;
  }

  // ----- when the two agree -----

  /** The program does what the eager record does. */
  predicate Right(e: Eager, s: Store, op: Op) {
    match op
    case SetField(i, _) => i >= 0
    case SetNF(n, used) => n >= -1 && (used ==> s.split || n == e.nf)
    case UpdateNF(f, value) => f(s.cell) == f(e.nf) >= -1 && (value == Before ==> s.cell == e.nf)
    case SetFS(fs) => s.split || Split(fs, e.sep.regex, e.record) == e.fields
    case SetOFS(ofs) => s.joined || Join(ofs, e.fields) == e.record
    case _ => true
  }

  /** One operation leaves the same record and gives the same answer exactly under that condition. */
  lemma {:induction false} StepIsEager(e: Eager, s: Store, op: Op)
    requires Consistent(e, s)
    ensures CodeStep(e, s, op) == EagerStep(e, op) <==> Right(e, s, op)
  {
    hide Join, Split;
  }

  predicate AllRight(e: Eager, s: Store, ops: seq<Op>)
    decreases |ops|
  {
    |ops| == 0 || (Right(e, s, ops[0]) && AllRight(EagerStep(e, ops[0]).0, StoreStep(e, s, ops[0]), ops[1..]))
  }

  lemma {:induction false} EagerNeverAstray(e: Eager, op: Op)
    ensures !EagerStep(e, op).1.Astray?
  {
  }

  /** Over every sequence of operations, record and answers are those of the eager record after each
      of them exactly when every operation meets its condition. */
  lemma {:induction false} RunIsEager(e: Eager, s: Store, ops: seq<Op>)
    requires Consistent(e, s)
    ensures CodeTrace(e, s, ops) == EagerTrace(e, ops) <==> AllRight(e, s, ops)
    decreases |ops|
  {
    hide EagerStep, CodeStep, StoreStep, Right, Consistent;
    if |ops| > 0 {
      var op := ops[0];
      var step := EagerStep(e, op);
      var s1 := StoreStep(e, s, op);
      StepIsEager(e, s, op);
      EagerNeverAstray(e, op);
      var mine, other := CodeTrace(e, s, ops), EagerTrace(e, ops);
      assert mine[0] == CodeStep(e, s, op) && other[0] == step;
      if CodeStep(e, s, op) == step {
        StaysConsistent(e, s, op);
        RunIsEager(step.0, s1, ops[1..]);
        assert mine[1..] == CodeTrace(step.0, s1, ops[1..]) && other[1..] == EagerTrace(step.0, ops[1..]);
      }
    }
  }

  // ----- what a script may rely on -----

  /** What the operations alone say of the fields: nothing has split the record since it changed, the
      variable NF is their number, it may be another number, or FS changed before they were split. */
  datatype FieldPhase = Unsplit | Known | Unknown | Resplit

  /** And of the text: it is there, it is to be joined, or OFS changed before it was joined. */
  datatype TextPhase = Joined | Open | Rejoined

  datatype Phase = Phase(fields: FieldPhase, text: TextPhase)

  const START: Phase := Phase(Unsplit, Open)

  function PhaseStep(p: Phase, op: Op): Phase {
    var read := if p.fields == Unsplit then Known else p.fields;
    match op
    case NewRecord(_) => Phase(Unsplit, Joined)
    case GetField(i) => if i == 0 then p.(text := Joined) else p.(fields := read)
    case SetField(i, _) => if i == 0 then Phase(Unsplit, Joined) else Phase(read, Open)
    case GetNF => p.(fields := read)
    case SetNF(_, _) => Phase(if p.fields == Unsplit then Unknown else Known, Open)
    case UpdateNF(_, _) => Phase(Known, Open)
    case SetFS(_) => if p.fields == Unsplit then p.(fields := Resplit) else p
    case SetOFS(_) => if p.text == Open then p.(text := Rejoined) else p
  }

  /** Nothing is read that a change of FS or OFS came too late for; the value of `NF = n` is used only
      on a record that has been split; NF is updated only where the variable is the number of fields. */
  predicate CarefulOp(p: Phase, op: Op) {
    match op
    case GetField(i) => if i == 0 then p.text != Rejoined else p.fields != Resplit
    case SetField(i, _) => i == 0 || (i > 0 && p.fields != Resplit)
    case GetNF => p.fields != Resplit
    case SetNF(_, used) => p.fields != Resplit && (used ==> p.fields != Unsplit)
    case UpdateNF(_, _) => p.fields == Known
    case _ => true
  }

  predicate Careful(p: Phase, ops: seq<Op>)
    decreases |ops|
  {
    |ops| == 0 || (CarefulOp(p, ops[0]) && Careful(PhaseStep(p, ops[0]), ops[1..]))
  }

  /** NF is never set below -1, on the eager record. */
  predicate InRange(e: Eager, ops: seq<Op>)
    decreases |ops|
  {
    |ops| == 0 || (EagerStep(e, ops[0]).0.nf >= -1 && InRange(EagerStep(e, ops[0]).0, ops[1..]))
  }

  /** What holds of the program's record and the eager one in a phase. */
  ghost predicate Follows(c: Eager, s: Store, e: Eager, p: Phase) {
    && Consistent(c, s) && e.Sane() && c.sep == e.sep
    && (p.fields in {Unsplit, Resplit} <==> !s.split)
    && (p.fields != Resplit ==> c.fields == e.fields && c.nf == e.nf)
    && (p.fields == Known ==> s.cell == e.nf)
    && (p.text != Rejoined ==> c.record == e.record)
    && (p.text == Joined ==> s.joined)
  }

  lemma {:induction false} FollowsOn(c: Eager, s: Store, e: Eager, p: Phase, op: Op)
    requires Follows(c, s, e, p) && CarefulOp(p, op) && EagerStep(e, op).0.nf >= -1
    ensures CodeStep(c, s, op).1 == EagerStep(e, op).1
    ensures Follows(CodeStep(c, s, op).0, StoreStep(c, s, op), EagerStep(e, op).0, PhaseStep(p, op))
  {
    hide Join, Split;
  }

  function Answers(trace: seq<(Eager, Answer)>): seq<Answer> {
    seq(|trace|, i requires 0 <= i < |trace| => trace[i].1)
  }

  /** A careful script gets the answers of the eager record. */
  lemma {:induction false} CarefulIsEager(c: Eager, s: Store, e: Eager, p: Phase, ops: seq<Op>)
    requires Follows(c, s, e, p) && Careful(p, ops) && InRange(e, ops)
    ensures Answers(CodeTrace(c, s, ops)) == Answers(EagerTrace(e, ops))
    decreases |ops|
  {
    hide EagerStep, CodeStep, StoreStep, PhaseStep, CarefulOp, Follows;
    if |ops| > 0 {
      var op := ops[0];
      FollowsOn(c, s, e, p, op);
      EagerNeverAstray(e, op);
      var c1, e1 := CodeStep(c, s, op), EagerStep(e, op);
      var s1 := StoreStep(c, s, op);
      CarefulIsEager(c1.0, s1, e1.0, PhaseStep(p, op), ops[1..]);
      AnswersNext(c1, CodeTrace(c1.0, s1, ops[1..]));
      AnswersNext(e1, EagerTrace(e1.0, ops[1..]));
    }
  }

  lemma {:induction false} AnswersNext(step: (Eager, Answer), trace: seq<(Eager, Answer)>)
    ensures Answers([step] + trace) == [step.1] + Answers(trace)
  {
  }

  /** A script that starts so, before any record. */
  lemma {:induction false} CarefulRunIsEager(sep: Separators, ops: seq<Op>)
    requires Careful(START, ops) && InRange(Read(sep, ""), ops)
    ensures Answers(CodeTrace(Read(sep, ""), Store(false, false, 0), ops)) == Answers(EagerTrace(Read(sep, ""), ops))
  {
    hide Careful, InRange, CodeTrace, EagerTrace, Split;
    CarefulIsEager(Read(sep, ""), Store(false, false, 0), Read(sep, ""), START, ops);
  }
}
