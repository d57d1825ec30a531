/**
 awk's current record as the program keeps it: the text of $0, the fields, two flags that say which
 of them is up to date, and the variable NF in the symbol table.
 */
module AwkRecord {
  import opened AwkSplit
  import opened AwkEager

  class Record {
    var sep: Separators
    var record: string
    /** The fields 1 to nf. */
    var fields: seq<string>
    var nf: int
    var recordValid: bool
    var fieldsValid: bool
    /** The variable NF as stored in the symbol table. */
    var nfCell: int

    constructor (sep: Separators)
      ensures Valid() && View() == Read(sep, "") && Stored() == Store(false, false, 0)
    {
      this.sep, record, fields, nf := sep, "", [], 0;
      recordValid, fieldsValid, nfCell := false, false, 0;
    }

    /** One view is up to date, or no record has been read yet. */
    ghost predicate Valid()
      reads this
    {
      && (recordValid || fieldsValid || (record == "" && fields == []))
      && |fields| == (if nf < 0 then 0 else nf) && nf >= -1
    }

    /** The eager record this one stands for. */
    ghost function View(): Eager
      reads this
    {
      var text := if recordValid then record else Join(sep.ofs, fields);
      if fieldsValid then Eager(sep, text, fields, nf)
      else Eager(sep, text, Split(sep.fs, sep.regex, record), |Split(sep.fs, sep.regex, record)|)
    }

    ghost function Stored(): Store
      reads this
    {
      Store(fieldsValid, recordValid, nfCell)
    }

    method SplitRecord()
      requires Valid() && !fieldsValid
      modifies this
      ensures Valid() && View() == old(View()) && Stored() == old(Stored()).(split := true, cell := nf)
      ensures sep == old(sep)
    {
      if sep.fs == " " {
        fields := SplitBlanks(record);
      } else if |sep.fs| == 1 && sep.fs[0] != '\\' {
        fields := SplitSingle(sep.fs[0], record);
      } else if sep.fs == "" {
        fields := SplitEach(record);
      } else if record == [] {
        fields := [[]];
      } else {
        fields := sep.regex(sep.fs, record);
      }
      nf := |fields|;
      fieldsValid := true;
      nfCell := nf;
      if !recordValid {
        EmptyRecord(sep);
      }
    }

    method RebuildRecord()
      requires Valid() && !recordValid
      modifies this
      ensures Valid() && View() == old(View()) && Stored() == old(Stored()).(joined := true)
    {
      record := JoinFields(sep.ofs, fields);
      recordValid := true;
    }

    method GetField(i: int) returns (s: string)
      requires Valid()
      modifies this
      ensures Valid() && View() == old(View()) && s == EagerGet(View(), i)
      ensures Stored() == StoreStep(old(View()), old(Stored()), Op.GetField(i))
    {
      if i == 0 {
        if !recordValid {
          RebuildRecord();
        }
        return record;
      }
      if !fieldsValid {
        SplitRecord();
      }
      if 1 <= i <= nf {
        return fields[i - 1];
      }
      return "";
    }

    /** `ok` says that no element in front of the array is touched; the source does not check. */
    method SetField(i: int, v: string) returns (ok: bool)
      requires Valid()
      modifies this
      ensures Valid() && ok == (i >= 0)
      ensures (View(), if ok then Nothing else Astray) == CodeStep(old(View()), old(Stored()), Op.SetField(i, v))
      ensures Stored() == StoreStep(old(View()), old(Stored()), Op.SetField(i, v))
    {
      hide Join, Split, Empties;
      if i == 0 {
        SetRecord(v);
        return true;
      }
      if !fieldsValid {
        SplitRecord();
      }
      if i < 0 {
        return false;
      }
      ghost var before := fields;
      if i > nf {
        Extend(i);
        nfCell := nf;
      }
      SetAfterExtend(before, i, v);
      fields := fields[i - 1 := v];
      recordValid := false;
      ok := true;
    }

    /** Empty fields up to field n; from NF below zero the first element filled is no field. */
    method Extend(n: int)
      requires Valid() && fieldsValid && n > nf
      modifies `fields, `nf
      ensures fields == WithCount(old(fields), n) && nf == n
    {
      var k := nf + 1;
      while k <= n
        invariant nf + 1 <= k <= n + 1
        invariant |old(fields)| <= |fields| == (if k < 1 then 0 else k - 1)
        invariant fields == old(fields) + Empties(|fields| - |old(fields)|)
      {
        if k >= 1 {
          fields := fields + [""];
        }
        k := k + 1;
      }
      nf := n;
    }

    method SetRecord(text: string)
      requires Valid()
      modifies this
      ensures Valid() && View() == EagerStep(old(View()), NewRecord(text)).0
      ensures Stored() == StoreStep(old(View()), old(Stored()), NewRecord(text))
    {
      record, recordValid, fieldsValid := text, true, false;
    }

    /** NF in an expression. */
    method GetNF() returns (n: int)
      requires Valid()
      modifies this
      ensures Valid() && View() == old(View()) && n == View().nf
      ensures Stored() == StoreStep(old(View()), old(Stored()), Op.GetNF)
    {
      if !fieldsValid {
        SplitRecord();
      }
      return nf;
    }

    /**
     Assignment to NF.  The stored variable is written first; when the fields are not split
     yet, splitting then overwrites it with the old count.  The value of the assignment is read
     back from the variable.
     */
    method SetNF(n: int) returns (ok: bool, value: int)
      requires Valid()
      modifies this
      ensures Valid() && ok == (n >= -1) && value == nfCell
      ensures (View(), if ok then Count(value) else Astray) == CodeStep(old(View()), old(Stored()), Op.SetNF(n, true))
      ensures ok ==> Stored() == StoreStep(old(View()), old(Stored()), Op.SetNF(n, true))
    {
      hide Join, Split;
      nfCell := n;
      if !fieldsValid {
        SplitRecord();
      }
      value := nfCell;
      if n < -1 {
        return false, value;
      }
      ghost var before := fields;
      if n < nf {
        fields, nf := fields[..if n < 0 then 0 else n], n;
      } else if n > nf {
        Extend(n);
      }
      recordValid := false;
      ok := true;
      assert fields == WithCount(before, n);
    }

    /** `NF op= y`, `++NF`, `NF++`: the left side is read from the stored variable, without splitting;
        the value is the one stored, or the one computed from it. */
    method UpdateNF(f: int -> int) returns (ok: bool, before: int, after: int)
      requires Valid()
      modifies this
      ensures Valid() && ok == (f(old(nfCell)) >= -1)
      ensures forall v: Value ::
        (View(), if ok then Chosen(v, before, after) else Astray)
        == CodeStep(old(View()), old(Stored()), Op.UpdateNF(f, v))
      ensures ok ==> forall v: Value :: Stored() == StoreStep(old(View()), old(Stored()), Op.UpdateNF(f, v))
    {
      before := nfCell;
      after := f(before);
      var done, _ := SetNF(after);
      ok := done;
    }

    method Perform(op: Op) returns (a: Answer)
      requires Valid()
      modifies this
      ensures Valid() && (View(), a) == CodeStep(old(View()), old(Stored()), op)
      ensures !a.Astray? ==> Stored() == StoreStep(old(View()), old(Stored()), op)
    {
      a := Nothing;
      match op {
        case NewRecord(text) =>
          SetRecord(text);
        case GetField(i) =>
          var s := GetField(i);
          a := Text(s);
        case SetField(i, v) =>
          var ok := SetField(i, v);
          a := if ok then Nothing else Astray;
        case GetNF =>
          var n := GetNF();
          a := Count(n);
        case SetNF(n, used) =>
          var ok, value := SetNF(n);
          a := if !ok then Astray else if used then Count(value) else Nothing;
        case UpdateNF(f, value) =>
          var ok, before, after := UpdateNF(f);
          a := if ok then Chosen(value, before, after) else Astray;
        case SetFS(fs) =>
          sep := sep.(fs := fs);
        case SetOFS(ofs) =>
          sep := sep.(ofs := ofs);
      }
    }

    /** Any sequence of operations, up to one that goes astray.  After each of them record and answer
        are those of the eager record exactly when every one meets its condition. */
    method PerformAll(ops: seq<Op>) returns (answers: seq<Answer>, ghost trace: seq<(Eager, Answer)>)
      requires Valid()
      modifies this
      ensures Valid() && trace == CodeTrace(old(View()), old(Stored()), ops) && answers == Answers(trace)
      ensures |trace| > 0 ==> View() == trace[|trace| - 1].0
      ensures trace == EagerTrace(old(View()), ops) <==> AllRight(old(View()), old(Stored()), ops)
    {
      hide CodeStep, StoreStep, CodeTrace, EagerTrace, AllRight, Record.View, Record.Stored, Answers;
      answers, trace := [], [];
      ghost var whole := CodeTrace(View(), Stored(), ops);
      IsConsistent();
      RunIsEager(View(), Stored(), ops);
      NoAnswers();
      assert ops[0..] == ops && trace + whole == whole;
      for k := 0 to |ops|
        invariant Valid() && answers == Answers(trace) && (|trace| > 0 ==> View() == trace[|trace| - 1].0)
        invariant trace + CodeTrace(View(), Stored(), ops[k..]) == whole
      {
        assert ops[k..][1..] == ops[k + 1..];
        TraceStep(View(), Stored(), ops[k..], trace, whole);
        var a := Perform(ops[k]);
        AnswersAppend(trace, (View(), a));
        answers, trace := answers + [a], trace + [(View(), a)];
        if a.Astray? {
          return;
        }
      }
      TraceEnd(View(), Stored(), ops[|ops|..]);
      assert trace + [] == trace;
    }

    lemma {:induction false} IsConsistent()
      requires Valid()
      ensures Consistent(View(), Stored())
    {
    }
  }

  lemma {:induction false} TraceEnd(e: Eager, s: Store, ops: seq<Op>)
    requires |ops| == 0
    ensures CodeTrace(e, s, ops) == []
  {
  }

  /** One operation more. */
  lemma {:induction false} TraceStep(
      e: Eager, s: Store, ops: seq<Op>, done: seq<(Eager, Answer)>, whole: seq<(Eager, Answer)>)
    requires |ops| > 0 && done + CodeTrace(e, s, ops) == whole
    ensures var step := CodeStep(e, s, ops[0]);
      if step.1.Astray? then done + [step] == whole
      else (done + [step]) + CodeTrace(step.0, StoreStep(e, s, ops[0]), ops[1..]) == whole
  {
    hide CodeStep, StoreStep;
    var step := CodeStep(e, s, ops[0]);
    var rest := CodeTrace(step.0, StoreStep(e, s, ops[0]), ops[1..]);
    assert done + ([step] + rest) == (done + [step]) + rest;
    assert [step] + [] == [step];
  }

  lemma {:induction false} AnswersAppend(trace: seq<(Eager, Answer)>, step: (Eager, Answer))
    ensures Answers(trace + [step]) == Answers(trace) + [step.1]
  {
  }

  lemma {:induction false} NoAnswers()
    ensures Answers([]) == []
  {
  }

  lemma {:induction false} SetAfterExtend(fields: seq<string>, i: nat, v: string)
    requires i >= 1
    ensures |WithCount(fields, i)| == i
    ensures i > |fields| ==> WithCount(fields, i)[i - 1 := v] == WithField(fields, i, v)
    ensures |WithField(fields, i, v)| == if i > |fields| then i else |fields|
  {
  }

  /** Before the first record both views are empty, whatever the separators. */
  lemma {:induction false} EmptyRecord(sep: Separators)
    ensures Join(sep.ofs, Split(sep.fs, sep.regex, "")) == ""
  {
    assert BlankSplit("") == [] && EachSplit("") == [];
    if |sep.fs| == 1 {
      assert SingleSplit(sep.fs[0], "") == [[]];
    }
  }

  // ----- where the program differs -----

  /** The first of several operations. */
  lemma {:induction false} First(e: Eager, s: Store, op: Op, more: seq<Op>)
    requires !CodeStep(e, s, op).1.Astray?
    ensures Answers(EagerTrace(e, [op] + more))
         == [EagerStep(e, op).1] + Answers(EagerTrace(EagerStep(e, op).0, more))
    ensures Answers(CodeTrace(e, s, [op] + more))
         == [CodeStep(e, s, op).1] + Answers(CodeTrace(CodeStep(e, s, op).0, StoreStep(e, s, op), more))
  {
    hide EagerStep, CodeStep, StoreStep;
    assert ([op] + more)[1..] == more;
    AnswersNext(EagerStep(e, op), EagerTrace(EagerStep(e, op).0, more));
    AnswersNext(CodeStep(e, s, op), CodeTrace(CodeStep(e, s, op).0, StoreStep(e, s, op), more));
  }

  /** The last one. */
  lemma {:induction false} Last(e: Eager, s: Store, op: Op)
    ensures Answers(EagerTrace(e, [op])) == [EagerStep(e, op).1]
    ensures Answers(CodeTrace(e, s, [op])) == [CodeStep(e, s, op).1]
  {
    hide EagerStep, CodeStep, StoreStep;
    assert [op][1..] == [];
  }

  function Plus(k: int): int -> int {
    n => n + k
  }

  /** The value of `NF = n` on a record not split yet is the old count, for every n; the record is as
      it should be. */
  lemma {:induction false} AssignedValueIsOld(e: Eager, s: Store, n: int)
    requires Consistent(e, s) && !s.split && n >= -1
    ensures var op := SetNF(n, true);
      CodeStep(e, s, op).1 == Count(e.nf) && CodeStep(e, s, op).0 == EagerStep(e, op).0
  {
    hide Join, Split;
  }

  lemma {:induction false} TwoWords()
    ensures BlankSplit("a b") == ["a", "b"]
  {
    var s, t := "a b", " b";
    assert DropBlanks(s) == s && s[1..] == t && t[1..] == "b";
    assert WordLength(t) == 0 && WordLength(s) == 1;
    assert s[..1] == "a" && DropBlanks("b") == "b" && DropBlanks(t) == "b";
    assert "b"[1..] == "" && WordLength("") == 0 && WordLength("b") == 1 && "b"[..1] == "b";
    assert DropBlanks("") == "" && BlankSplit("") == [];
    assert BlankSplit(t) == ["b"] + BlankSplit("");
  }

  /** `{ print (NF = 5) }` prints 2 on "a b". */
  lemma {:induction false} PrintsOldCount(regex: Regex, e: Eager, s: Store)
    requires e.sep == Separators(" ", " ", regex)
    ensures var ops := [NewRecord("a b")] + [SetNF(5, true)];
      Answers(CodeTrace(e, s, ops)) == [Nothing, Count(2)] && Answers(EagerTrace(e, ops)) == [Nothing, Count(5)]
  {
    hide Join, BlankSplit, CodeTrace, EagerTrace;
    TwoWords();
    First(e, s, NewRecord("a b"), [SetNF(5, true)]);
    Last(Read(e.sep, "a b"), Store(false, true, s.cell), SetNF(5, true));
  }

  /** `NF--` on the first record, before any field or NF has been read: the variable is still 0, so NF
      becomes -1 and the record empty, whatever its text; `NF -= 2` goes astray. */
  lemma {:induction false} FirstRecordGoesBelow(sep: Separators, text: string)
    ensures var s := StoreStep(Read(sep, ""), Store(false, false, 0), NewRecord(text));
      && CodeStep(Read(sep, text), s, UpdateNF(Plus(-1), After)) == (Eager(sep, "", [], -1), Count(-1))
      && CodeStep(Read(sep, text), s, UpdateNF(Plus(-2), After)).1 == Astray
  {
    hide Split;
  }

  /** `++NF` right after a record was read counts from the NF of the record before, if that had been
      split. */
  lemma {:induction false} UpdateStartsFromPrevious(e: Eager, s: Store, text: string)
    requires Consistent(e, s) && s.split && s.cell == e.nf >= -1
    ensures var ops := [NewRecord(text)] + [UpdateNF(Plus(1), After)];
      && Answers(CodeTrace(e, s, ops)) == [Nothing, Count(e.nf + 1)]
      && Answers(EagerTrace(e, ops)) == [Nothing, Count(Read(e.sep, text).nf + 1)]
  {
    hide Join, Split, CodeTrace, EagerTrace;
    First(e, s, NewRecord(text), [UpdateNF(Plus(1), After)]);
    Last(Read(e.sep, text), Store(false, true, s.cell), UpdateNF(Plus(1), After));
  }

  lemma {:induction false} NoSeparator(c: char, s: string)
    requires c !in s
    ensures SingleSplit(c, s) == [s]
    decreases |s|
  {
    if s != [] {
      NoSeparator(c, s[1..]);
      assert [s[0]] + s[1..] == s;
    }
  }

  /** `{ FS = ":"; print $1 }` splits the record at hand with the new FS. */
  lemma {:induction false} SplitsWithNewFS(regex: Regex, e: Eager, s: Store)
    requires e.sep == Separators(" ", " ", regex)
    ensures var ops := [NewRecord("a b")] + ([SetFS(":")] + [GetField(1)]);
      && Answers(CodeTrace(e, s, ops)) == [Nothing, Nothing, Text("a b")]
      && Answers(EagerTrace(e, ops)) == [Nothing, Nothing, Text("a")]
  {
    hide Join, BlankSplit, SingleSplit, CodeTrace, EagerTrace;
    TwoWords();
    NoSeparator(':', "a b");
    var e1, s1 := Read(e.sep, "a b"), Store(false, true, s.cell);
    First(e, s, NewRecord("a b"), [SetFS(":")] + [GetField(1)]);
    First(e1, s1, SetFS(":"), [GetField(1)]);
    Last(Read(Separators(":", " ", regex), "a b"), s1, GetField(1));
    Last(e1.(sep := Separators(":", " ", regex)), s1, GetField(1));
  }

  /** `{ $1 = "a"; OFS = "-"; print }` joins it with the new OFS. */
  lemma {:induction false} JoinsWithNewOFS(e: Eager, s: Store)
    requires e.sep.ofs == " " && e.fields == ["a", "b"] && e.nf == 2
    ensures var ops := [SetField(1, "a")] + ([SetOFS("-")] + [GetField(0)]);
      && Answers(CodeTrace(e, s, ops)) == [Nothing, Nothing, Text("a-b")]
      && Answers(EagerTrace(e, ops)) == [Nothing, Nothing, Text("a b")]
  {
    hide Join, Split, CodeTrace, EagerTrace;
    JoinTwo(" ");
    JoinTwo("-");
    assert "a" + " " + "b" == "a b" && "a" + "-" + "b" == "a-b";
    assert e.fields[0 := "a"] == e.fields;
    var op := SetField(1, "a");
    var e1, s1 := EagerStep(e, op).0, StoreStep(e, s, op);
    First(e, s, op, [SetOFS("-")] + [GetField(0)]);
    First(e1, s1, SetOFS("-"), [GetField(0)]);
    Last(CodeStep(e1, s1, SetOFS("-")).0, s1, GetField(0));
    Last(EagerStep(e1, SetOFS("-")).0, s1, GetField(0));
  }

  lemma {:induction false} JoinTwo(ofs: string)
    ensures Join(ofs, ["a", "b"]) == "a" + ofs + "b"
  {
    assert ["a", "b"][1..] == ["b"];
  }

  // ----- assigning a field to itself -----

  /** The record is its fields joined: what every operation keeps when FS and OFS are the
      same single character other than space and backslash. */
  ghost predicate IsJoined(e: Eager) {
    e.record == Join(e.sep.ofs, e.fields)
  }

  lemma {:induction false} JoinedAlways(e: Eager, op: Op)
    requires |e.sep.fs| == 1 && e.sep.fs[0] != ' ' && e.sep.fs[0] != '\\' && e.sep.ofs == e.sep.fs
    requires IsJoined(e) && !op.SetFS? && !op.SetOFS?
    ensures IsJoined(EagerStep(e, op).0)
  {
    assert e.sep.fs == [e.sep.fs[0]];
    match op
    case NewRecord(text) => JoinUndoesSplit(e.sep.fs[0], text);
    case SetField(i, v) =>
      if i == 0 {
        JoinUndoesSplit(e.sep.fs[0], v);
      }
    case _ =>
  }

  /** Assigning a field to itself leaves $0 alone exactly when the field exists; beyond NF it
      adds separators, except for $1 of a record without fields. */
  lemma {:induction false} SelfAssignment(e: Eager, i: nat)
    requires e.sep.ofs != "" && IsJoined(e) && i >= 1
    ensures EagerStep(e, Op.SetField(i, EagerGet(e, i))).0.record == e.record
       <==> i <= |e.fields| || (i == 1 && e.fields == [])
  {
    if i <= |e.fields| {
      assert e.fields[i - 1 := e.fields[i - 1]] == e.fields;
    } else {
      var more := i - |e.fields|;
      assert WithField(e.fields, i, "") == e.fields + Empties(more);
      JoinLonger(e.sep.ofs, e.fields, more);
    }
  }

  /** Every empty field after the first adds a separator. */
  lemma {:induction false} JoinLonger(ofs: string, fields: seq<string>, n: nat)
    ensures var total := |Join(ofs, fields + Empties(n))|;
      total == |Join(ofs, fields)| + Times(|ofs|, if fields == [] && n > 0 then n - 1 else n)
    decreases n
  {
    hide Join;
    if n == 0 {
      assert fields + Empties(0) == fields;
    } else {
      JoinLonger(ofs, fields, n - 1);
      assert fields + Empties(n) == (fields + Empties(n - 1)) + [""];
      JoinNext(ofs, fields + Empties(n - 1), "");
      JoinNothing(ofs);
    }
  }

  lemma {:induction false} JoinNothing(ofs: string)
    ensures Join(ofs, []) == ""
  {
  }

  /** k times n, by repeated addition. */
  function Times(k: nat, n: nat): (r: nat)
    ensures r >= n * (if k > 0 then 1 else 0)
  {
    if n == 0 then 0 else k + Times(k, n - 1)
  }
}
