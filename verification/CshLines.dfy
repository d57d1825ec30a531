/**
 Script lines of the csh interpreter and their block structure.

 A script is a list of lines.  `if`, `foreach` and `while` open a block, `endif` and
 `end` close one.  `Enclosing(lines, k)` is the list of the blocks open just before
 line k, outermost first; it is the reference against which the single-pass
 `ParseBlockStructure` is proved.
 */
module CshLines {

  datatype Line =
    | Blank
    | Command(text: string)
    | If(cond: string)
    | Else
    | Endif
    | Foreach(header: string)
    | While(cond: string)
    | End
    | Break
    | Continue
    | Exit(arg: string)
  {
    predicate Opens() {
      If? || Foreach? || While?
    }

    predicate Closes() {
      Endif? || End?
    }
  }

  /** The lines that opened the blocks still open just before line k. */
  ghost function Enclosing(lines: seq<Line>, k: nat): seq<nat>
    requires k <= |lines|
  {
    if k == 0 then []
    else
      var before := Enclosing(lines, k - 1);
      if lines[k - 1].Opens() then before + [k - 1]
      else if lines[k - 1].Closes() && before != [] then before[..|before| - 1]
      else before
  }

  /** The signed depth before line k, counted without any stack: openers minus closers. */
  ghost function Depth(lines: seq<Line>, k: nat): int
    requires k <= |lines|
  {
    if k == 0 then 0
    else Depth(lines, k - 1) + (if lines[k - 1].Opens() then 1 else if lines[k - 1].Closes() then -1 else 0)
  }

  /** Balanced: no prefix closes more than it opened, the whole closes what it opened,
      and no `else` stands outside every block. */
  ghost predicate Balanced(lines: seq<Line>) {
    && (forall k :: 0 <= k <= |lines| ==> Depth(lines, k) >= 0)
    && Depth(lines, |lines|) == 0
    && (forall k :: 0 <= k < |lines| && lines[k].Else? ==> Depth(lines, k) > 0)
  }

  /** Line c is the closer of opener o: the depth first returns to that of o right after c. */
  ghost predicate Closing(lines: seq<Line>, o: nat, c: nat) {
    && o < c < |lines|
    && lines[o].Opens()
    && lines[c].Closes()
    && Depth(lines, c + 1) == Depth(lines, o)
    && (forall k :: o < k <= c ==> Depth(lines, k) > Depth(lines, o))
  }

  /** `endOf` maps every opener to its closer and every other line to -1. */
  ghost predicate Matching(lines: seq<Line>, endOf: seq<int>) {
    && |endOf| == |lines|
    && (forall o :: 0 <= o < |lines| && lines[o].Opens() ==> 0 <= endOf[o] && Closing(lines, o, endOf[o]))
    && (forall o :: 0 <= o < |lines| && !lines[o].Opens() ==> endOf[o] == -1)
  }

  lemma {:induction false} ClosingUnique(lines: seq<Line>, o: nat, c: nat, d: nat)
    requires Closing(lines, o, c) && Closing(lines, o, d)
    ensures c == d
  {
    if c < d {
      assert false;
    }
  }

  /** As long as no prefix closes too much, the number of enclosing blocks is the depth. */
  lemma {:induction false} EnclosingCounts(lines: seq<Line>, k: nat)
    requires k <= |lines|
    requires forall i :: 0 <= i <= k ==> Depth(lines, i) >= 0
    ensures |Enclosing(lines, k)| == Depth(lines, k)
  {
    if k > 0 {
      EnclosingCounts(lines, k - 1);
      assert Depth(lines, k) >= 0;
    }
  }

  /** Enclosing blocks are earlier openers, and the blocks around an enclosing opener
      are exactly the ones listed before it. */
  lemma {:induction false} EnclosingNested(lines: seq<Line>, k: nat, j: nat)
    requires k <= |lines|
    requires j < |Enclosing(lines, k)|
    ensures Enclosing(lines, k)[j] < k && lines[Enclosing(lines, k)[j]].Opens()
    ensures Enclosing(lines, Enclosing(lines, k)[j]) == Enclosing(lines, k)[..j]
    ensures Enclosing(lines, Enclosing(lines, k)[j] + 1) == Enclosing(lines, k)[..j + 1]
  {
    var before := Enclosing(lines, k - 1);
    var here := Enclosing(lines, k);
    if j < |before| {
      EnclosingNested(lines, k - 1, j);
      assert here[..j] == before[..j];
      assert here[..j + 1] == before[..j + 1];
    } else {
      assert here == before + [k - 1];
      assert here[..j] == before;
      assert here[..j + 1] == here;
    }
  }

  /** While a block stays open the depth stays above the depth at its opener. */
  lemma {:induction false} OpenBlockDepth(lines: seq<Line>, k: nat, j: nat, i: nat)
    requires k <= |lines|
    requires forall i :: 0 <= i <= k ==> Depth(lines, i) >= 0
    requires j < |Enclosing(lines, k)|
    requires Enclosing(lines, k)[j] < i <= k
    ensures Depth(lines, i) > Depth(lines, Enclosing(lines, k)[j])
  {
    var o := Enclosing(lines, k)[j];
    EnclosingNested(lines, k, j);
    EnclosingCounts(lines, k);
    EnclosingCounts(lines, o);
    if i < k {
      var before := Enclosing(lines, k - 1);
      if j < |before| {
        OpenBlockDepth(lines, k - 1, j, i);
      } else {
        assert false;
      }
    }
  }

  /** The closer of the innermost block open before c is c, whenever line c closes. */
  lemma {:induction false} InnermostCloses(lines: seq<Line>, c: nat)
    requires c < |lines| && lines[c].Closes()
    requires forall i :: 0 <= i <= c ==> Depth(lines, i) >= 0
    requires Depth(lines, c) > 0
    ensures |Enclosing(lines, c)| > 0
    ensures Closing(lines, Enclosing(lines, c)[|Enclosing(lines, c)| - 1], c)
  {
    EnclosingCounts(lines, c);
    var e := Enclosing(lines, c);
    var j := |e| - 1;
    var o := e[j];
    EnclosingNested(lines, c, j);
    EnclosingCounts(lines, o);
    forall k | o < k <= c
      ensures Depth(lines, k) > Depth(lines, o)
    {
      OpenBlockDepth(lines, c, j, k);
    }
  }

  /** The blocks enclosing a closer are those of its opener and the opener itself. */
  lemma {:induction false} CloserEnclosing(lines: seq<Line>, o: nat, c: nat)
    requires Closing(lines, o, c)
    requires forall i :: 0 <= i <= |lines| ==> Depth(lines, i) >= 0
    ensures Enclosing(lines, c) == Enclosing(lines, o) + [o]
    ensures Enclosing(lines, c + 1) == Enclosing(lines, o)
  {
    StillOpen(lines, o, c, c);
    EnclosingCounts(lines, c);
    EnclosingCounts(lines, o);
    assert Depth(lines, c) == Depth(lines, o) + 1;
    var e := Enclosing(lines, c);
    assert e[..|e| - 1] == Enclosing(lines, o);
  }

  lemma {:induction false} StillOpen(lines: seq<Line>, o: nat, c: nat, k: nat)
    requires Closing(lines, o, c)
    requires o < k <= c
    requires forall i :: 0 <= i <= |lines| ==> Depth(lines, i) >= 0
    ensures |Enclosing(lines, k)| > |Enclosing(lines, o)|
    ensures Enclosing(lines, k)[..|Enclosing(lines, o)| + 1] == Enclosing(lines, o) + [o]
  {
    EnclosingCounts(lines, k);
    EnclosingCounts(lines, o);
    var n := |Enclosing(lines, o)|;
    if k == o + 1 {
      assert Enclosing(lines, k) == Enclosing(lines, o) + [o];
    } else {
      StillOpen(lines, o, c, k - 1);
      var before := Enclosing(lines, k - 1);
      var here := Enclosing(lines, k);
      assert n + 1 <= |here|;
      assert here[..n + 1] == before[..n + 1];
    }
  }

  /** What the pass knows before line i: the stack is the enclosing blocks, the recorded
      pairs are right, and the openers without a recorded closer are still open. */
  ghost predicate ParsedUpTo(lines: seq<Line>, i: nat, stack: seq<int>, ends: seq<int>)
    requires i <= |lines|
  {
    && |ends| == |lines|
    && (forall k :: 0 <= k <= i ==> Depth(lines, k) >= 0)
    && (forall k :: 0 <= k < i && lines[k].Else? ==> Depth(lines, k) > 0)
    && stack == Enclosing(lines, i)
    && (forall o :: 0 <= o < |lines| && ends[o] != -1 ==> 0 <= ends[o] && Closing(lines, o, ends[o]))
    && (forall o :: 0 <= o < i && lines[o].Opens() && ends[o] == -1 ==> o in stack)
  }

  lemma {:induction false} ParseStarts(lines: seq<Line>, ends: seq<int>)
    requires |ends| == |lines| && forall o :: 0 <= o < |ends| ==> ends[o] == -1
    ensures ParsedUpTo(lines, 0, [], ends)
  {
  }

  lemma {:induction false} ParseOpens(lines: seq<Line>, i: nat, stack: seq<int>, ends: seq<int>)
    requires i < |lines| && ParsedUpTo(lines, i, stack, ends) && lines[i].Opens()
    ensures ParsedUpTo(lines, i + 1, stack + [i], ends)
  {
    hide Closing, Enclosing, Depth;
    AfterOpener(lines, i);
  }

  lemma {:induction false} AfterOpener(lines: seq<Line>, i: nat)
    requires i < |lines| && lines[i].Opens()
    ensures Depth(lines, i + 1) == Depth(lines, i) + 1 && Enclosing(lines, i + 1) == Enclosing(lines, i) + [i]
  {
  }

  lemma {:induction false} ParseStays(lines: seq<Line>, i: nat, stack: seq<int>, ends: seq<int>)
    requires i < |lines| && ParsedUpTo(lines, i, stack, ends)
    requires !lines[i].Opens() && !lines[i].Closes() && (lines[i].Else? ==> stack != [])
    ensures ParsedUpTo(lines, i + 1, stack, ends)
  {
    hide Closing, Enclosing, Depth;
    EnclosingCounts(lines, i);
    AfterOther(lines, i);
  }

  lemma {:induction false} AfterOther(lines: seq<Line>, i: nat)
    requires i < |lines| && !lines[i].Opens() && !lines[i].Closes()
    ensures Depth(lines, i + 1) == Depth(lines, i) && Enclosing(lines, i + 1) == Enclosing(lines, i)
  {
  }

  lemma {:induction false} ParseCloses(lines: seq<Line>, i: nat, stack: seq<int>, ends: seq<int>)
    requires i < |lines| && ParsedUpTo(lines, i, stack, ends) && lines[i].Closes() && stack != []
    ensures 0 <= stack[|stack| - 1] < |lines|
    ensures ParsedUpTo(lines, i + 1, stack[..|stack| - 1], ends[stack[|stack| - 1] := i])
  {
    hide Closing, Enclosing, Depth;
    EnclosingCounts(lines, i);
    InnermostCloses(lines, i);
    EnclosingNested(lines, i, |stack| - 1);
    AfterCloser(lines, i);
    StackWithoutTop(stack);
  }

  /** A closer takes one off the depth and the innermost block off the enclosing ones. */
  lemma {:induction false} AfterCloser(lines: seq<Line>, i: nat)
    requires i < |lines| && lines[i].Closes() && Enclosing(lines, i) != []
    ensures Depth(lines, i + 1) == Depth(lines, i) - 1
    ensures Enclosing(lines, i + 1) == Enclosing(lines, i)[..|Enclosing(lines, i)| - 1]
  {
  }

  lemma {:induction false} StackWithoutTop(stack: seq<int>)
    requires stack != []
    ensures forall p :: p in stack && p != stack[|stack| - 1] ==> p in stack[..|stack| - 1]
  {
    assert stack == stack[..|stack| - 1] + [stack[|stack| - 1]];
  }

  /** The pass rejects a list only when it is unbalanced, accepts it only when balanced. */
  lemma {:induction false} ParseVerdict(lines: seq<Line>, i: nat, stack: seq<int>, ends: seq<int>)
    requires i <= |lines| && ParsedUpTo(lines, i, stack, ends)
    ensures i < |lines| && stack == [] && (lines[i].Else? || lines[i].Closes()) ==> !Balanced(lines)
    ensures i == |lines| ==> (Balanced(lines) <==> stack == [])
    ensures i == |lines| && stack == [] ==> Matching(lines, ends)
  {
    EnclosingCounts(lines, i);
    if i < |lines| && stack == [] && lines[i].Closes() {
      assert Depth(lines, i + 1) < 0;
    }
  }

  /**
   The one pass that pairs openers with closers, with the explicit stack of the source.
   It succeeds on exactly the balanced line lists, and then pairs every opener with its closer.
   */
  method ParseBlockStructure(lines: seq<Line>) returns (ok: bool, endOf: seq<int>)
    ensures ok <==> Balanced(lines)
    ensures ok ==> Matching(lines, endOf) && |endOf| == |lines|
  {
    var ends := new int[|lines|](_ => -1);
    var stack := new int[|lines|];
    var sp := 0;
    hide ParsedUpTo, Balanced, Matching;
    endOf := [];
    assert ParsedUpTo(lines, 0, [], ends[..]) by { ParseStarts(lines, ends[..]); }
    assert stack[..0] == [];
    for i := 0 to |lines|
      invariant 0 <= sp <= i
      invariant ParsedUpTo(lines, i, stack[..sp], ends[..])
    {
      var line := lines[i];
      ParseVerdict(lines, i, stack[..sp], ends[..]);
      ghost var open, paired := stack[..sp], ends[..];
      if line.Opens() {
        ParseOpens(lines, i, open, paired);
        stack[sp] := i;
        sp := sp + 1;
        assert stack[..sp] == open + [i] && ends[..] == paired;
      } else if line.Else? {
        if sp == 0 {
          return false, [];
        }
        ParseStays(lines, i, open, paired);
      } else if line.Closes() {
        if sp == 0 {
          return false, [];
        }
        ParseCloses(lines, i, open, paired);
        sp := sp - 1;
        var start := stack[sp];
        ends[start] := i;
        assert stack[..sp] == open[..|open| - 1] && ends[..] == paired[start := i];
      } else {
        ParseStays(lines, i, open, paired);
      }
    }
    ParseVerdict(lines, |lines|, stack[..sp], ends[..]);
    ok, endOf := sp == 0, ends[..];
  }
}
