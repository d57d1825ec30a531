/**
 The rows of neo's buffer and their colours.  After an edit only the edited row is repainted,
 and then the rows below it for as long as what they leave open changes.
 */
module NeoRows {

  import opened Wrappers
  import opened NeoSyntax

  datatype Row = Row(chars: string, render: string, hl: seq<Class>, open: int)

  // ----- rendering -----

  /** How tabs are shown. */
  datatype Tabs = Tabs(stop: nat, show: bool)

  function Pad(n: nat, c: char): (r: string)
    ensures |r| == n
  {
    seq(n, _ => c)
  }

  /** A tab that starts in column `col`: a mark, and filling up to the next stop. */
  function TabText(t: Tabs, col: nat): (r: string)
    requires t.stop > 0
    ensures 0 < |r| <= t.stop && (col + |r|) % t.stop == 0
  {
    Advances(col, t.stop);
    [if t.show then '>' else ' '] + Pad(t.stop - col % t.stop - 1, if t.show then '.' else ' ')
  }

  lemma {:induction false} Advances(col: nat, stop: nat)
    requires stop > 0
    ensures (col + (stop - col % stop)) % stop == 0
  {
    var n := col + (stop - col % stop);
    var q := col / stop;
    assert n == q * stop + stop;
    assert n / stop * stop + n % stop == n;
    Quotient(n / stop, q + 1, n % stop, stop);
  }

  lemma {:induction false} Quotient(a: nat, b: nat, r: nat, m: nat)
    requires r < m && a * m + r == b * m
    ensures r == 0
    decreases b
  {
    if a == 0 {
      if b > 0 {
        assert b * m == (b - 1) * m + m;
      }
    } else if b == 0 {
    } else {
      assert a * m == (a - 1) * m + m && b * m == (b - 1) * m + m;
      Quotient(a - 1, b - 1, r, m);
    }
  }

  /** There is no stop between a column and the one a tab goes to. */
  lemma {:induction false} NextStop(col: nat, s: nat, stop: nat)
    requires stop > 0 && col < s <= col + (stop - col % stop) && s % stop == 0
    ensures s == col + (stop - col % stop)
  {
    var n := col + (stop - col % stop);
    Advances(col, stop);
    assert s / stop * stop == s && n / stop * stop == n;
    Quotient(s / stop, n / stop, n - s, stop);
  }

  function Expand(chars: string, t: Tabs, col: nat): string
    requires t.stop > 0
    decreases |chars|
  {
    if chars == "" then ""
    else
      var first := if chars[0] == '\t' then TabText(t, col) else [chars[0]];
      first + Expand(chars[1..], t, col + |first|)
  }

  /** A row as row_update leaves it, before it is painted. */
  function Rendered(r: Row, chars: string, t: Tabs): Row
    requires t.stop > 0
  {
    r.(chars := chars, render := Expand(chars, t, 0))
  }

  // ----- painting -----

  /** What the row before row i leaves open. */
  function OpenBefore(rows: seq<Row>, i: nat): int
    requires i <= |rows|
  {
    if i == 0 then 0 else rows[i - 1].open
  }

  function Repainted(l: Option<Language>, rows: seq<Row>, i: nat): Row
    requires i < |rows|
  {
    var p := Highlight(l, OpenBefore(rows, i), rows[i].render);
    rows[i].(hl := p.hl, open := p.open)
  }

  /** Row i has the colours a full repaint from the top would give it, if the rows above do. */
  predicate Fresh(l: Option<Language>, rows: seq<Row>, i: nat)
    requires i < |rows|
  {
    rows[i] == Repainted(l, rows, i)
  }

  ghost predicate AllFresh(l: Option<Language>, rows: seq<Row>) {
    forall i :: 0 <= i < |rows| ==> Fresh(l, rows, i)
  }

  /** The rows painted from the top, whatever colours they had. */
  function PaintedAll(l: Option<Language>, rows: seq<Row>): (r: seq<Row>)
    ensures |r| == |rows|
    decreases |rows|
  {
    if rows == [] then []
    else
      var above := PaintedAll(l, rows[..|rows| - 1]);
      var last := rows[|rows| - 1];
      var p := Highlight(l, OpenBefore(above, |above|), last.render);
      above + [last.(hl := p.hl, open := p.open)]
  }

  /** Every row is fresh exactly when the buffer looks like a full repaint from the top. */
  lemma {:induction false} FreshIsPainted(l: Option<Language>, rows: seq<Row>)
    ensures AllFresh(l, rows) <==> rows == PaintedAll(l, rows)
    decreases |rows|
  {
    hide Highlight, Fresh, AllFresh;
    if rows == [] {
      NothingFresh(l);
    } else {
      var n := |rows| - 1;
      FreshIsPainted(l, rows[..n]);
      FreshSplit(l, rows);
      FreshLast(l, rows);
      var all := PaintedAll(l, rows[..n]);
      assert rows == rows[..n] + [rows[n]];
      assert PaintedAll(l, rows)[..n] == all;
    }
  }

  lemma {:induction false} NothingFresh(l: Option<Language>)
    ensures AllFresh(l, [])
  {
  }

  lemma {:induction false} FreshSplit(l: Option<Language>, rows: seq<Row>)
    requires rows != []
    ensures var n := |rows| - 1; AllFresh(l, rows) <==> AllFresh(l, rows[..n]) && Fresh(l, rows, n)
  {
    hide Fresh;
    var n := |rows| - 1;
    forall i | 0 <= i < n
      ensures Fresh(l, rows[..n], i) <==> Fresh(l, rows, i)
    {
      FreshAbove(l, rows, n, i);
    }
  }

  lemma {:induction false} FreshAbove(l: Option<Language>, rows: seq<Row>, n: nat, i: nat)
    requires i < n <= |rows|
    ensures Fresh(l, rows[..n], i) <==> Fresh(l, rows, i)
  {
  }

  lemma {:induction false} FreshLast(l: Option<Language>, rows: seq<Row>)
    requires rows != []
    ensures var n := |rows| - 1;
      var p := Highlight(l, OpenBefore(rows[..n], n), rows[n].render);
      Fresh(l, rows, n) <==> rows[n] == rows[n].(hl := p.hl, open := p.open)
  {
    hide Highlight;
  }

  /** editor_update_syntax on the first n rows: repaint row i, and go on while the state left
      open changes. */
  function Update(l: Option<Language>, rows: seq<Row>, n: nat, i: nat): (r: seq<Row>)
    requires i < |rows| && n <= |rows|
    ensures |r| == |rows|
    decreases |rows| - i
  {
    var after := rows[i := Repainted(l, rows, i)];
    if after[i].open != rows[i].open && i + 1 < n then Update(l, after, n, i + 1) else after
  }

  predicate SameText(a: seq<Row>, b: seq<Row>) {
    |a| == |b| && forall i :: 0 <= i < |a| ==> a[i].chars == b[i].chars && a[i].render == b[i].render
  }

  /** Painting changes no text and nothing above. */
  lemma {:induction false} UpdateKeeps(l: Option<Language>, rows: seq<Row>, n: nat, i: nat)
    requires i < |rows| && n <= |rows|
    ensures SameText(rows, Update(l, rows, n, i))
    ensures Update(l, rows, n, i)[..i] == rows[..i]
    decreases |rows| - i
  {
    hide Highlight;
    var after := rows[i := Repainted(l, rows, i)];
    if after[i].open != rows[i].open && i + 1 < n {
      UpdateKeeps(l, after, n, i + 1);
      assert Update(l, rows, n, i)[..i] == Update(l, after, n, i + 1)[..i + 1][..i] == rows[..i];
    }
  }

  /** Only rows i and i + 1 look at row i. */
  lemma {:induction false} FreshFrame(l: Option<Language>, a: seq<Row>, b: seq<Row>, k: nat)
    requires |a| == |b| && k < |a| && a[k] == b[k] && OpenBefore(a, k) == OpenBefore(b, k)
    ensures Fresh(l, a, k) <==> Fresh(l, b, k)
  {
  }

  lemma {:induction false} RepaintIsFresh(l: Option<Language>, rows: seq<Row>, i: nat)
    requires i < |rows|
    ensures Fresh(l, rows[i := Repainted(l, rows, i)], i)
  {
  }

  /** If every row but row i was fresh, the early-stopping repaint makes all fresh again. */
  lemma {:induction false} UpdateRestores(l: Option<Language>, rows: seq<Row>, i: nat)
    requires i < |rows| && forall k :: 0 <= k < |rows| && k != i ==> Fresh(l, rows, k)
    ensures AllFresh(l, Update(l, rows, |rows|, i))
    decreases |rows| - i
  {
    hide Fresh, Repainted;
    var after := rows[i := Repainted(l, rows, i)];
    RepaintIsFresh(l, rows, i);
    forall k | 0 <= k < |rows| && k != i && k != i + 1
      ensures Fresh(l, after, k)
    {
      FreshFrame(l, rows, after, k);
    }
    if after[i].open == rows[i].open {
      if i + 1 < |rows| {
        FreshFrame(l, rows, after, i + 1);
      }
    } else if i + 1 < |rows| {
      UpdateRestores(l, after, i + 1);
    }
  }

  /** The rows above i and row i itself are fresh after the repaint, whatever is below. */
  lemma {:induction false} UpdateReaches(l: Option<Language>, rows: seq<Row>, n: nat, i: nat)
    requires i < |rows| && n <= |rows| && forall k :: 0 <= k < i ==> Fresh(l, rows, k)
    ensures forall k :: 0 <= k <= i ==> Fresh(l, Update(l, rows, n, i), k)
    decreases |rows| - i
  {
    hide Fresh, Repainted;
    var after := rows[i := Repainted(l, rows, i)];
    RepaintIsFresh(l, rows, i);
    forall k | 0 <= k < i
      ensures Fresh(l, after, k)
    {
      FreshFrame(l, rows, after, k);
    }
    if after[i].open != rows[i].open && i + 1 < n {
      UpdateReaches(l, after, n, i + 1);
    }
  }

  /** Text without tabs is shown as it is. */
  lemma {:induction false} ExpandPlain(chars: string, t: Tabs, col: nat)
    requires t.stop > 0 && forall i :: 0 <= i < |chars| ==> chars[i] != '\t'
    ensures Expand(chars, t, col) == chars
    decreases |chars|
  {
    if chars != "" {
      ExpandPlain(chars[1..], t, col + 1);
    }
  }

  /** A row is shown part by part, each from the column where the one before it ends. */
  lemma {:induction false} ExpandAppend(a: string, b: string, t: Tabs, col: nat)
    requires t.stop > 0
    ensures Expand(a + b, t, col) == Expand(a, t, col) + Expand(b, t, col + |Expand(a, t, col)|)
    decreases |a|
  {
    hide TabText;
    if a == "" {
      assert a + b == b;
    } else {
      var first := if a[0] == '\t' then TabText(t, col) else [a[0]];
      assert (a + b)[1..] == a[1..] + b;
      ExpandAppend(a[1..], b, t, col + |first|);
    }
  }

  /** A tab goes to the next column that is a multiple of the stop; it is shown as blanks, or as an
      angle and dots. */
  lemma {:induction false} ExpandTab(t: Tabs, col: nat, k: nat)
    requires t.stop > 0
    ensures var r := Expand("\t", t, col);
      && 0 < |r| <= t.stop
      && (col + |r|) % t.stop == 0
      && (k < |r| ==> r[k] == if !t.show then ' ' else if k == 0 then '>' else '.')
  {
    var c := "\t";
    assert c[1..] == "";
    assert Expand(c, t, col) == TabText(t, col) + "";
  }
}
