/** Exactly when putting a row in or taking one out leaves every row with its right colours. */
module NeoStale {

  import opened Wrappers
  import opened NeoSyntax
  import opened NeoRows

  /** The text is coloured the same, and leaves the same open, after p as after q. */
  predicate Same(l: Option<Language>, p: int, q: int, s: string) {
    Highlight(l, p, s) == Highlight(l, q, s)
  }

  const BLANK: Row := Row("", "", [], 0)

  /** The rows with a new one at `at`, not painted yet. */
  function WithRow(rows: seq<Row>, at: nat, chars: string, t: Tabs): (r: seq<Row>)
    requires at <= |rows| && t.stop > 0
    ensures |r| == |rows| + 1
  {
    rows[..at] + [Rendered(BLANK, chars, t)] + rows[at..]
  }

  /** row_insert_at: the row count is raised only after the repaint. */
  function Inserted(l: Option<Language>, rows: seq<Row>, at: nat, chars: string, t: Tabs): seq<Row>
    requires at <= |rows| && t.stop > 0
  {
    Update(l, WithRow(rows, at, chars, t), |rows|, at)
  }

  /** What the new row leaves open. */
  function OpenAfter(l: Option<Language>, rows: seq<Row>, at: nat, chars: string, t: Tabs): int
    requires at <= |rows| && t.stop > 0
  {
    Highlight(l, OpenBefore(rows, at), Expand(chars, t, 0)).open
  }

  /** Row j used to follow its predecessor and now follows a row that leaves q open.  Going on
      from there the repaint meets a row whose state does not change, or comes to the last row,
      which it does not repaint, and that one looks the same either way. */
  predicate Settles(l: Option<Language>, rows: seq<Row>, j: nat, q: int)
    requires j < |rows|
    decreases |rows| - j
  {
    if j == |rows| - 1 then Same(l, OpenBefore(rows, j), q, rows[j].render)
    else
      var next := Highlight(l, q, rows[j].render).open;
      next == rows[j].open || Settles(l, rows, j + 1, next)
  }

  /** Can be told before the row is put in. */
  predicate InsertSafe(l: Option<Language>, rows: seq<Row>, at: nat, q: int)
    requires at <= |rows|
  {
    || at == |rows|
    || if q == 0 then Same(l, OpenBefore(rows, at), 0, rows[at].render) else Settles(l, rows, at, q)
  }

  /** now is the buffer while rows were the old rows: from row j on it is the old rows moved down
      by one, row j + 1 follows a row that leaves q open, and all other rows are fresh. */
  ghost predicate Moved(l: Option<Language>, rows: seq<Row>, now: seq<Row>, j: nat, q: int) {
    && |now| == |rows| + 1
    && j < |rows|
    && now[j].open == q
    && now[j + 1..] == rows[j..]
    && AllFresh(l, rows)
    && forall k :: 0 <= k < |now| && k != j + 1 ==> Fresh(l, now, k)
  }

  /** The moved row is fresh in its new place iff the two states colour it alike. */
  lemma {:induction false} MovedFresh(l: Option<Language>, rows: seq<Row>, now: seq<Row>, j: nat, q: int)
    requires Moved(l, rows, now, j, q)
    ensures AllFresh(l, now) <==> Same(l, OpenBefore(rows, j), q, rows[j].render)
  {
    hide Highlight;
    assert Fresh(l, rows, j);
    assert now[j + 1] == now[j + 1..][0] == rows[j];
    assert AllFresh(l, now) <==> Fresh(l, now, j + 1);
  }

  /** One row further down. */
  lemma {:induction false} MovedOn(l: Option<Language>, rows: seq<Row>, now: seq<Row>, j: nat, q: int)
    requires Moved(l, rows, now, j, q)
    ensures var after := now[j + 1 := Repainted(l, now, j + 1)]; var next := Highlight(l, q, rows[j].render).open;
      && after[j + 1].open == next && now[j + 1].open == rows[j].open
      && (next == rows[j].open ==> AllFresh(l, after))
      && (j + 1 < |rows| ==> Moved(l, rows, after, j + 1, next))
  {
    hide Highlight, Fresh;
    var after := now[j + 1 := Repainted(l, now, j + 1)];
    assert now[j + 1] == now[j + 1..][0] == rows[j];
    RepaintIsFresh(l, now, j + 1);
    forall k | 0 <= k < |now| && k != j + 1 && (k != j + 2 || after[j + 1].open == now[j + 1].open)
      ensures Fresh(l, after, k)
    {
      FreshFrame(l, now, after, k);
    }
    if j + 1 < |rows| {
      assert after[j + 2..] == now[j + 1..][1..] == rows[j + 1..];
    }
  }

  /** The repaint that stops one row short. */
  lemma {:induction false} ShortUpdate(l: Option<Language>, rows: seq<Row>, now: seq<Row>, j: nat, q: int)
    requires Moved(l, rows, now, j, q) && j + 1 < |rows|
    ensures AllFresh(l, Update(l, now, |rows|, j + 1)) <==> Settles(l, rows, j, q)
    ensures AllFreshBut(l, Update(l, now, |rows|, j + 1), |rows|)
    decreases |rows| - j
  {
    hide Highlight, AllFresh, Repainted, Same, Moved, AllFreshBut;
    MovedBut(l, rows, now, j, q);
    MovedOn(l, rows, now, j, q);
    MovedSize(l, rows, now, j, q);
    var after := now[j + 1 := Repainted(l, now, j + 1)];
    var next := Highlight(l, q, rows[j].render).open;
    if next != rows[j].open {
      if j + 2 < |rows| {
        ShortUpdate(l, rows, after, j + 1, next);
      } else {
        MovedFresh(l, rows, after, j + 1, next);
        MovedBut(l, rows, after, j + 1, next);
      }
    } else {
      FreshBut(l, after, |rows|);
    }
  }

  /** Every row but row k is fresh. */
  ghost predicate AllFreshBut(l: Option<Language>, rows: seq<Row>, k: nat) {
    forall i :: 0 <= i < |rows| && i != k ==> Fresh(l, rows, i)
  }

  lemma {:induction false} FreshBut(l: Option<Language>, rows: seq<Row>, k: nat)
    requires AllFresh(l, rows)
    ensures AllFreshBut(l, rows, k)
  {
    hide Fresh;
  }

  lemma {:induction false} MovedBut(l: Option<Language>, rows: seq<Row>, now: seq<Row>, j: nat, q: int)
    requires Moved(l, rows, now, j, q)
    ensures AllFreshBut(l, now, j + 1)
  {
    hide Fresh;
  }

  lemma {:induction false} MovedSize(l: Option<Language>, rows: seq<Row>, now: seq<Row>, j: nat, q: int)
    requires Moved(l, rows, now, j, q)
    ensures |now| == |rows| + 1 && j < |rows|
  {
  }

  lemma {:induction false} AfterInsert(l: Option<Language>, rows: seq<Row>, at: nat, chars: string, t: Tabs)
    requires at <= |rows| && t.stop > 0 && AllFresh(l, rows)
    ensures var raw := WithRow(rows, at, chars, t);
      var after := raw[at := Repainted(l, raw, at)];
      && after[at].open == OpenAfter(l, rows, at, chars, t)
      && (at < |rows| ==> Moved(l, rows, after, at, after[at].open))
      && (at == |rows| ==> AllFresh(l, after))
  {
    hide Highlight, Fresh, Expand;
    var raw := WithRow(rows, at, chars, t);
    var after := raw[at := Repainted(l, raw, at)];
    RepaintIsFresh(l, raw, at);
    assert OpenBefore(raw, at) == OpenBefore(rows, at);
    forall k | 0 <= k < |after| && k != at && k != at + 1
      ensures Fresh(l, after, k)
    {
      FreshMoved(l, rows, after, k, if k < at then k else k - 1);
    }
    assert after[at + 1..] == rows[at..];
  }

  lemma {:induction false} FreshMoved(l: Option<Language>, a: seq<Row>, b: seq<Row>, k: nat, j: nat)
    requires AllFresh(l, a) && k < |b| && j < |a| && b[k] == a[j] && OpenBefore(b, k) == OpenBefore(a, j)
    ensures Fresh(l, b, k)
  {
    assert Fresh(l, a, j);
  }

  /** row_insert_at keeps all colours right exactly when InsertSafe says so. */
  lemma {:induction false} InsertExact(l: Option<Language>, rows: seq<Row>, at: nat, chars: string, t: Tabs)
    requires at <= |rows| && t.stop > 0 && AllFresh(l, rows)
    ensures AllFresh(l, Inserted(l, rows, at, chars, t))
       <==> InsertSafe(l, rows, at, OpenAfter(l, rows, at, chars, t))
    ensures AllFreshBut(l, Inserted(l, rows, at, chars, t), LeftOver(rows, at, OpenAfter(l, rows, at, chars, t)))
  {
    hide Highlight, AllFresh, Repainted, Same, Moved, OpenAfter, Expand, AllFreshBut;
    AfterInsert(l, rows, at, chars, t);
    var raw := WithRow(rows, at, chars, t);
    var after := raw[at := Repainted(l, raw, at)];
    var q := OpenAfter(l, rows, at, chars, t);
    assert raw[at].open == 0;
    if at < |rows| {
      if q != 0 && at + 1 < |rows| {
        ShortUpdate(l, rows, after, at, q);
      } else {
        MovedFresh(l, rows, after, at, q);
        MovedBut(l, rows, after, at, q);
      }
    } else {
      FreshBut(l, after, LeftOver(rows, at, q));
    }
  }

  /** The one row, in its new place, that may be left with old colours. */
  function LeftOver(rows: seq<Row>, at: nat, q: int): nat {
    if q == 0 then at + 1 else |rows|
  }

  /** A row that leaves open what it found open can go anywhere. */
  lemma {:induction false} NeutralInsert(l: Option<Language>, rows: seq<Row>, at: nat)
    requires at <= |rows| && AllFresh(l, rows)
    ensures InsertSafe(l, rows, at, OpenBefore(rows, at))
  {
    hide Highlight;
    if at < |rows| {
      assert Fresh(l, rows, at);
    }
  }

  function Deleted(rows: seq<Row>, at: nat): seq<Row>
    requires at < |rows|
  {
    rows[..at] + rows[at + 1..]
  }

  predicate DeleteSafe(l: Option<Language>, rows: seq<Row>, at: nat)
    requires at < |rows|
  {
    at + 1 == |rows| || Same(l, OpenBefore(rows, at), rows[at].open, rows[at + 1].render)
  }

  /** row_delete_at repaints nothing: right exactly when the next row looks the same after the
      row above as after the one taken out. */
  lemma {:induction false} DeleteExact(l: Option<Language>, rows: seq<Row>, at: nat)
    requires at < |rows| && AllFresh(l, rows)
    ensures AllFresh(l, Deleted(rows, at)) <==> DeleteSafe(l, rows, at)
  {
    hide Highlight, Fresh;
    var after := Deleted(rows, at);
    forall k | 0 <= k < |after| && k != at
      ensures Fresh(l, after, k)
    {
      FreshMoved(l, rows, after, k, if k < at then k else k + 1);
    }
    if at + 1 < |rows| {
      assert Fresh(l, rows, at + 1);
      NextFresh(l, rows, at);
      assert AllFresh(l, after) <==> Fresh(l, after, at);
    }
  }

  lemma {:induction false} NextFresh(l: Option<Language>, rows: seq<Row>, at: nat)
    requires at + 1 < |rows| && Fresh(l, rows, at + 1)
    ensures Fresh(l, Deleted(rows, at), at) <==> Same(l, OpenBefore(rows, at), rows[at].open, rows[at + 1].render)
  {
    hide Highlight;
  }

  // ----- edits of one row, and splitting and joining rows -----

  /** New text for row i, rendered and repainted: what every in-row edit ends with. */
  function Edited(l: Option<Language>, rows: seq<Row>, i: nat, chars: string, t: Tabs): seq<Row>
    requires i < |rows| && t.stop > 0
  {
    Update(l, rows[i := Rendered(rows[i], chars, t)], |rows|, i)
  }

  lemma {:induction false} RenderedBut(l: Option<Language>, rows: seq<Row>, i: nat, chars: string, t: Tabs, k: nat)
    requires i < |rows| && t.stop > 0 && k < |rows| && k != i
    ensures Fresh(l, rows[i := Rendered(rows[i], chars, t)], k) <==> Fresh(l, rows, k)
  {
    hide Highlight, Expand;
  }

  /** Any edit inside one row leaves every row with its right colours. */
  lemma {:induction false} EditRestores(l: Option<Language>, rows: seq<Row>, i: nat, chars: string, t: Tabs)
    requires i < |rows| && t.stop > 0 && AllFresh(l, rows)
    ensures AllFresh(l, Edited(l, rows, i, chars, t))
  {
    hide Fresh, Update, Rendered;
    var raw := rows[i := Rendered(rows[i], chars, t)];
    forall k | 0 <= k < |rows| && k != i
      ensures Fresh(l, raw, k)
    {
      RenderedBut(l, rows, i, chars, t, k);
    }
    UpdateRestores(l, raw, i);
  }

  /** Repainting from row i, which now follows state p, gets as far as row k: what each row on
      the way leaves open changes. */
  predicate Reaches(l: Option<Language>, rows: seq<Row>, i: nat, p: int, k: nat)
    requires i < k <= |rows|
    decreases k - i
  {
    var next := Highlight(l, p, rows[i].render).open;
    next != rows[i].open && (i + 1 == k || Reaches(l, rows, i + 1, next, k))
  }

  /** Row k was left with old colours: a repaint from row i mends it exactly when it gets there. */
  lemma {:induction false} UpdateMends(l: Option<Language>, rows: seq<Row>, i: nat, k: nat)
    requires i < k < |rows| && !Fresh(l, rows, k)
    requires forall j :: 0 <= j < |rows| && j != i && j != k ==> Fresh(l, rows, j)
    ensures AllFresh(l, Update(l, rows, |rows|, i)) <==> Reaches(l, rows, i, OpenBefore(rows, i), k)
    decreases k - i
  {
    hide Fresh, Highlight;
    var after := rows[i := Repainted(l, rows, i)];
    RepaintIsFresh(l, rows, i);
    forall j | 0 <= j < |rows| && j != i && (j != i + 1 || after[i].open == rows[i].open)
      ensures Fresh(l, after, j) <==> Fresh(l, rows, j)
    {
      FreshFrame(l, rows, after, j);
    }
    if after[i].open == rows[i].open {
      assert !Fresh(l, after, k);
    } else if i + 1 == k {
      UpdateRestores(l, after, k);
    } else {
      UpdateMends(l, after, i + 1, k);
      ReachesFrame(l, rows, after, i + 1, after[i].open, k);
    }
  }

  lemma {:induction false} ReachesFrame(l: Option<Language>, a: seq<Row>, b: seq<Row>, i: nat, p: int, k: nat)
    requires |a| == |b| && i < k <= |a| && forall j :: i <= j < |a| ==> a[j] == b[j]
    ensures Reaches(l, a, i, p, k) <==> Reaches(l, b, i, p, k)
    decreases k - i
  {
    hide Highlight;
    var next := Highlight(l, p, a[i].render).open;
    if next != a[i].open && i + 1 < k {
      ReachesFrame(l, a, b, i + 1, next, k);
    }
  }

  /** A line break inside row i: the second part goes in as a row, then the first is cut. */
  function Split(l: Option<Language>, rows: seq<Row>, i: nat, head: string, tail: string, t: Tabs): seq<Row>
    requires i < |rows| && t.stop > 0
  {
    Edited(l, Inserted(l, rows, i + 1, tail, t), i, head, t)
  }

  /** From row j down to the row above the last one, what is left open after q is never what is
      left open after p. */
  predicate Apart(l: Option<Language>, rows: seq<Row>, j: nat, q: int, p: int)
    requires j < |rows|
    decreases |rows| - j
  {
    j == |rows| - 1 ||
    (var q', p' := Highlight(l, q, rows[j].render).open, Highlight(l, p, rows[j].render).open;
     q' != p' && Apart(l, rows, j + 1, q', p'))
  }

  /** Can be told before the line is broken: the second part could go in as a row, behind the uncut
      row; or the cut changes what the first part and then the second leave open and, if the new
      row left something open, what every row below leaves open. */
  predicate SplitSafe(l: Option<Language>, rows: seq<Row>, i: nat, head: string, tail: string, t: Tabs)
    requires i < |rows| && t.stop > 0
  {
    var q := OpenAfter(l, rows, i + 1, tail, t);
    var p := Highlight(l, OpenBefore(rows, i), Expand(head, t, 0)).open;
    var q' := Highlight(l, p, Expand(tail, t, 0)).open;
    || InsertSafe(l, rows, i + 1, q)
    || (p != rows[i].open && q' != q && (q == 0 || Apart(l, rows, i + 1, q, q')))
  }

  /** Rows the short repaint has left behind, seen from a second repaint. */
  lemma {:induction false} ShortReaches(l: Option<Language>, rows: seq<Row>, now: seq<Row>, j: nat, q: int, p: int)
    requires Moved(l, rows, now, j, q) && j + 1 < |rows| && !Settles(l, rows, j, q)
    ensures Reaches(l, Update(l, now, |rows|, j + 1), j + 1, p, |rows|) <==> Apart(l, rows, j, q, p)
    decreases |rows| - j
  {
    hide Highlight, AllFresh, Same, Moved, Fresh;
    MovedOn(l, rows, now, j, q);
    MovedSize(l, rows, now, j, q);
    MovedText(l, rows, now, j, q);
    var after := now[j + 1 := Repainted(l, now, j + 1)];
    var next := Highlight(l, q, rows[j].render).open;
    var p' := Highlight(l, p, rows[j].render).open;
    var done := Update(l, now, |rows|, j + 1);
    if j + 2 < |rows| {
      UpdateKeeps(l, after, |rows|, j + 2);
      assert done[j + 1] == done[..j + 2][j + 1] == after[j + 1];
      ShortReaches(l, rows, after, j + 1, next, p');
    }
  }

  lemma {:induction false} MovedText(l: Option<Language>, rows: seq<Row>, now: seq<Row>, j: nat, q: int)
    requires Moved(l, rows, now, j, q)
    ensures now[j + 1] == rows[j]
  {
    assert now[j + 1] == now[j + 1..][0];
  }

  /** The rows around a new one. */
  lemma {:induction false} InsertedRows(l: Option<Language>, rows: seq<Row>, at: nat, chars: string, t: Tabs)
    requires at <= |rows| && t.stop > 0 && AllFresh(l, rows)
    ensures var now := Inserted(l, rows, at, chars, t);
      && now[..at] == rows[..at]
      && now[at].render == Expand(chars, t, 0) && now[at].open == OpenAfter(l, rows, at, chars, t)
  {
    hide Highlight, AllFresh, Moved, OpenAfter, Expand;
    var raw := WithRow(rows, at, chars, t);
    var after := raw[at := Repainted(l, raw, at)];
    AfterInsert(l, rows, at, chars, t);
    UpdateKeeps(l, raw, |rows|, at);
    assert raw[..at] == rows[..at];
    if after[at].open != raw[at].open && at + 1 < |rows| {
      var now := Update(l, after, |rows|, at + 1);
      UpdateKeeps(l, after, |rows|, at + 1);
      assert now[at] == now[..at + 1][at] == after[at];
    }
  }

  /** The repaint from the cut row, in terms of the rows before the break. */
  lemma {:induction false} CutReaches(l: Option<Language>, rows: seq<Row>, i: nat, head: string, tail: string, t: Tabs)
    requires i < |rows| && t.stop > 0 && AllFresh(l, rows)
    requires !InsertSafe(l, rows, i + 1, OpenAfter(l, rows, i + 1, tail, t))
    ensures var q := OpenAfter(l, rows, i + 1, tail, t);
      var now := Inserted(l, rows, i + 1, tail, t);
      |now| == |rows| + 1 && i < LeftOver(rows, i + 1, q) <= |rows|
      && (Reaches(l, now[i := Rendered(now[i], head, t)], i, OpenBefore(now, i), LeftOver(rows, i + 1, q))
          <==> SplitSafe(l, rows, i, head, tail, t))
  {
    hide Highlight, AllFresh, Moved, OpenAfter, Expand, Same, Repainted;
    var at, q := i + 1, OpenAfter(l, rows, i + 1, tail, t);
    var now := Inserted(l, rows, at, tail, t);
    UnsafeNotLast(l, rows, at, q);
    InsertedSize(l, rows, at, tail, t);
    InsertedRows(l, rows, at, tail, t);
    var raw := now[i := Rendered(now[i], head, t)];
    assert now[i] == now[..at][i] == rows[i];
    assert OpenBefore(now, i) == OpenBefore(rows, i) by {
      if i > 0 {
        assert now[i - 1] == now[..at][i - 1] == rows[i - 1];
      }
    }
    var k := LeftOver(rows, at, q);
    var p := Highlight(l, OpenBefore(rows, i), Expand(head, t, 0)).open;
    var q' := Highlight(l, p, Expand(tail, t, 0)).open;
    if q != 0 && at + 1 < |rows| {
      AfterInsert(l, rows, at, tail, t);
      ShortReaches(l, rows, WithRow(rows, at, tail, t)[at := Repainted(l, WithRow(rows, at, tail, t), at)], at, q, q');
      ReachesFrame(l, now, raw, at + 1, q', k);
    }
  }

  lemma {:induction false} SplitExact(l: Option<Language>, rows: seq<Row>, i: nat, head: string, tail: string, t: Tabs)
    requires i < |rows| && t.stop > 0 && AllFresh(l, rows)
    ensures AllFresh(l, Split(l, rows, i, head, tail, t)) <==> SplitSafe(l, rows, i, head, tail, t)
  {
    hide Fresh, Highlight, InsertSafe, Update, Rendered, OpenAfter, Expand, Inserted, Reaches, Apart;
    var q := OpenAfter(l, rows, i + 1, tail, t);
    var now := Inserted(l, rows, i + 1, tail, t);
    InsertExact(l, rows, i + 1, tail, t);
    InsertedSize(l, rows, i + 1, tail, t);
    if InsertSafe(l, rows, i + 1, q) {
      EditRestores(l, now, i, head, t);
    } else {
      var k := LeftOver(rows, i + 1, q);
      CutReaches(l, rows, i, head, tail, t);
      UnsafeNotLast(l, rows, i + 1, q);
      assert !Fresh(l, now, k);
      var raw := now[i := Rendered(now[i], head, t)];
      forall j | 0 <= j < |now| && j != i
        ensures Fresh(l, raw, j) <==> Fresh(l, now, j)
      {
        RenderedBut(l, now, i, head, t, j);
      }
      UpdateMends(l, raw, i, k);
    }
  }

  lemma {:induction false} InsertedSize(l: Option<Language>, rows: seq<Row>, at: nat, chars: string, t: Tabs)
    requires at <= |rows| && t.stop > 0
    ensures |Inserted(l, rows, at, chars, t)| == |rows| + 1
  {
  }

  lemma {:induction false} UnsafeNotLast(l: Option<Language>, rows: seq<Row>, at: nat, q: int)
    requires at <= |rows| && !InsertSafe(l, rows, at, q)
    ensures at < |rows| && at < LeftOver(rows, at, q) <= |rows|
  {
  }

  /** Row i takes the text of row i + 1, which is then taken out. */
  function Merged(l: Option<Language>, rows: seq<Row>, i: nat, t: Tabs): seq<Row>
    requires i + 1 < |rows| && t.stop > 0
  {
    Deleted(Edited(l, rows, i, rows[i].chars + rows[i + 1].chars, t), i + 1)
  }

  /** The row below looks the same after the joined row as it would after its second part again. */
  predicate MergeSafe(l: Option<Language>, rows: seq<Row>, i: nat, t: Tabs)
    requires i + 1 < |rows| && t.stop > 0
  {
    var open := Highlight(l, OpenBefore(rows, i), Expand(rows[i].chars + rows[i + 1].chars, t, 0)).open;
    i + 2 == |rows| || Same(l, open, Highlight(l, open, rows[i + 1].render).open, rows[i + 2].render)
  }

  lemma {:induction false} MergeExact(l: Option<Language>, rows: seq<Row>, i: nat, t: Tabs)
    requires i + 1 < |rows| && t.stop > 0 && AllFresh(l, rows)
    ensures AllFresh(l, Merged(l, rows, i, t)) <==> MergeSafe(l, rows, i, t)
  {
    hide Highlight, Update, Expand, Same, AllFresh;
    var chars := rows[i].chars + rows[i + 1].chars;
    var now := Edited(l, rows, i, chars, t);
    EditRestores(l, rows, i, chars, t);
    DeleteExact(l, now, i + 1);
    var raw := rows[i := Rendered(rows[i], chars, t)];
    UpdateKeeps(l, raw, |raw|, i);
    assert OpenBefore(now, i) == OpenBefore(rows, i) by {
      assert now[..i] == rows[..i];
      if i > 0 {
        assert now[i - 1] == now[..i][i - 1] == rows[..i][i - 1];
      }
    }
    FreshAt(l, now, i);
    FreshAt(l, now, i + 1);
  }

  lemma {:induction false} FreshAt(l: Option<Language>, rows: seq<Row>, i: nat)
    requires AllFresh(l, rows) && i < |rows|
    ensures rows[i].open == Highlight(l, OpenBefore(rows, i), rows[i].render).open
  {
    hide Highlight;
    assert Fresh(l, rows, i);
  }
}
