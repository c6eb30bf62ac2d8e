/** The coordinate-smoothing pass `arrangeXandYdata` (main.py:69-127).

    The table is cut into runs. A run starts at an anchor row and takes in every
    following row whose x and y both lie within Radius of the anchor's; the first
    row that does not becomes the anchor of the next run. When a run is closed its
    anchor row gets the truncated mean of the run's x values and the other rows of
    the run get x = "?", so that a later filter deletes them. The last run is never
    closed, y is never written, and no other column changes.

    `Smooth` states this run by run over the input columns; `ArrangeXandYdata`
    follows the script's loop, reading each row from the table it is rewriting,
    and is proved to compute `Smooth`. */
module Smoothing {
  import opened Table
  import opened Seqs

  /** Half-width of the square around an anchor that a row must fall in to join its run. */
  const Radius := 7

  /** Row `r` joins the run anchored at `anchor` (the test at main.py:84). */
  predicate Joins(anchor: Row, r: Row)
    requires Known(anchor) && Known(r)
  {
    && anchor.x.v - Radius <= r.x.v <= anchor.x.v + Radius
    && anchor.y.v - Radius <= r.y.v <= anchor.y.v + Radius
  }

  /** Scanning from `j`, the first row that does not join the run anchored at `s`,
      or |rows| when every remaining row joins it. */
  function RunEnd(rows: seq<Row>, s: nat, j: nat): (e: nat)
    requires AllKnown(rows) && s < j <= |rows|
    ensures j <= e <= |rows|
    ensures forall k :: j <= k < e ==> Joins(rows[s], rows[k])
    ensures e < |rows| ==> !Joins(rows[s], rows[e])
    decreases |rows| - j
  {
    if j == |rows| then j
    else if Joins(rows[s], rows[j]) then RunEnd(rows, s, j + 1)
    else j
  }

  /** The x values of rows a .. b-1. */
  function Xs(rows: seq<Row>, a: nat, b: nat): (xs: seq<int>)
    requires AllKnown(rows) && a <= b <= |rows|
  {
    seq(b - a, k requires 0 <= k < b - a => rows[a + k].x.v)
  }

  /** `int(sum(x_array) / len(x_array))` for the run of rows a .. b-1: the mean of
      its x values, truncated toward zero. */
  function RunMean(rows: seq<Row>, a: nat, b: nat): (mean: int)
    requires AllKnown(rows) && a < b <= |rows|
  {
    TruncDiv(Sum(Xs(rows, a, b)), b - a)
  }

  /** The run of rows a .. b-1 as written back when it is closed: the anchor takes
      the mean x, every later row of the run "?". */
  function CloseRun(rows: seq<Row>, a: nat, b: nat): (w: seq<Row>)
    requires AllKnown(rows) && a < b <= |rows|
    ensures |w| == b - a
  {
    seq(b - a, k requires 0 <= k < b - a =>
      if k == 0 then rows[a].(x := Val(RunMean(rows, a, b))) else rows[a + k].(x := Question))
  }

  /** Closing a run writes x and nothing else. */
  lemma CloseRunKeepsOtherColumns(rows: seq<Row>, a: nat, b: nat)
    requires AllKnown(rows) && a < b <= |rows|
    ensures forall k :: a <= k < b ==> SameButX(CloseRun(rows, a, b)[k - a], rows[k])
  {
    forall k | a <= k < b
      ensures SameButX(CloseRun(rows, a, b)[k - a], rows[k])
    {
      var w := CloseRun(rows, a, b)[k - a];
      assert w.x == Question || w.x.Val?;
      assert w.(x := rows[k].x) == rows[k];
    }
  }

  /** The whole table once every run from the anchor `s` onward has been smoothed;
      rows before `s` are as given. */
  function SmoothFrom(rows: seq<Row>, s: nat): (out: seq<Row>)
    requires AllKnown(rows) && s <= |rows|
    ensures |out| == |rows|
    ensures forall k :: 0 <= k < s ==> out[k] == rows[k]
    decreases |rows| - s
  {
    if s == |rows| then rows
    else
      var e := RunEnd(rows, s, s + 1);
      if e == |rows| then rows
      else
        var rest := SmoothFrom(rows, e);
        var closed := CloseRun(rows, s, e);
        seq(|rows|, k requires 0 <= k < |rows| => if s <= k < e then closed[k - s] else rest[k])
  }

  /** The smoothed table: same rows and length, only x ever rewritten. */
  function Smooth(rows: seq<Row>): (out: seq<Row>)
    requires AllKnown(rows)
    ensures |out| == |rows|
    ensures forall k :: 0 <= k < |rows| ==> SameButX(out[k], rows[k])
  {
    SmoothKeepsOtherColumns(rows, 0);
    SmoothFrom(rows, 0)
  }

  /** Smoothing writes x and nothing else. */
  lemma {:induction false} SmoothKeepsOtherColumns(rows: seq<Row>, s: nat)
    requires AllKnown(rows) && s <= |rows|
    ensures forall k :: 0 <= k < |rows| ==> SameButX(SmoothFrom(rows, s)[k], rows[k])
    decreases |rows| - s
  {
    if s < |rows| {
      var e := RunEnd(rows, s, s + 1);
      if e < |rows| {
        SmoothKeepsOtherColumns(rows, e);
        SmoothFromClosed(rows, s, e);
        CloseRunKeepsOtherColumns(rows, s, e);
      }
    }
  }

  /** The anchors of the runs from `s` onward, in order. Each run takes in exactly
      the rows up to the next anchor, all of which join it; the next anchor is the
      first row that does not; the final run reaches the end of the table. */
  function Starts(rows: seq<Row>, s: nat): (st: seq<nat>)
    requires AllKnown(rows) && s < |rows|
    ensures |st| > 0 && st[0] == s
    ensures forall j :: 0 <= j < |st| ==> s <= st[j] < |rows|
    ensures forall j :: 0 <= j < |st| - 1 ==> st[j] < st[j + 1]
    decreases |rows| - s
  {
    var e := RunEnd(rows, s, s + 1);
    if e == |rows| then [s] else [s] + Starts(rows, e)
  }

  /** The join rule, within a run: every row from an anchor up to the next anchor
      lies within Radius of that anchor (the run's first row, not the row before it). */
  lemma {:induction false} RunsJoinTheirAnchor(rows: seq<Row>, s: nat)
    requires AllKnown(rows) && s < |rows|
    ensures forall j, k :: 0 <= j < |Starts(rows, s)| - 1 && Starts(rows, s)[j] <= k < Starts(rows, s)[j + 1] ==>
      Joins(rows[Starts(rows, s)[j]], rows[k])
    decreases |rows| - s
  {
    var e := RunEnd(rows, s, s + 1);
    if e < |rows| {
      RunsJoinTheirAnchor(rows, e);
      StartsStep(rows, s, e);
      var st, st' := Starts(rows, s), Starts(rows, e);
      forall j, k | 0 <= j < |st| - 1 && st[j] <= k < st[j + 1]
        ensures Joins(rows[st[j]], rows[k])
      {
        if j > 0 {
          assert st[j] == st'[j - 1] && st[j + 1] == st'[j];
        }
      }
    }
  }

  /** The join rule, for the final run: every row from the last anchor to the end of
      the table lies within Radius of that anchor. */
  lemma {:induction false} FinalRunJoinsAnchor(rows: seq<Row>, s: nat)
    requires AllKnown(rows) && s < |rows|
    ensures forall k :: Starts(rows, s)[|Starts(rows, s)| - 1] <= k < |rows| ==>
      Joins(rows[Starts(rows, s)[|Starts(rows, s)| - 1]], rows[k])
    decreases |rows| - s
  {
    var e := RunEnd(rows, s, s + 1);
    if e < |rows| {
      FinalRunJoinsAnchor(rows, e);
      StartsStep(rows, s, e);
    }
  }

  /** The join rule, between runs: each anchor after the first is a row that does
      not join the run before it. */
  lemma {:induction false} AnchorsBreakRuns(rows: seq<Row>, s: nat)
    requires AllKnown(rows) && s < |rows|
    ensures forall j :: 0 <= j < |Starts(rows, s)| - 1 ==>
      !Joins(rows[Starts(rows, s)[j]], rows[Starts(rows, s)[j + 1]])
    decreases |rows| - s
  {
    var e := RunEnd(rows, s, s + 1);
    if e < |rows| {
      AnchorsBreakRuns(rows, e);
      StartsStep(rows, s, e);
      var st, st' := Starts(rows, s), Starts(rows, e);
      forall j | 0 <= j < |st| - 1
        ensures !Joins(rows[st[j]], rows[st[j + 1]])
      {
        if j > 0 {
          assert st[j] == st'[j - 1] && st[j + 1] == st'[j];
        }
      }
    }
  }

  /** Rows that all join the anchor do not move the end of its run. */
  lemma {:induction false} RunEndSkip(rows: seq<Row>, s: nat, j: nat, m: nat)
    requires AllKnown(rows) && s < j <= m <= |rows|
    requires forall k :: j <= k < m ==> Joins(rows[s], rows[k])
    ensures RunEnd(rows, s, j) == RunEnd(rows, s, m)
    decreases m - j
  {
    if j < m {
      RunEndSkip(rows, s, j + 1, m);
    }
  }

  /** Smoothing from an anchor whose run is closed at `e`: the run is written back
      as `CloseRun`, and from `e` on the table is smoothed from `e`. */
  lemma SmoothFromClosed(rows: seq<Row>, s: nat, e: nat)
    requires AllKnown(rows) && s < e < |rows|
    requires RunEnd(rows, s, s + 1) == e
    ensures forall k :: s <= k < e ==> SmoothFrom(rows, s)[k] == CloseRun(rows, s, e)[k - s]
    ensures forall k :: e <= k < |rows| ==> SmoothFrom(rows, s)[k] == SmoothFrom(rows, e)[k]
    ensures SmoothFrom(rows, s)[s..] == CloseRun(rows, s, e) + SmoothFrom(rows, e)[e..]
  {
    var out, closed, rest := SmoothFrom(rows, s), CloseRun(rows, s, e), SmoothFrom(rows, e);
    forall k | 0 <= k < |rows| - s
      ensures out[s..][k] == (closed + rest[e..])[k]
    {
      if k < e - s {
        assert (closed + rest[e..])[k] == closed[k];
      } else {
        assert (closed + rest[e..])[k] == rest[e..][k - (e - s)] == rest[s + k];
      }
    }
  }

  /** Smoothing from an anchor whose run reaches the end of the table changes nothing. */
  lemma SmoothFromOpen(rows: seq<Row>, s: nat)
    requires AllKnown(rows) && s < |rows|
    requires RunEnd(rows, s, s + 1) == |rows|
    ensures SmoothFrom(rows, s) == rows
  {
  }

  /** The anchors from `e` on are the anchors from `s` on after `s` itself, when
      the run anchored at `s` is closed at `e`. */
  lemma StartsStep(rows: seq<Row>, s: nat, e: nat)
    requires AllKnown(rows) && s < e < |rows|
    requires RunEnd(rows, s, s + 1) == e
    ensures Starts(rows, s) == [s] + Starts(rows, e)
  {
  }

  /** Every closed run's anchor row ends up holding the truncated mean of the run's x values. */
  lemma {:induction false} SmoothedAnchors(rows: seq<Row>, s: nat)
    requires AllKnown(rows) && s < |rows|
    ensures forall j :: 0 <= j < |Starts(rows, s)| - 1 ==>
      SmoothFrom(rows, s)[Starts(rows, s)[j]].x
        == Val(RunMean(rows, Starts(rows, s)[j], Starts(rows, s)[j + 1]))
    decreases |rows| - s
  {
    var e := RunEnd(rows, s, s + 1);
    if e < |rows| {
      var out, st := SmoothFrom(rows, s), Starts(rows, s);
      SmoothedAnchors(rows, e);
      SmoothFromClosed(rows, s, e);
      StartsStep(rows, s, e);
      var rest, st' := SmoothFrom(rows, e), Starts(rows, e);
      forall j | 0 <= j < |st| - 1
        ensures out[st[j]].x == Val(RunMean(rows, st[j], st[j + 1]))
      {
        if j > 0 {
          assert st[j] == st'[j - 1] && st[j + 1] == st'[j];
          assert out[st[j]] == rest[st'[j - 1]];
        } else {
          assert st[1] == e;
          assert out[s] == CloseRun(rows, s, e)[0];
        }
      }
    }
  }

  /** Every row of a closed run after its anchor ends up holding "?". */
  lemma {:induction false} SmoothedMarks(rows: seq<Row>, s: nat)
    requires AllKnown(rows) && s < |rows|
    ensures forall j, k :: 0 <= j < |Starts(rows, s)| - 1 && Starts(rows, s)[j] < k < Starts(rows, s)[j + 1] ==>
      SmoothFrom(rows, s)[k].x == Question
    decreases |rows| - s
  {
    var e := RunEnd(rows, s, s + 1);
    if e < |rows| {
      var out, st := SmoothFrom(rows, s), Starts(rows, s);
      SmoothedMarks(rows, e);
      SmoothFromClosed(rows, s, e);
      StartsStep(rows, s, e);
      var rest, st' := SmoothFrom(rows, e), Starts(rows, e);
      forall j, k | 0 <= j < |st| - 1 && st[j] < k < st[j + 1]
        ensures out[k].x == Question
      {
        if j > 0 {
          assert st[j] == st'[j - 1] && st[j + 1] == st'[j];
          assert out[k] == rest[k];
        } else {
          assert st[1] == e;
          MarkedInClosedRun(rows, s, e, k);
        }
      }
    }
  }

  /** A non-anchor row of the run closed at `e` is marked "?". */
  lemma MarkedInClosedRun(rows: seq<Row>, s: nat, e: nat, k: nat)
    requires AllKnown(rows) && s < k < e < |rows|
    requires RunEnd(rows, s, s + 1) == e
    ensures SmoothFrom(rows, s)[k].x == Question
  {
    SmoothFromClosed(rows, s, e);
    assert CloseRun(rows, s, e)[k - s] == rows[k].(x := Question);
  }

  /** The rows of the final run, which is never closed, come out exactly as they went in. */
  lemma {:induction false} SmoothedFinalRun(rows: seq<Row>, s: nat)
    requires AllKnown(rows) && s < |rows|
    ensures forall k :: Starts(rows, s)[|Starts(rows, s)| - 1] <= k < |rows| ==>
      SmoothFrom(rows, s)[k] == rows[k]
    decreases |rows| - s
  {
    var e := RunEnd(rows, s, s + 1);
    if e == |rows| {
      SmoothFromOpen(rows, s);
    } else {
      var out, st := SmoothFrom(rows, s), Starts(rows, s);
      SmoothedFinalRun(rows, e);
      SmoothFromClosed(rows, s, e);
      StartsStep(rows, s, e);
      var rest, st' := SmoothFrom(rows, e), Starts(rows, e);
      forall k | st[|st| - 1] <= k < |rows|
        ensures out[k] == rows[k]
      {
        assert st[|st| - 1] == st'[|st'| - 1];
        assert out[k] == rest[k];
      }
    }
  }

  /** Label-based slice assignment `.at[lo:hi, 'x'] = '?'`: both ends inclusive, and
      nothing is written when lo > hi. */
  function MarkRange(t: seq<Row>, lo: int, hi: int): (u: seq<Row>)
    ensures |u| == |t|
  {
    seq(|t|, k requires 0 <= k < |t| => if lo <= k <= hi then t[k].(x := Question) else t[k])
  }

  /** The script's loop over the table (main.py:69-127). It reads every row from
      the table it rewrites; the writes only ever reach rows before the current one,
      so what it reads are the input's values and the result is `Smooth`. An empty
      table has no row 0 and the script fails on its first read. */
  method ArrangeXandYdata(rows: seq<Row>) returns (r: Option<seq<Row>>)
    requires AllKnown(rows)
    ensures |rows| == 0 ==> r == None
    ensures |rows| > 0 ==> r == Some(Smooth(rows))
  {
    if |rows| == 0 {
      return None;
    }
    ghost var target := Smooth(rows);
    ScanStart(rows);
    var t := rows;
    var firstX, firstY := t[0].x.v, t[0].y.v;
    var xArray: seq<int> := [];
    var yArray: seq<int> := [];
    ghost var start: nat := 0;
    var i := 0;
    while i < |t|
      invariant Scanning(rows, target, t, start, i, firstX, firstY, xArray, yArray)
      decreases |t| - i
    {
      t, start, firstX, firstY, xArray, yArray := ScanRow(rows, target, t, start, i, firstX, firstY, xArray, yArray);
      i := i + 1;
    }
    ScanDone(rows, target, t, start, firstX, firstY, xArray, yArray);
    return Some(t);
  }

  /** One pass of the loop body (main.py:78-125) over row i: a row that joins the
      run goes into both buffers; any other row closes the run, writing its mean
      to the anchor row and "?" to the rest, and becomes the new anchor. */
  method ScanRow(ghost rows: seq<Row>, ghost target: seq<Row>, t: seq<Row>, ghost start: nat, i: nat,
                 firstX: int, firstY: int, xArray: seq<int>, yArray: seq<int>)
    returns (u: seq<Row>, ghost anchor: nat, nextX: int, nextY: int, xs: seq<int>, ys: seq<int>)
    requires Scanning(rows, target, t, start, i, firstX, firstY, xArray, yArray) && i < |t|
    ensures Scanning(rows, target, u, anchor, i + 1, nextX, nextY, xs, ys)
  {
    var varX, varY := t[i].x.v, t[i].y.v;
    if firstX - Radius <= varX <= firstX + Radius && firstY - Radius <= varY <= firstY + Radius {
      ScanJoin(rows, target, t, start, i, firstX, firstY, xArray, yArray);
      u, anchor, nextX, nextY := t, start, firstX, firstY;
      xs := xArray + [varX];
      ys := yArray + [varY];
    } else {
      if |xArray| >= |yArray| {
        var index := i - |xArray|;
        var xAvg := TruncDiv(Sum(xArray), |xArray|);
        u := t[index := t[index].(x := Val(xAvg))];
        u := MarkRange(u, index + 1, i - 1);
        ScanClose(rows, target, t, u, start, i, firstX, firstY, xArray, yArray, index, xAvg);
      } else {
        // main.py:103-115: both buffers grow and are reset together, so this
        // branch that would smooth y instead is never taken
        assert false;
      }
      xs, ys := [], [];
      nextX, nextY := varX, varY;
      xs := xs + [nextX];
      ys := ys + [nextY];
      anchor := i;
    }
  }

  /** The state of the loop of `ArrangeXandYdata` before it looks at row i: the rows
      from the current anchor `start` on are still the input's, the rows before it
      already hold their smoothed values, the anchor coordinates are row start's,
      the two buffers hold one entry per row of the current run (x_array its x
      values), every row of the run joins the anchor, and from `start` on the
      smoothed table is what smoothing from anchor `start` gives. */
  ghost predicate Scanning(rows: seq<Row>, target: seq<Row>, t: seq<Row>, start: nat, i: nat,
                           firstX: int, firstY: int, xArray: seq<int>, yArray: seq<int>)
  {
    && AllKnown(rows)
    && |t| == |rows| && |target| == |rows|
    && start <= i <= |rows| && start < |rows|
    && (i > 0 ==> start < i)
    && (forall k :: start <= k < |rows| ==> t[k] == rows[k])
    && (forall k :: 0 <= k < start ==> t[k] == target[k])
    && firstX == rows[start].x.v && firstY == rows[start].y.v
    && xArray == Xs(rows, start, i)
    && |yArray| == |xArray|
    && AllJoin(rows, start, i)
    && (forall k :: start <= k < |rows| ==> target[k] == SmoothFrom(rows, start)[k])
  }

  /** Rows s .. i-1 all join the run anchored at s. */
  predicate AllJoin(rows: seq<Row>, s: nat, i: nat)
    requires AllKnown(rows) && s < |rows| && i <= |rows|
  {
    forall k :: s <= k < i ==> Joins(rows[s], rows[k])
  }

  /** The loop starts in its invariant state, with row 0 as anchor and empty buffers. */
  lemma ScanStart(rows: seq<Row>)
    requires AllKnown(rows) && |rows| > 0
    ensures Scanning(rows, Smooth(rows), rows, 0, 0, rows[0].x.v, rows[0].y.v, [], [])
  {
  }

  /** A row that joins the run is appended to both buffers; nothing is written. */
  lemma ScanJoin(rows: seq<Row>, target: seq<Row>, t: seq<Row>, start: nat, i: nat,
                 firstX: int, firstY: int, xArray: seq<int>, yArray: seq<int>)
    requires Scanning(rows, target, t, start, i, firstX, firstY, xArray, yArray)
    requires i < |rows|
    requires firstX - Radius <= t[i].x.v <= firstX + Radius
    requires firstY - Radius <= t[i].y.v <= firstY + Radius
    ensures Scanning(rows, target, t, start, i + 1, firstX, firstY,
                     xArray + [t[i].x.v], yArray + [t[i].y.v])
  {
    assert t[i] == rows[i];
    assert Xs(rows, start, i + 1) == Xs(rows, start, i) + [rows[i].x.v];
  }

  /** A row that breaks the run closes it: the mean of the buffer is written to the
      anchor row, "?" to the rows after it up to the breaking row, and the breaking
      row becomes the new anchor with one-entry buffers. */
  lemma ScanClose(rows: seq<Row>, target: seq<Row>, before: seq<Row>, after: seq<Row>, start: nat, i: nat,
                  firstX: int, firstY: int, xArray: seq<int>, yArray: seq<int>, index: int, mean: int)
    requires Scanning(rows, target, before, start, i, firstX, firstY, xArray, yArray)
    requires i < |rows|
    requires !(firstX - Radius <= before[i].x.v <= firstX + Radius && firstY - Radius <= before[i].y.v <= firstY + Radius)
    requires index == i - |xArray| && mean == TruncDiv(Sum(xArray), |xArray|)
    requires after == MarkRange(before[index := before[index].(x := Val(mean))], index + 1, i - 1)
    ensures Scanning(rows, target, after, i, i + 1, before[i].x.v, before[i].y.v,
                     [before[i].x.v], [before[i].y.v])
  {
    assert before[i] == rows[i];
    assert 0 < i && start == index;
    assert mean == RunMean(rows, start, i);
    assert forall k :: start <= k < |rows| ==> before[k] == rows[k];
    assert forall k :: 0 <= k < start ==> before[k] == target[k];
    assert forall k :: start <= k < |rows| ==> target[k] == SmoothFrom(rows, start)[k];
    assert forall k :: start <= k < i ==> Joins(rows[start], rows[k]);
    CloseAt(rows, target, before, after, index, i, mean);
  }

  /** The closing step over plain facts: table `before` holds the smoothed rows
      before the anchor s and the input from s on, the run anchored at s breaks at
      row i, and `after` is `before` with the run's mean and marks written. */
  lemma CloseAt(rows: seq<Row>, target: seq<Row>, before: seq<Row>, after: seq<Row>, s: nat, i: nat, mean: int)
    requires AllKnown(rows) && s < i < |rows| && |before| == |rows| && |target| == |rows|
    requires forall k :: s <= k < |rows| ==> before[k] == rows[k]
    requires forall k :: 0 <= k < s ==> before[k] == target[k]
    requires forall k :: s <= k < |rows| ==> target[k] == SmoothFrom(rows, s)[k]
    requires forall k :: s <= k < i ==> Joins(rows[s], rows[k])
    requires !Joins(rows[s], rows[i])
    requires mean == RunMean(rows, s, i)
    requires after == MarkRange(before[s := before[s].(x := Val(mean))], s + 1, i - 1)
    ensures Scanning(rows, target, after, i, i + 1, rows[i].x.v, rows[i].y.v, [rows[i].x.v], [rows[i].y.v])
  {
    var w := CloseRun(rows, s, i);
    ClosedRunTarget(rows, target, s, i);
    ClosingWrites(rows, before, after, s, i, mean);
    Glue(before, after, target, w, s, i);
    NewAnchor(rows, target, after, i);
  }

  /** Two tables that agree with a third before s and with a common run w over
      s .. i-1 agree before i. */
  lemma Glue(before: seq<Row>, after: seq<Row>, target: seq<Row>, w: seq<Row>, s: nat, i: nat)
    requires s < i <= |after| && |before| == |after| && |target| == |after| && |w| == i - s
    requires forall k :: 0 <= k < s ==> after[k] == before[k]
    requires forall k :: 0 <= k < s ==> before[k] == target[k]
    requires forall k :: s <= k < i ==> after[k] == w[k - s]
    requires forall k :: s <= k < i ==> target[k] == w[k - s]
    ensures forall k :: 0 <= k < i ==> after[k] == target[k]
  {
  }

  /** When the run anchored at `s` breaks at row i, the smoothed table holds
      `CloseRun` over rows s .. i-1 and from i on is what smoothing from i gives. */
  lemma ClosedRunTarget(rows: seq<Row>, target: seq<Row>, s: nat, i: nat)
    requires AllKnown(rows) && s < i < |rows| && |target| == |rows|
    requires forall k :: s <= k < |rows| ==> target[k] == SmoothFrom(rows, s)[k]
    requires forall k :: s <= k < i ==> Joins(rows[s], rows[k])
    requires !Joins(rows[s], rows[i])
    ensures forall k :: s <= k < i ==> target[k] == CloseRun(rows, s, i)[k - s]
    ensures forall k :: i <= k < |rows| ==> target[k] == SmoothFrom(rows, i)[k]
  {
    RunEndSkip(rows, s, s + 1, i);
    SmoothFromClosed(rows, s, i);
  }

  /** A table that agrees with the smoothed one before row i and with the input
      from i on is the loop's state with i as the anchor of a fresh run. */
  lemma NewAnchor(rows: seq<Row>, target: seq<Row>, t: seq<Row>, i: nat)
    requires AllKnown(rows) && i < |rows| && |t| == |rows| && |target| == |rows|
    requires forall k :: i <= k < |rows| ==> t[k] == rows[k]
    requires forall k :: 0 <= k < i ==> t[k] == target[k]
    requires forall k :: i <= k < |rows| ==> target[k] == SmoothFrom(rows, i)[k]
    ensures Scanning(rows, target, t, i, i + 1, rows[i].x.v, rows[i].y.v, [rows[i].x.v], [rows[i].y.v])
  {
    OneRowRun(rows, i);
  }

  /** A run of one row: its x buffer is that row's x, and the row joins itself. */
  lemma OneRowRun(rows: seq<Row>, i: nat)
    requires AllKnown(rows) && i < |rows|
    ensures Xs(rows, i, i + 1) == [rows[i].x.v]
    ensures AllJoin(rows, i, i + 1)
  {
    assert Xs(rows, i, i + 1)[0] == rows[i].x.v;
  }

  /** The two writes of a closing step put `CloseRun` over rows s .. i-1 of a table
      whose rows from s on are the input's, and touch nothing else. */
  lemma ClosingWrites(rows: seq<Row>, before: seq<Row>, after: seq<Row>, s: nat, i: nat, mean: int)
    requires AllKnown(rows) && s < i < |rows| && |before| == |rows|
    requires forall k :: s <= k < |rows| ==> before[k] == rows[k]
    requires mean == RunMean(rows, s, i)
    requires after == MarkRange(before[s := before[s].(x := Val(mean))], s + 1, i - 1)
    ensures forall k :: 0 <= k < s ==> after[k] == before[k]
    ensures forall k :: s <= k < i ==> after[k] == CloseRun(rows, s, i)[k - s]
    ensures forall k :: i <= k < |rows| ==> after[k] == rows[k]
  {
    forall k | s <= k < i
      ensures after[k] == CloseRun(rows, s, i)[k - s]
    {
      assert before[k] == rows[k];
    }
  }

  /** When the loop has seen every row, the last run is left as it is and the
      table is the smoothed one. */
  lemma ScanDone(rows: seq<Row>, target: seq<Row>, t: seq<Row>, start: nat,
                 firstX: int, firstY: int, xArray: seq<int>, yArray: seq<int>)
    requires Scanning(rows, target, t, start, |rows|, firstX, firstY, xArray, yArray)
    ensures t == target
  {
    RunEndSkip(rows, start, start + 1, |rows|);
    SmoothFromOpen(rows, start);
  }
}
