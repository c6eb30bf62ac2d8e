/** The cleaning steps in the order the script runs them (main.py:222-230), and
    what the smoothing pass followed by the "?" filter does to the size of the
    table and to the values that survive. */
module Pipeline {
  import opened Table
  import opened Seqs
  import opened Smoothing
  import opened Cleaning

  /** The number of rows the closed runs lose to the "?" filter: every closed run
      keeps its anchor and loses the rows between it and the next anchor. */
  function ClosedExcess(st: seq<nat>): (excess: int) {
    if |st| < 2 then 0 else (st[1] - st[0] - 1) + ClosedExcess(st[1..])
  }

  /** Of a closed run only the anchor survives the filter. */
  lemma ClosedRunLeavesAnchor(rows: seq<Row>, a: nat, b: nat)
    requires AllKnown(rows) && a < b <= |rows|
    ensures Where(CloseRun(rows, a, b), Known) == [CloseRun(rows, a, b)[0]]
  {
    var w := CloseRun(rows, a, b);
    assert forall k :: 0 < k < |w| ==> w[k].x == Question;
    WhereOnlyFirst(w, Known);
  }

  /** Counting the rows with both coordinates set in the part of the table smoothed
      from anchor s: all of it, less the rows each closed run marks. */
  lemma {:induction false} KnownAfterSmoothing(rows: seq<Row>, s: nat)
    requires AllKnown(rows) && s < |rows|
    ensures |Where(SmoothFrom(rows, s)[s..], Known)| == |rows| - s - ClosedExcess(Starts(rows, s))
    decreases |rows| - s
  {
    var e := RunEnd(rows, s, s + 1);
    if e == |rows| {
      SmoothFromOpen(rows, s);
      assert forall k :: 0 <= k < |rows[s..]| ==> Known(rows[s..][k]);
      WhereAll(rows[s..], Known);
    } else {
      KnownAfterSmoothing(rows, e);
      SmoothFromClosed(rows, s, e);
      StartsStep(rows, s, e);
      WhereAppend(CloseRun(rows, s, e), SmoothFrom(rows, e)[e..], Known);
      ClosedRunLeavesAnchor(rows, s, e);
      var st := Starts(rows, s);
      assert st[1..] == Starts(rows, e) && st[1] == e;
    }
  }

  /** Smoothing then dropping the "?" rows leaves n - sum(len(run) - 1) rows, the
      sum over the closed runs: one row per closed run plus the whole final run. */
  lemma SmoothedCount(rows: seq<Row>)
    requires AllKnown(rows) && |rows| > 0
    ensures |DropQuestionMarks(Smooth(rows))| == |rows| - ClosedExcess(Starts(rows, 0))
  {
    KnownAfterSmoothing(rows, 0);
    assert SmoothFrom(rows, 0)[0..] == Smooth(rows);
    DropQuestionMarksIsKnownFilter(Smooth(rows));
  }

  /** A closed run of a single row writes the row's own x back and marks nothing:
      the mean of one value is that value. */
  lemma SingleRowRunUnchanged(rows: seq<Row>, a: nat)
    requires AllKnown(rows) && a < |rows|
    ensures CloseRun(rows, a, a + 1) == [rows[a]]
  {
    var v := rows[a].x.v;
    assert Xs(rows, a, a + 1) == [v];
    assert [v][..0] == [];
    assert Sum([v]) == v;
    assert TruncDiv(v, 1) == v;
    assert RunMean(rows, a, a + 1) == v;
    assert rows[a].(x := Val(v)) == rows[a];
  }

  /** The truncated mean of a run whose rows all join its anchor lies within Radius
      of the anchor's x. */
  lemma RunMeanNear(rows: seq<Row>, a: nat, b: nat)
    requires AllKnown(rows) && a < b <= |rows|
    requires forall k :: a <= k < b ==> Joins(rows[a], rows[k])
    ensures rows[a].x.v - Radius <= RunMean(rows, a, b) <= rows[a].x.v + Radius
  {
    var xs := Xs(rows, a, b);
    forall k | 0 <= k < |xs| ensures rows[a].x.v - Radius <= xs[k] <= rows[a].x.v + Radius {
      assert xs[k] == rows[a + k].x.v && Joins(rows[a], rows[a + k]);
    }
    MeanWithin(xs, rows[a].x.v - Radius, rows[a].x.v + Radius);
  }

  /** The x a closed run's anchor ends up with lies within Radius of its old x, as
      every x of the run does. */
  lemma SmoothedAnchorsNear(rows: seq<Row>)
    requires AllKnown(rows) && |rows| > 0
    ensures forall j :: 0 <= j < |Starts(rows, 0)| - 1 ==>
      Smooth(rows)[Starts(rows, 0)[j]].x.Val? &&
      rows[Starts(rows, 0)[j]].x.v - Radius <= Smooth(rows)[Starts(rows, 0)[j]].x.v
        <= rows[Starts(rows, 0)[j]].x.v + Radius
  {
    var st := Starts(rows, 0);
    SmoothedAnchors(rows, 0);
    RunsJoinTheirAnchor(rows, 0);
    forall j | 0 <= j < |st| - 1
      ensures Smooth(rows)[st[j]].x.Val? &&
        rows[st[j]].x.v - Radius <= Smooth(rows)[st[j]].x.v <= rows[st[j]].x.v + Radius
    {
      assert Smooth(rows)[st[j]].x == Val(RunMean(rows, st[j], st[j + 1]));
      RunMeanNear(rows, st[j], st[j + 1]);
    }
  }

  /** Smoothing keeps every row's tag, so a table sorted by tag stays sorted. */
  lemma SmoothKeepsTagOrder(rows: seq<Row>)
    requires AllKnown(rows) && Ascending(rows, TagKey)
    ensures Ascending(Smooth(rows), TagKey)
  {
    var out := Smooth(rows);
    assert forall k :: 0 <= k < |rows| ==> TagKey(out[k]) == TagKey(rows[k]);
  }

  /** Dropping the "?" rows of the smoothed table and trimming its timestamps:
      only rows with integer coordinates remain, as many as `SmoothedCount` says,
      and the tag order is kept. */
  lemma SmoothedTableFacts(t: seq<Row>)
    requires AllKnown(t) && |t| > 0
    ensures AllKnown(ArrangeDateColumn(DropQuestionMarks(Smooth(t))))
    ensures |ArrangeDateColumn(DropQuestionMarks(Smooth(t)))| == |t| - ClosedExcess(Starts(t, 0))
    ensures Ascending(t, TagKey) ==> Ascending(ArrangeDateColumn(DropQuestionMarks(Smooth(t))), TagKey)
  {
    var kept := DropQuestionMarks(Smooth(t));
    var r := ArrangeDateColumn(kept);
    SmoothedCount(t);
    if Ascending(t, TagKey) {
      SmoothKeepsTagOrder(t);
      SubseqKeepsAscending(kept, Smooth(t), TagKey);
    }
    assert forall k :: 0 <= k < |kept| ==> Known(r[k]) && TagKey(r[k]) == TagKey(kept[k]);
  }

  /** Dropping the first row keeps the rest in order. */
  lemma DropFirstRowKeepsOrder(rows: seq<Row>)
    requires Ascending(rows, TagKey)
    ensures Ascending(DropFirstRow(rows), TagKey)
    ensures AllKnown(rows) ==> AllKnown(DropFirstRow(rows))
  {
    var t := DropFirstRow(rows);
    forall i, j | 0 <= i < j < |t| ensures TagKey(t[i]) <= TagKey(t[j]) {
      assert t[i] == rows[i + 1] && t[j] == rows[j + 1];
    }
    forall k | 0 <= k < |t| ensures t[k] == rows[k + 1] {
    }
  }

  /** The steps from `dropFirstRow` to `arrangeDateColumn` (main.py:223-230) on a
      table whose coordinates are all integers. Fewer than two rows leave nothing
      to smooth, and the script fails on its first read of row 0. Otherwise the
      result is the first row dropped, the run-by-run smoothing `Smooth`, the "?"
      filter and the offset trim, one after the other; every row of it has integer
      coordinates (so `convertColumnType('x')` succeeds), the count is the one
      `SmoothedCount` gives, and a table sorted by tag stays sorted by tag. */
  method CleanTable(rows: seq<Row>) returns (r: Option<seq<Row>>)
    requires AllKnown(rows)
    ensures |rows| < 2 <==> r == None
    ensures r.Some? ==> r.value == ArrangeDateColumn(DropQuestionMarks(Smooth(DropFirstRow(rows))))
    ensures r.Some? ==> AllKnown(r.value)
    ensures r.Some? ==> |r.value| == |rows| - 1 - ClosedExcess(Starts(DropFirstRow(rows), 0))
    ensures r.Some? && Ascending(rows, TagKey) ==> Ascending(r.value, TagKey)
  {
    var t := DropFirstRow(rows);
    assert AllKnown(t) by {
      assert forall k :: 0 <= k < |t| ==> t[k] == rows[k + 1];
    }
    if Ascending(rows, TagKey) {
      DropFirstRowKeepsOrder(rows);
    }
    var smoothed := ArrangeXandYdata(t);
    if smoothed.None? {
      return None;
    }
    SmoothedTableFacts(t);
    r := Some(ArrangeDateColumn(DropQuestionMarks(smoothed.value)));
  }
}
