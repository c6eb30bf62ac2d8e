/** The row-level cleaning steps of the script that surround the smoothing pass:
    dropping the first row (main.py:57-61), deleting the rows marked "?"
    (main.py:129-134) and cutting the UTC offset off the timestamps
    (main.py:144-150). */
module Cleaning {
  import opened Table
  import opened Seqs

  /** `iloc[1:]`: every row but the first; an empty table stays empty. */
  function DropFirstRow(rows: seq<Row>): (r: seq<Row>)
    ensures |rows| > 0 ==> [rows[0]] + r == rows
    ensures |rows| == 0 ==> r == []
  {
    if |rows| == 0 then [] else rows[1..]
  }

  predicate XKnown(r: Row) {
    r.x != Question
  }

  predicate YKnown(r: Row) {
    r.y != Question
  }

  /** The two boolean-mask filters, first on x, then on y. Only rows with both
      coordinates set survive, and every row with both set survives, in order. */
  function DropQuestionMarks(rows: seq<Row>): (r: seq<Row>)
    ensures AllKnown(r)
    ensures IsSubseq(r, rows)
    ensures forall k :: 0 <= k < |rows| && Known(rows[k]) ==> rows[k] in r
  {
    var r := Where(Where(rows, XKnown), YKnown);
    DropQuestionMarksIsKnownFilter(rows);
    r
  }

  /** Filtering on x and then on y is filtering once on both: the rows kept are
      exactly those with no "?" in either coordinate. */
  lemma {:induction false} DropQuestionMarksIsKnownFilter(rows: seq<Row>)
    ensures Where(Where(rows, XKnown), YKnown) == Where(rows, Known)
  {
    WhereFuse(rows, XKnown, YKnown, Known);
  }

  /** The number of rows `DropQuestionMarks` keeps is the number of rows with both
      coordinates set. */
  lemma DropQuestionMarksCount(rows: seq<Row>)
    ensures |DropQuestionMarks(rows)| == |Matches(rows, Known)|
  {
    DropQuestionMarksIsKnownFilter(rows);
    WhereCount(rows, Known);
  }

  /** A table without "?" passes the filter unchanged. */
  lemma DropQuestionMarksKeepsKnown(rows: seq<Row>)
    requires AllKnown(rows)
    ensures DropQuestionMarks(rows) == rows
  {
    DropQuestionMarksIsKnownFilter(rows);
    WhereAll(rows, Known);
  }

  /** Length of the "+00:00" offset that closes every timestamp of the data set. */
  const OffsetLength := 6

  /** The Python slice `s[:-6]`: all but the last six characters, or nothing when
      the string is shorter than that. */
  function TrimOffset(s: string): (r: string)
    ensures |s| >= OffsetLength ==> |r| == |s| - OffsetLength && r + s[|s| - OffsetLength..] == s
    ensures |s| < OffsetLength ==> r == []
  {
    if |s| >= OffsetLength then s[..|s| - OffsetLength] else []
  }

  /** Cutting the offset off a timestamp that ends in one gives the timestamp back. */
  lemma TrimOffsetRoundTrip(stamp: string, offset: string)
    requires |offset| == OffsetLength
    ensures TrimOffset(stamp + offset) == stamp
  {
    assert (stamp + offset)[..|stamp|] == stamp;
  }

  /** The loop over every row of `arrangeDateColumn`, before the column is parsed:
      each timestamp loses its offset and nothing else in the table changes. */
  function ArrangeDateColumn(rows: seq<Row>): (r: seq<Row>)
    ensures |r| == |rows|
    ensures forall k :: 0 <= k < |rows| ==> r[k] == rows[k].(createdate := r[k].createdate)
    ensures forall k :: 0 <= k < |rows| && |rows[k].createdate| >= OffsetLength ==>
      r[k].createdate + rows[k].createdate[|rows[k].createdate| - OffsetLength..] == rows[k].createdate
    ensures forall k :: 0 <= k < |rows| && |rows[k].createdate| < OffsetLength ==> r[k].createdate == []
  {
    seq(|rows|, k requires 0 <= k < |rows| => rows[k].(createdate := TrimOffset(rows[k].createdate)))
  }
}
