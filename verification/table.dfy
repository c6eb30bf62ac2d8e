/** The location table that the cleaning pass works on: one record per CSV row,
    after the unnamed index column has been dropped. Row order stands in for the
    dataframe's index labels, which the script resets to 0, 1, 2, ... before every
    step that indexes by label. */
module Table {

  /** A coordinate cell: an integer, or the "?" string the smoothing pass writes
      into rows that are to be deleted afterwards. */
  datatype Coord = Val(v: int) | Question

  /** One record of the table. */
  datatype Row = Row(
    idRegion: int,
    idTag: int,
    createdate: string,
    datacountno: int,
    x: Coord,
    y: Coord,
    idLocation: int)

  /** A value, or the absence of one where the script raises instead of returning. */
  datatype Option<+T> = None | Some(value: T)

  /** Neither coordinate of `r` is the deletion marker. */
  predicate Known(r: Row) {
    r.x.Val? && r.y.Val?
  }

  /** Every row of the table carries integer coordinates. */
  predicate AllKnown(rows: seq<Row>) {
    forall k :: 0 <= k < |rows| ==> Known(rows[k])
  }

  /** `a` and `b` agree on every column except possibly x. */
  predicate SameButX(a: Row, b: Row) {
    && a.idRegion == b.idRegion
    && a.idTag == b.idTag
    && a.createdate == b.createdate
    && a.datacountno == b.datacountno
    && a.y == b.y
    && a.idLocation == b.idLocation
  }

  /** The key of the first de-duplication pass: the creation timestamp. */
  function DateKey(r: Row): (key: string) {
    r.createdate
  }

  /** The key of the second de-duplication pass: the coordinate pair. */
  function PointKey(r: Row): (key: (Coord, Coord)) {
    (r.x, r.y)
  }

  /** The tag a row belongs to, the key the table is sorted and grouped by. */
  function TagKey(r: Row): (key: int) {
    r.idTag
  }
}
