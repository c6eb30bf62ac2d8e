/** Keep-first de-duplication of the table, as `checkUniqueValues` does it
    (main.py:36-44): first on the creation timestamp, then on the coordinate pair. */
module Dedup {
  import opened Table
  import opened Seqs

  /** Position `i` holds the earliest element of `s` with its key. */
  predicate IsFirst<T, K(==)>(s: seq<T>, key: T -> K, i: int) {
    0 <= i < |s| && forall j :: 0 <= j < i ==> key(s[j]) != key(s[i])
  }

  /** Whether a position is the first of its key does not depend on what follows it. */
  lemma IsFirstPrefix<T, K>(s: seq<T>, key: T -> K, n: nat, i: int)
    requires n <= |s| && 0 <= i < n
    ensures IsFirst(s[..n], key, i) <==> IsFirst(s, key, i)
  {
    assert forall j :: 0 <= j <= i ==> s[..n][j] == s[j];
  }

  /** The mask "position i holds the first element of `s` with its key". */
  function FirstMask<T, K(==)>(s: seq<T>, key: T -> K): (mask: seq<bool>)
    ensures |mask| == |s|
    ensures forall i :: 0 <= i < |s| ==> mask[i] == IsFirst(s, key, i)
    decreases |s|
  {
    if |s| == 0 then []
    else
      var n := |s|;
      IsFirstInit(s, key);
      var front := FirstMask(s[..n - 1], key);
      var mask := front + [IsFirst(s, key, n - 1)];
      assert forall i :: 0 <= i < n - 1 ==> mask[i] == front[i];
      mask
  }

  /** `drop_duplicates(key, keep='first')`: a row survives exactly when no earlier
      row has the same key. Position by position, entry k of the result is the row
      at the k-th first position of the input, counting positions in ascending
      order; so the result has distinct keys and keeps the input's order.
      `KeepFirstByValue` states the same in terms of values. */
  function KeepFirst<T, K(==)>(s: seq<T>, key: T -> K): (r: seq<T>)
    ensures |r| == |Positions(FirstMask(s, key))|
    ensures forall k :: 0 <= k < |r| ==> r[k] == s[Positions(FirstMask(s, key))[k]]
    ensures Distinct(r, key)
    ensures IsSubseq(r, s)
    decreases |s|
  {
    if |s| == 0 then []
    else
      var n := |s|;
      var init := s[..n - 1];
      var front := KeepFirst(init, key);
      IsFirstInit(s, key);
      if IsFirst(s, key, n - 1) then
        var r := front + [s[n - 1]];
        assert r[..|r| - 1] == front;
        FirstIsNew(s, key, init, front);
        DistinctSnoc(front, s[n - 1], key);
        AtFirstPositions(s, key, init, front, r);
        r
      else
        AtFirstPositions(s, key, init, front, front);
        front
  }

  /** The step of `KeepFirst` lists the rows at the first positions in ascending
      order: those of the sequence short of its last element, then the last one when
      it is a first position. */
  lemma AtFirstPositions<T, K>(s: seq<T>, key: T -> K, init: seq<T>, front: seq<T>, r: seq<T>)
    requires |s| > 0 && init == s[..|s| - 1]
    requires |front| == |Positions(FirstMask(init, key))|
    requires forall k :: 0 <= k < |front| ==> front[k] == init[Positions(FirstMask(init, key))[k]]
    requires IsFirst(s, key, |s| - 1) ==> r == front + [s[|s| - 1]]
    requires !IsFirst(s, key, |s| - 1) ==> r == front
    ensures |r| == |Positions(FirstMask(s, key))|
    ensures forall k :: 0 <= k < |r| ==> r[k] == s[Positions(FirstMask(s, key))[k]]
  {
    var n := |s|;
    var before := Positions(FirstMask(init, key));
    var after := Positions(FirstMask(s, key));
    assert FirstMask(s, key) == FirstMask(init, key) + [IsFirst(s, key, n - 1)];
    assert FirstMask(s, key)[..n - 1] == FirstMask(init, key);
    MaskStep(FirstMask(init, key), FirstMask(s, key));
    forall k | 0 <= k < |r| ensures r[k] == s[after[k]] {
      if k < |front| {
        assert r[k] == front[k] && after[k] == before[k];
        assert init[before[k]] == s[before[k]];
      } else {
        assert r[k] == s[n - 1] && after[k] == n - 1;
      }
    }
  }

  /** `KeepFirst` keeps the first element of every key and nothing but such first
      elements. */
  lemma KeepFirstByValue<T, K>(s: seq<T>, key: T -> K)
    ensures var r := KeepFirst(s, key);
      forall i :: 0 <= i < |s| && IsFirst(s, key, i) ==> s[i] in r
    ensures var r := KeepFirst(s, key);
      forall k :: 0 <= k < |r| ==> exists i :: IsFirst(s, key, i) && s[i] == r[k]
  {
    FirstsByValue(s, key, KeepFirst(s, key));
  }

  /** A sequence that lists the elements at the first positions, in ascending
      order, holds every first element and nothing else. */
  lemma FirstsByValue<T, K>(s: seq<T>, key: T -> K, r: seq<T>)
    requires |r| == |Positions(FirstMask(s, key))|
    requires forall k :: 0 <= k < |r| ==> r[k] == s[Positions(FirstMask(s, key))[k]]
    ensures forall i :: 0 <= i < |s| && IsFirst(s, key, i) ==> s[i] in r
    ensures forall k :: 0 <= k < |r| ==> exists i :: IsFirst(s, key, i) && s[i] == r[k]
  {
    var idx := Positions(FirstMask(s, key));
    forall i | 0 <= i < |s| && IsFirst(s, key, i) ensures s[i] in r {
      PositionsCover(FirstMask(s, key), i);
      var k :| 0 <= k < |idx| && idx[k] == i;
      assert r[k] == s[i];
    }
    forall k | 0 <= k < |r| ensures exists i :: IsFirst(s, key, i) && s[i] == r[k] {
      assert FirstMask(s, key)[idx[k]];
    }
  }

  /** The first positions of a sequence short of its last element are those of the
      whole sequence short of that element. */
  lemma IsFirstInit<T, K>(s: seq<T>, key: T -> K)
    requires |s| > 0
    ensures forall i :: 0 <= i < |s| - 1 ==> (IsFirst(s[..|s| - 1], key, i) <==> IsFirst(s, key, i))
  {
    forall i | 0 <= i < |s| - 1 {
      IsFirstPrefix(s, key, |s| - 1, i);
    }
  }

  /** When the last element is the first of its key, none of the first elements
      before it shares that key. */
  lemma FirstIsNew<T, K>(s: seq<T>, key: T -> K, init: seq<T>, front: seq<T>)
    requires |s| > 0 && IsFirst(s, key, |s| - 1) && init == s[..|s| - 1]
    requires |front| == |Positions(FirstMask(init, key))|
    requires forall k :: 0 <= k < |front| ==> front[k] == init[Positions(FirstMask(init, key))[k]]
    ensures forall k :: 0 <= k < |front| ==> key(front[k]) != key(s[|s| - 1])
  {
    var idx := Positions(FirstMask(init, key));
    forall k | 0 <= k < |front| ensures key(front[k]) != key(s[|s| - 1]) {
      assert init[idx[k]] == s[idx[k]];
    }
  }

  /** Row i survives `checkUniqueValues`: it is the first row with its timestamp,
      and no earlier row that is first with its timestamp has its coordinate pair.
      The second pass sees only the rows the first pass kept. */
  predicate Survives(rows: seq<Row>, i: int) {
    && IsFirst(rows, DateKey, i)
    && forall j :: 0 <= j < i && IsFirst(rows, DateKey, j) ==> PointKey(rows[j]) != PointKey(rows[i])
  }

  /** Whether a row survives does not depend on the rows after it. */
  lemma SurvivesInit(rows: seq<Row>)
    requires |rows| > 0
    ensures forall i :: 0 <= i < |rows| - 1 ==> (Survives(rows[..|rows| - 1], i) <==> Survives(rows, i))
  {
    var init := rows[..|rows| - 1];
    IsFirstInit(rows, DateKey);
    forall i | 0 <= i < |rows| - 1 ensures Survives(init, i) <==> Survives(rows, i) {
      assert init[i] == rows[i];
      assert forall j :: 0 <= j < i ==> init[j] == rows[j];
    }
  }

  /** The mask "row i survives `checkUniqueValues`". */
  function SurvivorMask(rows: seq<Row>): (mask: seq<bool>)
    ensures |mask| == |rows|
    ensures forall i :: 0 <= i < |rows| ==> mask[i] == Survives(rows, i)
  {
    if |rows| == 0 then []
    else
      var n := |rows|;
      SurvivesInit(rows);
      var front := SurvivorMask(rows[..n - 1]);
      var mask := front + [Survives(rows, n - 1)];
      assert forall i :: 0 <= i < n - 1 ==> mask[i] == front[i];
      mask
  }

  /** `checkUniqueValues` without its diagnostic print: no two surviving rows share a
      creation timestamp or a coordinate pair, each survivor is the first row of the
      input with its timestamp, and the survivors keep the input's order. Position by
      position, the result lists exactly the rows that `Survives` picks out, in
      ascending order of position. */
  function CheckUniqueValues(rows: seq<Row>): (r: seq<Row>)
    ensures |r| == |Positions(SurvivorMask(rows))|
    ensures forall k :: 0 <= k < |r| ==> r[k] == rows[Positions(SurvivorMask(rows))[k]]
    ensures Distinct(r, DateKey)
    ensures Distinct(r, PointKey)
    ensures IsSubseq(r, rows)
    ensures forall k :: 0 <= k < |r| ==> exists i :: IsFirst(rows, DateKey, i) && rows[i] == r[k]
  {
    TwoPassSurvivors(rows);
    TwoPassOrder(rows);
    TwoPassFirstDates(rows);
    KeepFirst(KeepFirst(rows, DateKey), PointKey)
  }

  /** The point pass keeps part of what the date pass kept, in order, so the rows
      the two passes keep have distinct timestamps and come in the input's order. */
  lemma TwoPassOrder(rows: seq<Row>)
    ensures var r := KeepFirst(KeepFirst(rows, DateKey), PointKey);
      Distinct(r, DateKey) && IsSubseq(r, rows)
  {
    var byDate := KeepFirst(rows, DateKey);
    var r := KeepFirst(byDate, PointKey);
    SubseqKeepsDistinct(r, byDate, DateKey);
    SubseqTrans(r, byDate, rows);
  }

  /** Every row the two passes keep is the first row of the input with its timestamp. */
  lemma TwoPassFirstDates(rows: seq<Row>)
    ensures var r := KeepFirst(KeepFirst(rows, DateKey), PointKey);
      forall k :: 0 <= k < |r| ==> exists i :: IsFirst(rows, DateKey, i) && rows[i] == r[k]
  {
    var r := KeepFirst(KeepFirst(rows, DateKey), PointKey);
    TwoPassSurvivors(rows);
    SurvivorsAreFirstDates(rows, r);
  }

  /** Rows listed at the survivors' positions are first with their timestamp. */
  lemma SurvivorsAreFirstDates(rows: seq<Row>, r: seq<Row>)
    requires |r| == |Positions(SurvivorMask(rows))|
    requires forall k :: 0 <= k < |r| ==> r[k] == rows[Positions(SurvivorMask(rows))[k]]
    ensures forall k :: 0 <= k < |r| ==> exists i :: IsFirst(rows, DateKey, i) && rows[i] == r[k]
  {
    var idx := Positions(SurvivorMask(rows));
    forall k | 0 <= k < |r| ensures IsFirst(rows, DateKey, idx[k]) && rows[idx[k]] == r[k] {
      assert SurvivorMask(rows)[idx[k]];
    }
  }

  /** In terms of values: `checkUniqueValues` keeps every surviving row, and every
      row it keeps is a surviving row of the input. */
  lemma CheckUniqueValuesByValue(rows: seq<Row>)
    ensures forall i :: 0 <= i < |rows| && Survives(rows, i) ==> rows[i] in CheckUniqueValues(rows)
    ensures var r := CheckUniqueValues(rows);
      forall k :: 0 <= k < |r| ==> exists i :: Survives(rows, i) && rows[i] == r[k]
  {
    var r := CheckUniqueValues(rows);
    var idx := Positions(SurvivorMask(rows));
    forall i | 0 <= i < |rows| && Survives(rows, i) ensures rows[i] in r {
      PositionsCover(SurvivorMask(rows), i);
      var k :| 0 <= k < |idx| && idx[k] == i;
      assert r[k] == rows[i];
    }
    forall k | 0 <= k < |r| ensures Survives(rows, idx[k]) && rows[idx[k]] == r[k] {
      assert SurvivorMask(rows)[idx[k]];
    }
  }

  /** The two passes keep exactly the surviving rows, in ascending order of position. */
  lemma {:induction false} TwoPassSurvivors(rows: seq<Row>)
    ensures var r := KeepFirst(KeepFirst(rows, DateKey), PointKey);
      && |r| == |Positions(SurvivorMask(rows))|
      && forall k :: 0 <= k < |r| ==> r[k] == rows[Positions(SurvivorMask(rows))[k]]
    decreases |rows|
  {
    if |rows| > 0 {
      var n := |rows|;
      var init := rows[..n - 1];
      var front := KeepFirst(KeepFirst(init, DateKey), PointKey);
      var r := KeepFirst(KeepFirst(rows, DateKey), PointKey);
      TwoPassSurvivors(init);
      TwoPassStep(rows);
      var before := Positions(SurvivorMask(init));
      assert SurvivorMask(rows)[..n - 1] == SurvivorMask(init);
      MaskStep(SurvivorMask(init), SurvivorMask(rows));
      forall k | 0 <= k < |front| ensures front[k] == rows[before[k]] {
        assert init[before[k]] == rows[before[k]];
      }
    }
  }

  /** One more row at the end of the table: the two passes keep what they kept
      before, and the new row too exactly when it survives. */
  lemma TwoPassStep(rows: seq<Row>)
    requires |rows| > 0
    ensures var n := |rows|;
      KeepFirst(KeepFirst(rows, DateKey), PointKey)
        == KeepFirst(KeepFirst(rows[..n - 1], DateKey), PointKey)
           + (if Survives(rows, n - 1) then [rows[n - 1]] else [])
  {
    var n := |rows|;
    var init := rows[..n - 1];
    var last := rows[n - 1];
    var before := KeepFirst(init, DateKey);
    var byDate := KeepFirst(rows, DateKey);
    KeepFirstSnoc(rows, DateKey);
    if IsFirst(rows, DateKey, n - 1) {
      TwoPassStepNewDate(rows);
    }
  }

  /** `TwoPassStep` when the new row is the first with its timestamp: the date pass
      keeps it, and the point pass keeps it exactly when it survives. */
  lemma TwoPassStepNewDate(rows: seq<Row>)
    requires |rows| > 0 && IsFirst(rows, DateKey, |rows| - 1)
    ensures var n := |rows|;
      KeepFirst(KeepFirst(rows, DateKey), PointKey)
        == KeepFirst(KeepFirst(rows[..n - 1], DateKey), PointKey)
           + (if Survives(rows, n - 1) then [rows[n - 1]] else [])
  {
    var n := |rows|;
    var init := rows[..n - 1];
    var before := KeepFirst(init, DateKey);
    var byDate := KeepFirst(rows, DateKey);
    KeepFirstSnoc(rows, DateKey);
    assert byDate[..|byDate| - 1] == before;
    KeepFirstSnoc(byDate, PointKey);
    var dates := Positions(FirstMask(init, DateKey));
    IsFirstInit(rows, DateKey);
    forall m | 0 <= m < |before| ensures before[m] == rows[dates[m]] {
      assert init[dates[m]] == rows[dates[m]];
    }
    PointFirstIffSurvives(rows, before, dates);
  }

  /** `KeepFirst` of a sequence is `KeepFirst` of all but its last element, followed
      by that element when it is the first of its key. */
  lemma KeepFirstSnoc<T, K>(s: seq<T>, key: T -> K)
    requires |s| > 0
    ensures KeepFirst(s, key) ==
      KeepFirst(s[..|s| - 1], key) + (if IsFirst(s, key, |s| - 1) then [s[|s| - 1]] else [])
  {
  }

  /** Once the new row is the first with its timestamp, the point pass keeps it
      exactly when no row the date pass kept before it has its coordinate pair, which
      is what `Survives` says. */
  lemma PointFirstIffSurvives(rows: seq<Row>, before: seq<Row>, dates: seq<nat>)
    requires |rows| > 0 && IsFirst(rows, DateKey, |rows| - 1)
    requires dates == Positions(FirstMask(rows[..|rows| - 1], DateKey))
    requires forall i :: 0 <= i < |rows| - 1 ==> (IsFirst(rows[..|rows| - 1], DateKey, i) <==> IsFirst(rows, DateKey, i))
    requires |before| == |dates| && forall m :: 0 <= m < |before| ==> before[m] == rows[dates[m]]
    ensures IsFirst(before + [rows[|rows| - 1]], PointKey, |before|) <==> Survives(rows, |rows| - 1)
  {
    var n := |rows|;
    var init := rows[..n - 1];
    var byDate := before + [rows[n - 1]];
    if IsFirst(byDate, PointKey, |before|) {
      forall j | 0 <= j < n - 1 && IsFirst(rows, DateKey, j) ensures PointKey(rows[j]) != PointKey(rows[n - 1]) {
        PositionsCover(FirstMask(init, DateKey), j);
        var m :| 0 <= m < |dates| && dates[m] == j;
        assert byDate[m] == before[m];
      }
    }
    if Survives(rows, n - 1) {
      forall m | 0 <= m < |before| ensures PointKey(byDate[m]) != PointKey(byDate[|before|]) {
        assert byDate[m] == rows[dates[m]];
        assert IsFirst(init, DateKey, dates[m]);
      }
    }
  }
}
