/** The `second_diff` column (main.py:155-179): seconds elapsed since the row
    before, reset to 0 on the first row of every tag, and the list of those first
    rows that `groupby('id_tag').first()` gives.

    Timestamps are what `pd.to_datetime` makes of the trimmed strings, counted here
    as integer microseconds; `total_seconds()` followed by `int` becomes a quotient
    rounded toward zero. The table is passed as its two columns `tags` (id_tag) and
    `times` (createdate); row k of each belongs to the row with index label k. */
module TimeDelta {
  import opened Table
  import opened Seqs

  /** Clock ticks (microseconds) per second. */
  const TicksPerSecond := 1_000_000

  /** `int((t2 - t1).total_seconds())`: whole seconds from t1 to t2, rounded toward
      zero, so a negative gap gives a non-positive count. */
  function SecondsBetween(t1: int, t2: int): (s: int)
    ensures t1 <= t2 ==> 0 <= s && s * TicksPerSecond <= t2 - t1 < (s + 1) * TicksPerSecond
    ensures t2 < t1 ==> s <= 0 && (s - 1) * TicksPerSecond < t2 - t1 <= s * TicksPerSecond
  {
    TruncDivBounds(t2 - t1, TicksPerSecond);
    TruncDiv(t2 - t1, TicksPerSecond)
  }

  /** Row k is the first row of the table with its tag. */
  predicate FirstOfTag(tags: seq<int>, k: int) {
    0 <= k < |tags| && forall j :: 0 <= j < k ==> tags[j] != tags[k]
  }

  /** Tag `v` lies above the bound `lo` (every tag does when there is no bound). */
  predicate Above(v: int, lo: Option<int>) {
    lo.None? || v > lo.value
  }

  /** The position of the first row with tag v. */
  function FirstIndex(tags: seq<int>, v: int): (k: nat)
    requires v in tags
    ensures FirstOfTag(tags, k) && tags[k] == v
  {
    if tags[0] == v then 0
    else
      var k := 1 + FirstIndex(tags[1..], v);
      assert tags[1..][k - 1] == tags[k];
      k
  }

  /** The smallest tag above `lo`, if there is one. */
  function MinAbove(tags: seq<int>, lo: Option<int>): (m: Option<int>)
    ensures m.Some? ==> m.value in tags && Above(m.value, lo)
    ensures m.Some? ==> forall k :: 0 <= k < |tags| && Above(tags[k], lo) ==> m.value <= tags[k]
    ensures m.None? ==> forall k :: 0 <= k < |tags| ==> !Above(tags[k], lo)
  {
    if |tags| == 0 then None
    else
      var init := tags[..|tags| - 1];
      var v := tags[|tags| - 1];
      var m := MinAbove(init, lo);
      assert forall k :: 0 <= k < |tags| - 1 ==> tags[k] == init[k];
      if !Above(v, lo) then m
      else if m.None? || v < m.value then Some(v)
      else m
  }

  /** How many rows carry a tag above `lo`. */
  function CountAbove(tags: seq<int>, lo: Option<int>): (count: nat) {
    if |tags| == 0 then 0
    else CountAbove(tags[..|tags| - 1], lo) + (if Above(tags[|tags| - 1], lo) then 1 else 0)
  }

  /** Raising the bound to a tag above it that occurs in the table leaves fewer rows
      above the bound. */
  lemma {:induction false} CountAboveShrinks(tags: seq<int>, lo: Option<int>, m: int)
    requires m in tags && Above(m, lo)
    ensures CountAbove(tags, Some(m)) < CountAbove(tags, lo)
  {
    var n := |tags|;
    var init := tags[..n - 1];
    if tags[n - 1] == m {
      CountAboveNoMore(init, lo, m);
    } else {
      assert m in init by {
        var k :| 0 <= k < n && tags[k] == m;
        assert init[k] == m;
      }
      CountAboveShrinks(init, lo, m);
    }
  }

  /** Raising the bound never adds rows above it. */
  lemma {:induction false} CountAboveNoMore(tags: seq<int>, lo: Option<int>, m: int)
    requires Above(m, lo)
    ensures CountAbove(tags, Some(m)) <= CountAbove(tags, lo)
  {
    if |tags| > 0 {
      CountAboveNoMore(tags[..|tags| - 1], lo, m);
    }
  }

  /** `groupby('id_tag').first()` over the index, restricted to tags above `lo`:
      for each such tag, in ascending order of tag, the first row that carries it. */
  function GroupFirstsFrom(tags: seq<int>, lo: Option<int>): (f: seq<nat>)
    ensures forall j :: 0 <= j < |f| ==> f[j] < |tags|
    decreases CountAbove(tags, lo)
  {
    match MinAbove(tags, lo)
    case None => []
    case Some(m) =>
      CountAboveShrinks(tags, lo, m);
      [FirstIndex(tags, m)] + GroupFirstsFrom(tags, Some(m))
  }

  /** Two first rows with the same tag are the same row. */
  lemma FirstUnique(tags: seq<int>, a: int, b: int)
    requires FirstOfTag(tags, a) && FirstOfTag(tags, b) && tags[a] == tags[b]
    ensures a == b
  {
  }

  /** Every row `GroupFirstsFrom` lists is the first of its tag, and that tag lies
      above the bound. */
  lemma {:induction false} GroupFirstsFromAreFirsts(tags: seq<int>, lo: Option<int>)
    ensures forall j :: 0 <= j < |GroupFirstsFrom(tags, lo)| ==>
      FirstOfTag(tags, GroupFirstsFrom(tags, lo)[j]) && Above(tags[GroupFirstsFrom(tags, lo)[j]], lo)
    decreases CountAbove(tags, lo)
  {
    match MinAbove(tags, lo)
    case None =>
    case Some(m) =>
      CountAboveShrinks(tags, lo, m);
      GroupFirstsFromAreFirsts(tags, Some(m));
      var f, rest := GroupFirstsFrom(tags, lo), GroupFirstsFrom(tags, Some(m));
      assert forall j :: 0 < j < |f| ==> f[j] == rest[j - 1];
  }

  /** `GroupFirstsFrom` lists its rows in strictly ascending order of tag. */
  lemma {:induction false} GroupFirstsFromAscending(tags: seq<int>, lo: Option<int>)
    ensures forall i, j :: 0 <= i < j < |GroupFirstsFrom(tags, lo)| ==>
      tags[GroupFirstsFrom(tags, lo)[i]] < tags[GroupFirstsFrom(tags, lo)[j]]
    decreases CountAbove(tags, lo)
  {
    match MinAbove(tags, lo)
    case None =>
    case Some(m) =>
      CountAboveShrinks(tags, lo, m);
      GroupFirstsFromAscending(tags, Some(m));
      GroupFirstsFromAreFirsts(tags, Some(m));
      var f, rest := GroupFirstsFrom(tags, lo), GroupFirstsFrom(tags, Some(m));
      assert f[0] == FirstIndex(tags, m);
      forall i, j | 0 <= i < j < |f| ensures tags[f[i]] < tags[f[j]] {
        assert f[j] == rest[j - 1];
        if i > 0 {
          assert f[i] == rest[i - 1];
        }
      }
  }

  /** `GroupFirstsFrom` lists the first row of every tag above the bound. */
  lemma {:induction false} GroupFirstsFromCovers(tags: seq<int>, lo: Option<int>, k: int)
    requires FirstOfTag(tags, k) && Above(tags[k], lo)
    ensures k in GroupFirstsFrom(tags, lo)
    decreases CountAbove(tags, lo)
  {
    match MinAbove(tags, lo)
    case None =>
      assert false;
    case Some(m) =>
      CountAboveShrinks(tags, lo, m);
      var f, rest := GroupFirstsFrom(tags, lo), GroupFirstsFrom(tags, Some(m));
      if tags[k] == m {
        FirstUnique(tags, k, FirstIndex(tags, m));
        assert f[0] == k;
      } else {
        GroupFirstsFromCovers(tags, Some(m), k);
        var j :| 0 <= j < |rest| && rest[j] == k;
        assert f[j + 1] == k;
      }
  }

  /** `groupby('id_tag').first().tolist()` over the index labels: the first row of
      every tag, in ascending order of tag. */
  function GroupFirsts(tags: seq<int>): (f: seq<nat>)
    ensures forall j :: 0 <= j < |f| ==> f[j] < |tags| && FirstOfTag(tags, f[j])
    ensures forall i, j :: 0 <= i < j < |f| ==> tags[f[i]] < tags[f[j]]
    ensures forall k :: FirstOfTag(tags, k) <==> k in f
  {
    var f := GroupFirstsFrom(tags, None);
    GroupFirstsFromAreFirsts(tags, None);
    GroupFirstsFromAscending(tags, None);
    forall k | FirstOfTag(tags, k) ensures k in f {
      GroupFirstsFromCovers(tags, None, k);
    }
    f
  }

  /** Tags in ascending order, as `ascendingSort('id_tag', 'createdate')` leaves them. */
  predicate Sorted(tags: seq<int>) {
    forall i, j :: 0 <= i < j < |tags| ==> tags[i] <= tags[j]
  }

  /** On a table sorted by tag the rows of one tag form a contiguous block: a row is
      the first of its tag exactly when it is row 0 or its tag differs from the row
      before, and the first rows come out in row order. */
  lemma SortedFirsts(tags: seq<int>)
    requires Sorted(tags)
    ensures forall k :: 0 <= k < |tags| ==> (FirstOfTag(tags, k) <==> k == 0 || tags[k - 1] != tags[k])
    ensures forall i, j :: 0 <= i < j < |GroupFirsts(tags)| ==> GroupFirsts(tags)[i] < GroupFirsts(tags)[j]
  {
    forall k | 0 < k < |tags| && tags[k - 1] != tags[k]
      ensures FirstOfTag(tags, k)
    {
      forall j | 0 <= j < k ensures tags[j] != tags[k] {
        assert tags[j] <= tags[k - 1];
      }
    }
    var f := GroupFirsts(tags);
    assert forall i, j :: 0 <= i < j < |f| ==> tags[f[i]] < tags[f[j]];
  }

  /** `addNewColumn('second_diff')`: a column of zeros, one per row. */
  function AddNewColumn(n: nat): (c: seq<int>)
    ensures |c| == n
    ensures forall k :: 0 <= k < n ==> c[k] == 0
  {
    seq(n, k => 0)
  }

  /** The script's two loops over the `second_diff` column `secondDiff`. The first
      writes, into every row after row 0, the seconds since the row before, and
      computes the first rows of the tags; it leaves before looking at the last
      row, so on a table of fewer than two rows it does nothing and returns no
      first rows. The second loop writes 0 into each first row. */
  method ArrangeFirstElementOfEachIDtag(tags: seq<int>, times: seq<int>, secondDiff: seq<int>)
    returns (diff: seq<int>, firsts: seq<nat>)
    requires |times| == |tags| && |secondDiff| == |tags|
    ensures |diff| == |tags|
    ensures |tags| < 2 ==> firsts == [] && diff == secondDiff
    ensures |tags| >= 2 ==> firsts == GroupFirsts(tags)
    ensures |tags| >= 2 ==> forall k :: 0 <= k < |tags| ==>
      diff[k] == if FirstOfTag(tags, k) then 0 else SecondsBetween(times[k - 1], times[k])
  {
    var n := |tags|;
    diff := secondDiff;
    firsts := [];
    var i := 0;
    while i < n
      invariant i <= n && (n > 0 ==> i <= n - 1)
      invariant |diff| == n
      invariant firsts == if i == 0 then [] else GroupFirsts(tags)
      invariant forall k :: 0 <= k < n && (k == 0 || k > i) ==> diff[k] == secondDiff[k]
      invariant forall k :: 0 < k <= i ==> diff[k] == SecondsBetween(times[k - 1], times[k])
    {
      if i == n - 1 {
        break;
      }
      firsts := GroupFirsts(tags);
      diff := diff[i + 1 := SecondsBetween(times[i], times[i + 1])];
      i := i + 1;
    }
    ghost var written := diff;
    var j := 0;
    while j < |firsts|
      invariant j <= |firsts| && |diff| == n
      invariant forall k :: 0 <= k < n ==> diff[k] == if k in firsts[..j] then 0 else written[k]
    {
      diff := diff[firsts[j] := 0];
      j := j + 1;
    }
    assert firsts[..j] == firsts;
  }

  /** `addNewColumn('second_diff')` followed by `arrangeFirstElementOfEachIDtag`, as
      the script runs them (main.py:232-233): on every table, row k ends with 0 when
      it is the first row of its tag and otherwise with the whole seconds since row k-1. */
  method SecondDiffColumn(tags: seq<int>, times: seq<int>) returns (diff: seq<int>, firsts: seq<nat>)
    requires |times| == |tags|
    ensures |diff| == |tags|
    ensures forall k :: 0 <= k < |tags| ==>
      diff[k] == if FirstOfTag(tags, k) then 0 else SecondsBetween(times[k - 1], times[k])
    ensures firsts == if |tags| < 2 then [] else GroupFirsts(tags)
  {
    diff, firsts := ArrangeFirstElementOfEachIDtag(tags, times, AddNewColumn(|tags|));
    if |tags| == 1 {
      assert FirstOfTag(tags, 0);
    }
  }
}
