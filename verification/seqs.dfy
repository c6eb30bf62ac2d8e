/** Sequence and integer helpers shared by the cleaning steps. */
module Seqs {

  /** Integer quotient rounded toward zero: what `int(a / b)` gives in the script
      for a positive divisor (Dafny's own `/` rounds toward minus infinity). */
  function TruncDiv(a: int, b: int): (q: int)
    requires b > 0
  {
    if a >= 0 then a / b else -((-a) / b)
  }

  /** The quotient rounded toward zero is the integer next to a / b on zero's side. */
  lemma TruncDivBounds(a: int, b: int)
    requires b > 0
    ensures var q := TruncDiv(a, b);
      && (0 <= a ==> 0 <= q && q * b <= a < q * b + b)
      && (a < 0 ==> q <= 0 && q * b - b < a <= q * b)
  {
  }

  /** Sum of a sequence of integers, adding from the left. */
  function Sum(s: seq<int>): (total: int) {
    if |s| == 0 then 0 else Sum(s[..|s| - 1]) + s[|s| - 1]
  }

  /** The elements of `s` that satisfy `p`, in their original order: the model of
      indexing a dataframe with a boolean mask computed row by row. */
  function Where<T>(s: seq<T>, p: T -> bool): (r: seq<T>)
    ensures |r| <= |s|
    ensures forall k :: 0 <= k < |r| ==> p(r[k])
    ensures forall k :: 0 <= k < |r| ==> r[k] in s
    ensures forall k :: 0 <= k < |s| && p(s[k]) ==> s[k] in r
    ensures IsSubseq(r, s)
  {
    if |s| == 0 then []
    else
      var front := Where(s[..|s| - 1], p);
      if p(s[|s| - 1]) then
        var r := front + [s[|s| - 1]];
        assert r[..|r| - 1] == front;
        r
      else front
  }

  /** `a` can be obtained from `b` by deleting elements, without reordering. */
  ghost predicate IsSubseq<T>(a: seq<T>, b: seq<T>)
    decreases |b|
  {
    || |a| == 0
    || (&& |b| > 0
        && ((&& |a| > 0
             && a[|a| - 1] == b[|b| - 1]
             && IsSubseq(a[..|a| - 1], b[..|b| - 1]))
            || IsSubseq(a, b[..|b| - 1])))
  }

  /** No two elements of `s` share a key. */
  predicate Distinct<T, K(==)>(s: seq<T>, key: T -> K) {
    forall i, j :: 0 <= i < j < |s| ==> key(s[i]) != key(s[j])
  }

  /** The keys of `s` never decrease along the sequence. */
  predicate Ascending<T>(s: seq<T>, key: T -> int) {
    forall i, j :: 0 <= i < j < |s| ==> key(s[i]) <= key(s[j])
  }

  /** The positions of `s` whose element satisfies `p`. */
  ghost function Matches<T>(s: seq<T>, p: T -> bool): set<nat> {
    set i: nat | i < |s| && p(s[i])
  }

  /** The positions at which `mask` holds, in ascending order: the index labels a
      boolean mask over the table selects. `PositionsCover` shows that every such
      position is listed. */
  function Positions(mask: seq<bool>): (idx: seq<nat>)
    ensures forall k :: 0 <= k < |idx| ==> idx[k] < |mask| && mask[idx[k]]
    ensures forall i, j :: 0 <= i < j < |idx| ==> idx[i] < idx[j]
  {
    if |mask| == 0 then []
    else
      var n := |mask|;
      var front := Positions(mask[..n - 1]);
      assert forall k :: 0 <= k < |front| ==> mask[..n - 1][front[k]] == mask[front[k]];
      if mask[n - 1] then front + [n - 1] else front
  }

  /** Every position at which the mask holds is listed by `Positions`. */
  lemma {:induction false} PositionsCover(mask: seq<bool>, i: int)
    requires 0 <= i < |mask| && mask[i]
    ensures i in Positions(mask)
    decreases |mask|
  {
    var n := |mask|;
    if i < n - 1 {
      assert mask[..n - 1][i];
      PositionsCover(mask[..n - 1], i);
    }
  }

  /** A mask that extends another by one entry selects the same positions, plus the
      new one when it holds. */
  lemma MaskStep(front: seq<bool>, mask: seq<bool>)
    requires |mask| > 0 && mask[..|mask| - 1] == front
    ensures Positions(mask) == Positions(front) + (if mask[|mask| - 1] then [|mask| - 1] else [])
  {
  }

  /** Filtering keeps exactly as many elements as there are matching positions. */
  lemma {:induction false} WhereCount<T>(s: seq<T>, p: T -> bool)
    ensures |Where(s, p)| == |Matches(s, p)|
    decreases |s|
  {
    if |s| > 0 {
      WhereCount(s[..|s| - 1], p);
      MatchesSnoc(s, p);
    }
  }

  /** The matching positions of `s` are those of `s` without its last element, plus
      the last position when its element matches. */
  lemma MatchesSnoc<T>(s: seq<T>, p: T -> bool)
    requires |s| > 0
    ensures var n := |s|;
      Matches(s, p) == Matches(s[..n - 1], p) + (if p(s[n - 1]) then {n - 1} else {})
    ensures |s| - 1 !in Matches(s[..|s| - 1], p)
  {
    var n := |s|;
    var init := s[..n - 1];
    forall i | i in Matches(s, p) && i != n - 1 ensures i in Matches(init, p) {
      assert init[i] == s[i];
    }
    forall i | i in Matches(init, p) ensures i in Matches(s, p) {
      assert init[i] == s[i];
    }
  }

  /** Filtering a concatenation filters each part. */
  lemma {:induction false} WhereAppend<T>(a: seq<T>, b: seq<T>, p: T -> bool)
    ensures Where(a + b, p) == Where(a, p) + Where(b, p)
    decreases |b|
  {
    if |b| == 0 {
      assert a + b == a;
    } else {
      var n := |b|;
      assert (a + b)[..|a + b| - 1] == a + b[..n - 1];
      WhereAppend(a, b[..n - 1], p);
    }
  }

  /** A filter that every element passes changes nothing. */
  lemma {:induction false} WhereAll<T>(s: seq<T>, p: T -> bool)
    requires forall k :: 0 <= k < |s| ==> p(s[k])
    ensures Where(s, p) == s
    decreases |s|
  {
    if |s| > 0 {
      WhereAll(s[..|s| - 1], p);
      assert s[..|s| - 1] + [s[|s| - 1]] == s;
    }
  }

  /** A filter that only the first element passes leaves just that element. */
  lemma {:induction false} WhereOnlyFirst<T>(s: seq<T>, p: T -> bool)
    requires |s| > 0 && p(s[0])
    requires forall k :: 0 < k < |s| ==> !p(s[k])
    ensures Where(s, p) == [s[0]]
    decreases |s|
  {
    if |s| == 1 {
      assert s[..0] == [];
    } else {
      WhereOnlyFirst(s[..|s| - 1], p);
    }
  }

  /** Filtering twice in a row is filtering once by the conjunction. */
  lemma {:induction false} WhereFuse<T>(s: seq<T>, p: T -> bool, q: T -> bool, pq: T -> bool)
    requires forall e :: pq(e) == (p(e) && q(e))
    ensures Where(Where(s, p), q) == Where(s, pq)
    decreases |s|
  {
    if |s| > 0 {
      var n := |s|;
      var last := s[n - 1];
      WhereFuse(s[..n - 1], p, q, pq);
      var front := Where(s[..n - 1], p);
      if p(last) {
        WhereAppend(front, [last], q);
        assert Where([last], q) == (if q(last) then [last] else []) by {
          assert [last][..0] == [];
        }
      }
    }
  }

  /** Every element of a subsequence occurs in the sequence it was taken from. */
  lemma {:induction false} SubseqIn<T>(a: seq<T>, b: seq<T>)
    requires IsSubseq(a, b)
    ensures forall k :: 0 <= k < |a| ==> a[k] in b
    decreases |b|
  {
    if |a| > 0 {
      var na, nb := |a|, |b|;
      if a[na - 1] == b[nb - 1] && IsSubseq(a[..na - 1], b[..nb - 1]) {
        SubseqIn(a[..na - 1], b[..nb - 1]);
        forall k | 0 <= k < na ensures a[k] in b {
          if k < na - 1 {
            assert a[k] == a[..na - 1][k];
            assert a[k] in b[..nb - 1];
          }
        }
      } else {
        SubseqIn(a, b[..nb - 1]);
        forall k | 0 <= k < na ensures a[k] in b {
          assert a[k] in b[..nb - 1];
        }
      }
    }
  }

  /** Appending an element whose key no earlier element has keeps the keys distinct. */
  lemma DistinctSnoc<T, K>(front: seq<T>, e: T, key: T -> K)
    requires Distinct(front, key)
    requires forall k :: 0 <= k < |front| ==> key(front[k]) != key(e)
    ensures Distinct(front + [e], key)
  {
    var r := front + [e];
    forall i, j | 0 <= i < j < |r|
      ensures key(r[i]) != key(r[j])
    {
      assert r[i] == front[i];
      if j < |front| {
        assert r[j] == front[j];
      }
    }
  }

  /** A subsequence of a sequence with distinct keys has distinct keys. */
  lemma {:induction false} SubseqKeepsDistinct<T, K>(a: seq<T>, b: seq<T>, key: T -> K)
    requires IsSubseq(a, b) && Distinct(b, key)
    ensures Distinct(a, key)
    decreases |b|
  {
    if |a| > 0 {
      var na, nb := |a|, |b|;
      var binit := b[..nb - 1];
      assert Distinct(binit, key) by {
        forall i, j | 0 <= i < j < |binit| ensures key(binit[i]) != key(binit[j]) {
          assert binit[i] == b[i] && binit[j] == b[j];
        }
      }
      if a[na - 1] == b[nb - 1] && IsSubseq(a[..na - 1], binit) {
        var ainit := a[..na - 1];
        SubseqKeepsDistinct(ainit, binit, key);
        SubseqIn(ainit, binit);
        forall k | 0 <= k < |ainit| ensures key(ainit[k]) != key(a[na - 1]) {
          var m :| 0 <= m < nb - 1 && binit[m] == ainit[k];
          assert binit[m] == b[m];
        }
        DistinctSnoc(ainit, a[na - 1], key);
        assert ainit + [a[na - 1]] == a;
      } else {
        SubseqKeepsDistinct(a, binit, key);
      }
    }
  }

  /** Appending an element no smaller than any before it keeps a key non-decreasing. */
  lemma AscendingSnoc<T>(front: seq<T>, e: T, key: T -> int)
    requires Ascending(front, key)
    requires forall k :: 0 <= k < |front| ==> key(front[k]) <= key(e)
    ensures Ascending(front + [e], key)
  {
    var r := front + [e];
    forall i, j | 0 <= i < j < |r|
      ensures key(r[i]) <= key(r[j])
    {
      assert r[i] == front[i];
      if j < |front| {
        assert r[j] == front[j];
      }
    }
  }

  /** A subsequence of a sequence with a non-decreasing key keeps it non-decreasing. */
  lemma {:induction false} SubseqKeepsAscending<T>(a: seq<T>, b: seq<T>, key: T -> int)
    requires IsSubseq(a, b) && Ascending(b, key)
    ensures Ascending(a, key)
    decreases |b|
  {
    if |a| > 0 {
      var na, nb := |a|, |b|;
      var binit := b[..nb - 1];
      assert Ascending(binit, key) by {
        forall i, j | 0 <= i < j < |binit| ensures key(binit[i]) <= key(binit[j]) {
          assert binit[i] == b[i] && binit[j] == b[j];
        }
      }
      if a[na - 1] == b[nb - 1] && IsSubseq(a[..na - 1], binit) {
        var ainit := a[..na - 1];
        SubseqKeepsAscending(ainit, binit, key);
        SubseqIn(ainit, binit);
        forall k | 0 <= k < |ainit| ensures key(ainit[k]) <= key(a[na - 1]) {
          var m :| 0 <= m < nb - 1 && binit[m] == ainit[k];
          assert binit[m] == b[m];
        }
        AscendingSnoc(ainit, a[na - 1], key);
        assert ainit + [a[na - 1]] == a;
      } else {
        SubseqKeepsAscending(a, binit, key);
      }
    }
  }

  /** Being a subsequence is transitive. */
  lemma {:induction false} SubseqTrans<T>(a: seq<T>, b: seq<T>, c: seq<T>)
    requires IsSubseq(a, b) && IsSubseq(b, c)
    ensures IsSubseq(a, c)
    decreases |c|
  {
    if |a| > 0 {
      var nb, nc := |b|, |c|;
      if nb > 0 && b[nb - 1] == c[nc - 1] && IsSubseq(b[..nb - 1], c[..nc - 1]) {
        if a[|a| - 1] == b[nb - 1] && IsSubseq(a[..|a| - 1], b[..nb - 1]) {
          SubseqTrans(a[..|a| - 1], b[..nb - 1], c[..nc - 1]);
        } else {
          SubseqTrans(a, b[..nb - 1], c[..nc - 1]);
        }
      } else {
        SubseqTrans(a, b, c[..nc - 1]);
      }
    }
  }

  /** Bounds on every element bound the sum. */
  lemma {:induction false} SumBounds(s: seq<int>, lo: int, hi: int)
    requires forall k :: 0 <= k < |s| ==> lo <= s[k] <= hi
    ensures |s| * lo <= Sum(s) <= |s| * hi
    decreases |s|
  {
    if |s| > 0 {
      SumBounds(s[..|s| - 1], lo, hi);
    }
  }

  /** Multiplying by a positive number preserves order both ways. */
  lemma MulMonotone(a: int, b: int, n: int)
    requires n > 0
    ensures a <= b <==> a * n <= b * n
  {
    if a <= b {
      assert b * n - a * n == (b - a) * n;
    } else {
      assert a * n - b * n == (a - b) * n;
    }
  }

  /** An integer total of `n` values in [lo, hi], divided by `n` toward zero, lies in [lo, hi]. */
  lemma TruncDivWithin(total: int, n: int, lo: int, hi: int)
    requires n > 0
    requires lo * n <= total <= hi * n
    ensures lo <= TruncDiv(total, n) <= hi
  {
    var q := TruncDiv(total, n);
    TruncDivBounds(total, n);
    if total >= 0 {
      assert q * n <= total < q * n + n;
      assert q * n + n == (q + 1) * n;
      MulMonotone(q, hi, n);
      MulMonotone(q + 1, lo, n);
    } else {
      assert q * n - n < total <= q * n;
      assert q * n - n == (q - 1) * n;
      MulMonotone(q - 1, hi, n);
      MulMonotone(lo, q, n);
    }
  }

  /** The truncated mean of values that lie in [lo, hi] lies in [lo, hi] too. */
  lemma MeanWithin(s: seq<int>, lo: int, hi: int)
    requires |s| > 0
    requires forall k :: 0 <= k < |s| ==> lo <= s[k] <= hi
    ensures lo <= TruncDiv(Sum(s), |s|) <= hi
  {
    SumBounds(s, lo, hi);
    TruncDivWithin(Sum(s), |s|, lo, hi);
  }
}
