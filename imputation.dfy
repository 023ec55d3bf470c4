/** Repair of one score column (Task.py:33-34): `np.nanmean` of the present entries, `fillna` with
    that mean, `round(0)` and `astype(int)`. A column is a sequence of cells, `None` for a missing
    entry (NaN) and `Some(v)` for a number as read. */
module Imputation {
  import opened Wrappers
  import opened Numeric

  type Column = seq<Option<real>>

  /** The sum of the present entries. */
  function Sum(col: Column): real {
    if col == [] then 0.0
    else Sum(col[..|col| - 1]) + col[|col| - 1].GetOr(0.0)
  }

  /** The number of present entries. */
  function Count(col: Column): (n: nat)
    ensures n <= |col|
  {
    if col == [] then 0
    else Count(col[..|col| - 1]) + (if col[|col| - 1].Some? then 1 else 0)
  }

  /** A missing entry neither adds to the sum nor counts: `np.nanmean` ignores NaN. */
  lemma {:induction false} SumIgnoresMissing(a: Column, b: Column)
    ensures Sum(a + [None] + b) == Sum(a + b) && Count(a + [None] + b) == Count(a + b)
    decreases |b|
  {
    if b == [] {
      assert (a + [None])[..|a|] == a;
      assert a + [] == a && a + [None] + [] == a + [None];
    } else {
      var n := |b| - 1;
      SumIgnoresMissing(a, b[..n]);
      assert (a + [None] + b)[..|a| + 1 + n] == a + [None] + b[..n];
      assert (a + b)[..|a| + n] == a + b[..n];
    }
  }

  /** A column has no present entry exactly when its count is zero. */
  lemma {:induction false} CountZeroIffAllMissing(col: Column)
    ensures Count(col) == 0 <==> forall i :: 0 <= i < |col| ==> col[i].None?
  {
    if col != [] {
      var n := |col| - 1;
      CountZeroIffAllMissing(col[..n]);
      assert forall i :: 0 <= i < n ==> col[..n][i] == col[i];
    }
  }

  /** `np.nanmean`: the mean of the present entries, none when there is none (NaN). */
  function Mean(col: Column): (m: Option<real>)
    ensures m.None? <==> forall i :: 0 <= i < |col| ==> col[i].None?
    ensures m.Some? ==> m.value * (Count(col) as real) == Sum(col)
  {
    CountZeroIffAllMissing(col);
    if Count(col) == 0 then None else Some(Sum(col) / (Count(col) as real))
  }

  /** A column holds no number at all although it has rows. */
  predicate AllMissing(col: Column) {
    |col| > 0 && forall i :: 0 <= i < |col| ==> col[i].None?
  }

  /** The repaired column: every entry, or the mean in place of a missing one, rounded half to even.
      `None` when the column has rows but no number, where `fillna(NaN)` leaves NaN and the cast to
      int fails; an empty column casts without error. */
  function RepairCells(col: Column): (r: Option<seq<int>>)
    ensures r.None? <==> AllMissing(col)
    ensures r.Some? ==> |r.value| == |col|
  {
    match Mean(col)
    case None => if |col| == 0 then Some([]) else None
    case Some(m) => Some(seq(|col|, i requires 0 <= i < |col| => RoundHalfEven(col[i].GetOr(m))))
  }

  /** A missing entry becomes the column mean, rounded. */
  lemma MissingBecomesRoundedMean(col: Column, i: nat)
    requires i < |col| && col[i].None? && !AllMissing(col)
    ensures Mean(col).Some?
    ensures RepairCells(col).value[i] == RoundHalfEven(Mean(col).value)
  {
  }

  /** A present entry is only rounded. */
  lemma PresentIsRounded(col: Column, i: nat)
    requires i < |col| && col[i].Some?
    ensures RepairCells(col).Some?
    ensures RepairCells(col).value[i] == RoundHalfEven(col[i].value)
  {
  }

  /** The column [80, missing, 90] is repaired to [80, 85, 90]. */
  lemma RepairExample()
    ensures RepairCells([Some(80.0), None, Some(90.0)]) == Some([80, 85, 90])
  {
    var col: Column := [Some(80.0), None, Some(90.0)];
    var one: Column, two: Column := [Some(80.0)], [Some(80.0), None];
    assert Sum(one) == 80.0 && Count(one) == 1 by {
      assert |one[..0]| == 0;
    }
    assert Sum(two) == 80.0 && Count(two) == 1 by {
      assert two[..1] == one;
    }
    assert Sum(col) == 170.0 && Count(col) == 2 by {
      assert col[..2] == two;
    }
    assert Mean(col) == Some(85.0) by {
      assert 170.0 / 2.0 == 85.0;
    }
    var r := RepairCells(col).value;
    assert r[0] == 80 && r[1] == 85 && r[2] == 90 by {
      RoundOfInteger(80);
      RoundOfInteger(85);
      RoundOfInteger(90);
    }
    assert r == [80, 85, 90];
  }

  /** The column as read of a column that already holds integers. */
  function FromInts(vals: seq<int>): Column {
    seq(|vals|, i requires 0 <= i < |vals| => Some(vals[i] as real))
  }

  /** A column with no missing entry and integral values is left unchanged: the repair is
      idempotent. */
  lemma RepairIdempotent(vals: seq<int>)
    ensures RepairCells(FromInts(vals)) == Some(vals)
  {
    var col := FromInts(vals);
    if |vals| > 0 {
      assert col[0].Some?;
      var r := RepairCells(col).value;
      forall i | 0 <= i < |vals|
        ensures r[i] == vals[i]
      {
        RoundOfInteger(vals[i]);
      }
      assert r == vals;
    }
  }

  /** The present entries of a column whose numbers are all at least lo add up to at least
      count times lo. */
  lemma {:induction false} SumAtLeast(col: Column, lo: real)
    requires forall i :: 0 <= i < |col| && col[i].Some? ==> lo <= col[i].value
    ensures (Count(col) as real) * lo <= Sum(col)
  {
    if col != [] {
      var n := |col| - 1;
      var p := col[..n];
      assert forall i :: 0 <= i < n ==> p[i] == col[i];
      SumAtLeast(p, lo);
      if col[n].Some? {
        var c := Count(p) as real;
        assert (c + 1.0) * lo == c * lo + lo;
      }
    }
  }

  /** The present entries of a column whose numbers are all at most hi add up to at most
      count times hi. */
  lemma {:induction false} SumAtMost(col: Column, hi: real)
    requires forall i :: 0 <= i < |col| && col[i].Some? ==> col[i].value <= hi
    ensures Sum(col) <= (Count(col) as real) * hi
  {
    if col != [] {
      var n := |col| - 1;
      var p := col[..n];
      assert forall i :: 0 <= i < n ==> p[i] == col[i];
      SumAtMost(p, hi);
      if col[n].Some? {
        var c := Count(p) as real;
        assert (c + 1.0) * hi == c * hi + hi;
      }
    }
  }

  /** The mean lies within the range of the present entries. */
  lemma MeanWithin(col: Column, lo: real, hi: real)
    requires forall i :: 0 <= i < |col| && col[i].Some? ==> lo <= col[i].value <= hi
    requires Mean(col).Some?
    ensures lo <= Mean(col).value <= hi
  {
    SumAtLeast(col, lo);
    SumAtMost(col, hi);
    Unscale(Count(col) as real, Mean(col).value, Sum(col), lo, hi);
  }

  /** The arithmetic step of MeanWithin: dividing bounds by a positive count. */
  lemma Unscale(c: real, m: real, s: real, lo: real, hi: real)
    requires c > 0.0 && m * c == s && c * lo <= s <= c * hi
    ensures lo <= m <= hi
  {
    assert c * lo <= c * m <= c * hi;
  }

  /** Imputation never leaves the range of the observed scores: when every present entry lies in
      [lo, hi], every repaired entry lies between the roundings of lo and hi. */
  lemma RepairWithinObservedRange(col: Column, lo: real, hi: real)
    requires forall i :: 0 <= i < |col| && col[i].Some? ==> lo <= col[i].value <= hi
    requires RepairCells(col).Some?
    ensures forall i :: 0 <= i < |col| ==>
              RoundHalfEven(lo) <= RepairCells(col).value[i] <= RoundHalfEven(hi)
  {
    var r := RepairCells(col).value;
    forall i | 0 <= i < |col|
      ensures RoundHalfEven(lo) <= r[i] <= RoundHalfEven(hi)
    {
      var x := if col[i].Some? then col[i].value else (MeanWithin(col, lo, hi); Mean(col).value);
      assert lo <= x <= hi;
      assert r[i] == RoundHalfEven(x);
      RoundMonotone(lo, x);
      RoundMonotone(x, hi);
    }
  }
}
