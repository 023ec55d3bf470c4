/** What `clean_data` and `transform_data` (Task.py:27-79) promise about the frame they return. */
module CleanProperties {
  import opened Wrappers
  import opened Numeric
  import opened RowFilter
  import opened Imputation
  import opened Grading
  import opened Roster
  import opened DropProperties

  /** `clean_data` fails exactly when a score column has rows but no number, or when a score
      column is absent. */
  lemma CleanFailure(t: Table)
    requires WellFormed(t)
    ensures Clean(t).Err? <==> (exists k :: 0 <= k < 5 && Unfillable(t.scores[k])) || !HasScores(t)
  {
    RepairFails(t.scores, |t.scores|);
    var s := RepairScores(t).0;
    if RepairScores(t).1.None? {
      AbsentNone(RepairUfid(s));
    }
  }

  /** The cast error names the first score column that has rows but no number. */
  lemma CleanCastError(t: Table, j: nat)
    requires WellFormed(t) && j < 5 && Unfillable(t.scores[j])
    requires forall i :: 0 <= i < j ==> !Unfillable(t.scores[i])
    ensures Clean(t) == Err(CastError(SCORE_NAMES[j]))
  {
    RepairFails(t.scores, |t.scores|);
    RepairReportsFirst(t.scores, |t.scores|);
  }

  /** Frames with the same score columns present lack the same names. */
  lemma AbsentSame(t: Table, u: Table)
    requires |t.scores| == |u.scores| == 5
    requires forall k :: 0 <= k < 5 ==> u.scores[k].Some? == t.scores[k].Some?
    ensures AbsentScores(u) == AbsentScores(t)
  {
    assert seq(5, k requires 0 <= k < 5 => u.scores[k].None?)
        == seq(5, k requires 0 <= k < 5 => t.scores[k].None?);
  }

  /** With every present score column fillable, the lookup error names the absent ones. */
  lemma CleanKeyError(t: Table)
    requires WellFormed(t) && !HasScores(t)
    requires forall k :: 0 <= k < 5 ==> !Unfillable(t.scores[k])
    ensures Clean(t) == Err(KeyError(AbsentScores(t)))
  {
    assert RepairScores(t).1.None? by {
      RepairFails(t.scores, |t.scores|);
    }
    var u := RepairUfid(RepairScores(t).0);
    AbsentSame(t, u);
    assert !HasScores(u);
    assert AddTotal(u) == Err(KeyError(AbsentScores(t)));
  }

  /** A frame as `clean_data` returns it: all five score columns as integers, a total per row that
      is the sum of its five scores, and a grade per row that is the band of its total. */
  predicate Graded(c: Table) {
    && WellFormed(c) && HasScores(c) && ScoresCast(c) && c.total.Some? && c.grade.Some?
    && (forall i :: 0 <= i < c.rows ==>
          c.total.value[i] == ScoreAt(c, 0, i) + ScoreAt(c, 1, i) + ScoreAt(c, 2, i)
                              + ScoreAt(c, 3, i) + ScoreAt(c, 4, i))
    && (forall i :: 0 <= i < c.rows ==> c.grade.value[i] == Band(c.total.value[i]))
  }

  /** Whatever `clean_data` returns is graded, with its UFID column, if any, cast to integers. */
  lemma CleanGraded(t: Table)
    requires WellFormed(t) && Clean(t).Ok?
    ensures Graded(Clean(t).value)
    ensures Clean(t).value.ufid.Some? == t.ufid.Some?
    ensures t.ufid.Some? ==> Clean(t).value.ufid.value.IntIds?
  {
    var s := RepairScores(t).0;
    var u := RepairUfid(s);
    AbsentNone(u);
  }

  /** Apart from the UFID, total and grade columns, the frame `clean_data` returns is the frame
      with its score columns repaired and the surviving rows kept. */
  lemma CleanStructure(t: Table, c: Table)
    requires WellFormed(t) && Clean(t) == Ok(c)
    ensures HasScores(t) && RepairScores(t).1.None? && Graded(c)
    ensures forall k :: 0 <= k < 5 ==> !Unfillable(t.scores[k])
    ensures var d := DropRows(RepairScores(t).0, Survivors(t));
            c.rows == d.rows && c.scores == d.scores && c.extra == d.extra && c.percent == d.percent
  {
    assert HasScores(t) && forall k :: 0 <= k < 5 ==> !Unfillable(t.scores[k]) by {
      CleanFailure(t);
    }
    assert RepairScores(t).1.None? by {
      RepairFails(t.scores, |t.scores|);
    }
    assert Graded(c) by {
      CleanGraded(t);
    }
    var s := RepairScores(t).0;
    RepairUfidDrops(s);
    assert Survivors(s) == Survivors(t);
  }

  /** Row `j` of a repaired frame with the surviving rows kept holds, in score column `k`, the
      repaired score of the `j`-th surviving row. */
  lemma RepairedScoreAt(t: Table, k: nat, j: nat)
    requires WellFormed(t) && k < 5 && t.scores[k].Some? && RepairScores(t).1.None?
    requires j < CountTrue(Survivors(t))
    ensures RepairCells(ScoreCells(t.scores[k].value)).Some?
    ensures var d := DropRows(RepairScores(t).0, Survivors(t));
            && d.scores[k].Some? && d.scores[k].value.IntScores? && j < |d.scores[k].value.vals|
            && d.scores[k].value.vals[j]
                 == RepairCells(ScoreCells(t.scores[k].value)).value[KeptIndices(Survivors(t))[j]]
  {
    var s := RepairScores(t).0;
    var mask := Survivors(t);
    assert RepairCells(ScoreCells(t.scores[k].value)).Some? &&
           s.scores[k] == Some(IntScores(RepairCells(ScoreCells(t.scores[k].value)).value)) by {
      RepairRepairs(t.scores, |t.scores|, k);
    }
    var vals := RepairCells(ScoreCells(t.scores[k].value)).value;
    assert DropRows(s, mask).scores[k] == Some(IntScores(Keep(vals, mask)));
    KeepAt(vals, mask, j);
  }

  /** `clean_data` returns one row per row of the input whose UFID is a number (every row when
      the input has no UFID column). */
  lemma CleanRowCount(t: Table, c: Table)
    requires WellFormed(t) && Clean(t) == Ok(c)
    ensures c.rows == CountTrue(Survivors(t))
  {
    CleanStructure(t, c);
  }

  /** Score `k` of row `j` of the result is the repaired score of the `j`-th surviving input row,
      repaired with the mean over the whole input, the rows dropped afterwards included. */
  lemma CleanScoreAt(t: Table, c: Table, k: nat, j: nat)
    requires WellFormed(t) && Clean(t) == Ok(c) && k < 5 && j < c.rows
    ensures Graded(c) && t.scores[k].Some? && RepairCells(ScoreCells(t.scores[k].value)).Some?
    ensures c.rows == CountTrue(Survivors(t))
    ensures ScoreAt(c, k, j) == RepairCells(ScoreCells(t.scores[k].value)).value[KeptIndices(Survivors(t))[j]]
  {
    CleanStructure(t, c);
    RepairedScoreAt(t, k, j);
  }

  /** Every other column of row `j` of the result is that of the `j`-th surviving input row. */
  lemma CleanExtraAt(t: Table, c: Table, e: nat, j: nat)
    requires WellFormed(t) && Clean(t) == Ok(c) && e < |t.extra| && j < c.rows
    ensures c.rows == CountTrue(Survivors(t)) && |c.extra| == |t.extra| && j < |c.extra[e]|
    ensures c.extra[e][j] == t.extra[e][KeptIndices(Survivors(t))[j]]
  {
    CleanStructure(t, c);
    DropRowsKeepsRows(RepairScores(t).0, Survivors(t), j);
  }

  /** With a UFID column, the UFIDs `clean_data` returns are the reference list of valid UFIDs. */
  lemma CleanUfids(t: Table)
    requires WellFormed(t) && Clean(t).Ok? && t.ufid.Some?
    ensures Clean(t).value.ufid == Some(IntIds(ValidIds(IdCells(t.ufid.value))))
  {
    RepairUfidOnePass(RepairScores(t).0);
  }

  /** A loop over score columns that all hold integers changes nothing. */
  lemma {:induction false} RepairColumnsFixed(cols: seq<Option<ScoreColumn>>, k: nat)
    requires k <= |cols| == 5
    requires forall j :: 0 <= j < 5 && cols[j].Some? ==> cols[j].value.IntScores?
    ensures RepairColumnsUpTo(cols, k) == (cols, None)
  {
    if k > 0 {
      RepairColumnsFixed(cols, k - 1);
      if cols[k - 1].Some? {
        var c := cols[k - 1].value;
        RepairIdempotent(c.vals);
        assert RepairColumn(c) == Some(c);
        assert cols[k - 1 := Some(c)] == cols;
      }
    }
  }

  /** Recomputing the total of a graded frame gives the total it has. */
  lemma AddTotalFixed(c: Table)
    requires Graded(c)
    ensures AddTotal(c) == Ok(c)
  {
    AbsentNone(c);
    var r := AddTotal(c).value;
    assert r.total.value == c.total.value;
  }

  /** Regrading a graded frame gives the grades it has. */
  lemma AssignGradesFixed(c: Table)
    requires Graded(c)
    ensures AssignGrades(c) == c
  {
    assert AssignGrades(c).grade.value == c.grade.value;
  }

  /** A graded frame whose UFIDs are integers passes `clean_data` unchanged. */
  lemma CleanFixed(c: Table)
    requires Graded(c) && (c.ufid.Some? ==> c.ufid.value.IntIds?)
    ensures Clean(c) == Ok(c)
  {
    assert RepairScores(c) == (c, None) by {
      RepairColumnsFixed(c.scores, |c.scores|);
    }
    RepairUfidFixed(c);
    AddTotalFixed(c);
    AssignGradesFixed(c);
  }

  /** `clean_data` is idempotent: cleaning its own output returns that output. */
  lemma CleanIdempotent(t: Table, c: Table)
    requires WellFormed(t) && Clean(t) == Ok(c)
    ensures Clean(c) == Ok(c)
  {
    CleanGraded(t);
    CleanFixed(c);
  }

  /** Every score as read in a frame lies within [lo, hi]. */
  predicate ScoresWithin(t: Table, lo: real, hi: real)
    requires WellFormed(t)
  {
    forall k, i :: 0 <= k < 5 && t.scores[k].Some? && 0 <= i < t.rows && ScoreCells(t.scores[k].value)[i].Some?
      ==> lo <= ScoreCells(t.scores[k].value)[i].value <= hi
  }

  /** Scores as read within [0, 100] give every row of the result a total within [0, 500]. */
  lemma CleanRowTotalInRange(t: Table, c: Table, i: nat)
    requires WellFormed(t) && Clean(t) == Ok(c) && ScoresWithin(t, 0.0, 100.0) && i < c.rows
    ensures c.total.Some? && |c.total.value| == c.rows
    ensures 0 <= c.total.value[i] <= 500
  {
    assert Graded(c) by {
      CleanGraded(t);
    }
    RoundOfInteger(0);
    RoundOfInteger(100);
    forall k | 0 <= k < 5
      ensures 0 <= ScoreAt(c, k, i) <= 100
    {
      CleanScoreAt(t, c, k, i);
      RepairWithinObservedRange(ScoreCells(t.scores[k].value), 0.0, 100.0);
    }
  }

  /** Scores as read all within [0, 100] give totals within [0, 500]. */
  lemma CleanTotalsInRange(t: Table, c: Table)
    requires WellFormed(t) && Clean(t) == Ok(c) && ScoresWithin(t, 0.0, 100.0)
    ensures c.total.Some? && |c.total.value| == c.rows
    ensures forall i :: 0 <= i < c.rows ==> 0 <= c.total.value[i] <= 500
  {
    assert Graded(c) by {
      CleanGraded(t);
    }
    forall i | 0 <= i < c.rows
      ensures 0 <= c.total.value[i] <= 500
    {
      CleanRowTotalInRange(t, c, i);
    }
  }

  /** `transform_data` never fails on the output of `clean_data`, and with scores as read within
      [0, 100] every percentage lies within [0, 100] (in hundredths, [0, 10000]). */
  lemma PercentAfterClean(t: Table, c: Table)
    requires WellFormed(t) && Clean(t) == Ok(c) && ScoresWithin(t, 0.0, 100.0)
    ensures Transform(c).Ok?
    ensures var p := Transform(c).value;
            p.percent.Some? && forall i :: 0 <= i < p.rows ==> 0 <= p.percent.value[i] <= 10000
  {
    CleanTotalsInRange(t, c);
  }
}
