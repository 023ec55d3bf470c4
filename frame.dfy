/** The pandas DataFrame that `clean_data` and `transform_data` (Task.py:27-79) change in place:
    assigning a column changes the object the caller holds, `dropna(...).copy()` makes a new one. */
module Frames {
  import opened Wrappers
  import opened RowFilter
  import opened Ufid
  import opened Grading
  import Roster

  class Frame {
    var rows: nat
    var ufid: Option<Roster.IdColumn>
    var scores: seq<Option<Roster.ScoreColumn>>
    var extra: seq<seq<Cell>>
    var total: Option<seq<int>>
    var grade: Option<seq<Grade>>
    var percent: Option<seq<int>>

    /** The table the frame holds. */
    function Value(): Roster.Table
      reads this
    {
      Roster.Table(rows, ufid, scores, extra, total, grade, percent)
    }

    constructor (t: Roster.Table)
      ensures Value() == t
    {
      rows, ufid, scores, extra := t.rows, t.ufid, t.scores, t.extra;
      total, grade, percent := t.total, t.grade, t.percent;
    }

    /** `df.copy()`: a new frame holding the same table. */
    method Copy() returns (c: Frame)
      ensures fresh(c) && c.Value() == Value()
    {
      c := new Frame(Value());
    }

    /** The loop of Task.py:31-34: each score column the frame has, in SCORE_NAMES order, is
        replaced by its repaired form; a column with rows but no number raises, leaving the
        columns before it repaired and the rest as they were. */
    method RepairScores() returns (err: Option<Roster.PipelineError>)
      requires Roster.WellFormed(Value())
      modifies this
      ensures (Value(), err) == Roster.RepairScores(old(Value()))
    {
      var k := 0;
      while k < 5
        invariant 0 <= k <= 5
        invariant Value() == old(Value()).(scores := scores)
        invariant Roster.RepairColumnsUpTo(old(scores), k) == (scores, None)
      {
        if scores[k].Some? {
          var repaired := Roster.RepairColumn(scores[k].value);
          if repaired.None? {
            err := Some(Roster.CastError(Roster.SCORE_NAMES[k]));
            Roster.RepairStops(old(scores), k + 1, 5);
            return;
          }
          scores := scores[k := repaired];
        }
        k := k + 1;
      }
      err := None;
    }

    /** `dropna(subset=['UFID'])` on this frame (Task.py:40, 44). */
    method DropMissingUfid()
      requires Roster.WellFormed(Value()) && ufid.Some?
      modifies this
      ensures Value() == Roster.DropMissingUfid(old(Value()))
    {
      var t := Roster.DropMissingUfid(Value());
      rows, ufid, scores, extra := t.rows, t.ufid, t.scores, t.extra;
      total, grade, percent := t.total, t.grade, t.percent;
    }

    /** `df['UFID'] = pd.to_numeric(df['UFID'], errors='coerce')` (Task.py:43). */
    method CoerceUfid()
      requires Roster.WellFormed(Value()) && ufid.Some?
      modifies this
      ensures Value() == Roster.CoerceUfid(old(Value()))
    {
      ufid := Some(Roster.RawIds(Roster.Coerced(Roster.IdCells(ufid.value))));
    }

    /** `df['UFID'] = df['UFID'].astype(int)` (Task.py:45). */
    method CastUfid()
      requires Roster.WellFormed(Value()) && ufid.Some? && ufid.value.RawIds?
      requires forall i :: 0 <= i < rows ==> ufid.value.cells[i].Num?
      modifies this
      ensures Value() == Roster.CastUfid(old(Value()))
    {
      ufid := Roster.CastUfid(Value()).ufid;
    }

    /** `df['Calculated Total Score'] = np.sum(df[numeric_columns].values, axis=1)` (Task.py:49):
        the lookup error leaves the frame as it was. */
    method AddTotal() returns (err: Option<Roster.PipelineError>)
      requires Roster.WellFormed(Value()) && Roster.ScoresCast(Value())
      modifies this
      ensures Roster.AddTotal(old(Value())).Err? ==>
                err == Some(Roster.AddTotal(old(Value())).error) && Value() == old(Value())
      ensures Roster.AddTotal(old(Value())).Ok? ==>
                err.None? && Value() == Roster.AddTotal(old(Value())).value
    {
      var r := Roster.AddTotal(Value());
      if r.Err? {
        err := Some(r.error);
      } else {
        err := None;
        total := r.value.total;
      }
    }

    /** `df['Calculated Grade'] = df['Calculated Total Score'].apply(assign_grade)` (Task.py:67). */
    method AssignGrades()
      requires Roster.WellFormed(Value()) && total.Some?
      modifies this
      ensures Value() == Roster.AssignGrades(old(Value()))
    {
      grade := Roster.AssignGrades(Value()).grade;
    }

    /** The loop of Task.py:70-71: each score column and the total cast to integers again. They
        hold integers already, so the frame keeps its value. */
    method RecastColumns()
      requires Roster.WellFormed(Value()) && Roster.HasScores(Value()) && Roster.ScoresCast(Value())
      requires total.Some?
      modifies this
      ensures Value() == old(Value())
    {
      var k := 0;
      while k < 5
        invariant 0 <= k <= 5
        invariant Value() == old(Value())
      {
        scores := scores[k := Some(Roster.IntScores(scores[k].value.vals))];
        k := k + 1;
      }
      total := Some(total.value);
    }

    /** `df['Percentage Score'] = (df['Calculated Total Score'] / 500 * 100).round(2)`
        (Task.py:77) on a frame that has a total. */
    method AddPercent()
      requires Roster.WellFormed(Value()) && total.Some?
      modifies this
      ensures Roster.Transform(old(Value())).Ok?
      ensures Value() == Roster.Transform(old(Value())).value
    {
      percent := Roster.Transform(Value()).value.percent;
    }
  }

  /** The UFID block of `clean_data` (Task.py:38-45). Without a UFID column the caller's frame
      is the result; with one, each `dropna(...).copy()` makes a new frame and the caller's
      frame is left as it was. */
  method RepairUfidBlock(df: Frame) returns (out: Frame)
    requires Roster.WellFormed(df.Value())
    ensures out.Value() == Roster.RepairUfid(df.Value())
    ensures df.ufid.None? ==> out == df
    ensures df.ufid.Some? ==> fresh(out)
  {
    out := df;
    if df.ufid.Some? {
      out := df.Copy();
      out.DropMissingUfid();
      out.CoerceUfid();
      ghost var coerced := out.Value();
      out := out.Copy();
      out.DropMissingUfid();
      KeepPreserves(coerced.ufid.value.cells, MaskOf(coerced.ufid.value.cells, IsPresent), Roster.NumIfPresent);
      out.CastUfid();
    }
  }

  /** Task.py:48-71 on the frame the work has moved to: the total, or the `KeyError` that leaves
      the frame as it was, then the grade and the final casts. */
  method FinishBlock(out: Frame) returns (err: Option<Roster.PipelineError>)
    requires Roster.WellFormed(out.Value()) && Roster.ScoresCast(out.Value())
    modifies out
    ensures Roster.Finish(old(out.Value())).Ok? ==> err.None? && out.Value() == Roster.Finish(old(out.Value())).value
    ensures Roster.Finish(old(out.Value())).Err? ==>
              err == Some(Roster.Finish(old(out.Value())).error) && out.Value() == old(out.Value())
  {
    err := out.AddTotal();
    if err.Some? {
      return;
    }
    out.AssignGrades();
    out.RecastColumns();
  }

  /** `clean_data(df)` (Task.py:27-73). The score columns of the caller's frame are repaired in
      place; with a UFID column, `dropna(...).copy()` moves the rest of the work to a new frame,
      without one the total and the grade are added to the caller's frame as well. The result
      is the table Roster.Clean describes, or the exception it names. */
  method CleanData(df: Frame) returns (out: Frame, err: Option<Roster.PipelineError>)
    requires Roster.WellFormed(df.Value())
    modifies df
    ensures Roster.Clean(old(df.Value())).Ok? ==> err.None? && out.Value() == Roster.Clean(old(df.Value())).value
    ensures Roster.Clean(old(df.Value())).Err? ==> err == Some(Roster.Clean(old(df.Value())).error)
    ensures old(df.ufid).Some? || err.Some? ==> df.Value() == Roster.RepairScores(old(df.Value())).0
    ensures old(df.ufid).Some? && err.None? ==> fresh(out)
    ensures old(df.ufid).None? && err.None? ==> out == df
  {
    ghost var t := df.Value();
    out := df;
    err := df.RepairScores();
    if err.Some? {
      assert Roster.Clean(t) == Err(err.value);
      return;
    }
    out := RepairUfidBlock(df);
    err := FinishBlock(out);
  }

  /** `transform_data(df)` (Task.py:75-79): the percentage column is added to the caller's frame,
      which is also the result; without a total the lookup fails and the frame is left as it was. */
  method TransformData(df: Frame) returns (out: Frame, err: Option<Roster.PipelineError>)
    requires Roster.WellFormed(df.Value())
    modifies df
    ensures out == df
    ensures Roster.Transform(old(df.Value())).Ok? ==> err.None? && df.Value() == Roster.Transform(old(df.Value())).value
    ensures Roster.Transform(old(df.Value())).Err? ==>
              err == Some(Roster.Transform(old(df.Value())).error) && df.Value() == old(df.Value())
  {
    out := df;
    if df.total.None? {
      err := Some(Roster.KeyError([Roster.TOTAL_NAME]));
      return;
    }
    df.AddPercent();
    err := None;
  }
}
