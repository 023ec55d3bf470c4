/** The roster table and the steps of `clean_data` and `transform_data` (Task.py:27-79) as functions
    on table values. A table is held by column, as a pandas DataFrame is; a column that the frame
    lacks is `None`. */
module Roster {
  import opened Wrappers
  import opened Numeric
  import opened RowFilter
  import opened Imputation
  import opened Ufid
  import opened Grading

  /** The five score columns, in the order `clean_data` visits them (Task.py:28). */
  const SCORE_NAMES: seq<string> :=
    ["IDS Lab-1 Score", "IDS Lab-2 Score", "IDS Lab-3 Score", "IDS Exam-1 Score", "IDS Exam-2 Score"]
  const TOTAL_NAME := "Calculated Total Score"

  /** The UFID column: as read, or after the cast to integers. */
  datatype IdColumn = RawIds(cells: seq<Cell>) | IntIds(ids: seq<int>)

  /** A score column: as read (a number or NaN per row), or after the repair to integers. */
  datatype ScoreColumn = RawScores(cells: Column) | IntScores(vals: seq<int>)

  /** A roster: its row count and its columns. `scores` has one entry per name of SCORE_NAMES;
      `extra` holds the other columns of the file, which travel with their rows; `total`, `grade`
      and `percent` are 'Calculated Total Score', 'Calculated Grade' and 'Percentage Score', the
      last in hundredths of a percent. */
  datatype Table = Table(
    rows: nat,
    ufid: Option<IdColumn>,
    scores: seq<Option<ScoreColumn>>,
    extra: seq<seq<Cell>>,
    total: Option<seq<int>>,
    grade: Option<seq<Grade>>,
    percent: Option<seq<int>>)

  /** The exceptions that end the pipeline: the failed cast of a column to integers
      (`IntCastingNaNError`) and a lookup of columns the frame lacks (`KeyError`). */
  datatype PipelineError = CastError(column: string) | KeyError(columns: seq<string>)

  /** The UFID column's cells; a cast column reads as numbers. */
  function IdCells(c: IdColumn): seq<Cell> {
    match c
    case RawIds(cells) => cells
    case IntIds(ids) => seq(|ids|, i requires 0 <= i < |ids| => Num(ids[i] as real))
  }

  /** A score column's cells; a repaired column reads as numbers with none missing. */
  function ScoreCells(c: ScoreColumn): Column {
    match c
    case RawScores(cells) => cells
    case IntScores(vals) => FromInts(vals)
  }

  /** Every column of the frame has one entry per row. */
  predicate WellFormed(t: Table) {
    && |t.scores| == 5
    && (t.ufid.Some? ==> |IdCells(t.ufid.value)| == t.rows)
    && (forall k :: 0 <= k < |t.scores| && t.scores[k].Some? ==> |ScoreCells(t.scores[k].value)| == t.rows)
    && (forall e :: 0 <= e < |t.extra| ==> |t.extra[e]| == t.rows)
    && (t.total.Some? ==> |t.total.value| == t.rows)
    && (t.grade.Some? ==> |t.grade.value| == t.rows)
    && (t.percent.Some? ==> |t.percent.value| == t.rows)
  }

  // ---------------------------------------------------------------- dropping rows

  function KeepIds(c: IdColumn, mask: seq<bool>): (r: IdColumn)
    requires |IdCells(c)| == |mask|
    ensures |IdCells(r)| == CountTrue(mask) && r.IntIds? == c.IntIds?
  {
    match c
    case RawIds(cells) => RawIds(Keep(cells, mask))
    case IntIds(ids) => IntIds(Keep(ids, mask))
  }

  function KeepScores(c: ScoreColumn, mask: seq<bool>): (r: ScoreColumn)
    requires |ScoreCells(c)| == |mask|
    ensures |ScoreCells(r)| == CountTrue(mask) && r.IntScores? == c.IntScores?
  {
    match c
    case RawScores(cells) => RawScores(Keep(cells, mask))
    case IntScores(vals) => IntScores(Keep(vals, mask))
  }

  function KeepOpt<T>(o: Option<seq<T>>, mask: seq<bool>): (r: Option<seq<T>>)
    requires o.Some? ==> |o.value| == |mask|
    ensures r.Some? == o.Some? && (r.Some? ==> |r.value| == CountTrue(mask))
  {
    match o
    case None => None
    case Some(s) => Some(Keep(s, mask))
  }

  /** `df.dropna(...)`: the rows the mask keeps, in every column at once. */
  function DropRows(t: Table, mask: seq<bool>): (r: Table)
    requires WellFormed(t) && |mask| == t.rows
    ensures WellFormed(r) && r.rows == CountTrue(mask)
    ensures |r.extra| == |t.extra| && r.ufid.Some? == t.ufid.Some?
    ensures r.total.Some? == t.total.Some? && r.grade.Some? == t.grade.Some?
    ensures r.percent.Some? == t.percent.Some?
    ensures forall k :: 0 <= k < 5 ==> r.scores[k].Some? == t.scores[k].Some?
    ensures forall k :: 0 <= k < 5 && t.scores[k].Some? ==>
              r.scores[k].value.IntScores? == t.scores[k].value.IntScores?
  {
    Table(
      CountTrue(mask),
      if t.ufid.Some? then Some(KeepIds(t.ufid.value, mask)) else None,
      seq(5, k requires 0 <= k < 5 =>
        if t.scores[k].Some? then Some(KeepScores(t.scores[k].value, mask)) else None),
      seq(|t.extra|, e requires 0 <= e < |t.extra| => Keep(t.extra[e], mask)),
      KeepOpt(t.total, mask),
      KeepOpt(t.grade, mask),
      KeepOpt(t.percent, mask))
  }

  // ---------------------------------------------------------------- step 1: score columns

  /** A score column that is present but holds no number although the frame has rows. */
  predicate Unfillable(c: Option<ScoreColumn>) {
    c.Some? && AllMissing(ScoreCells(c.value))
  }

  /** `df[col].fillna(mean).round(0).astype(int)` on one column; `None` when the cast fails. */
  function RepairColumn(c: ScoreColumn): (r: Option<ScoreColumn>)
    ensures r.None? <==> AllMissing(ScoreCells(c))
    ensures r.Some? ==> r.value.IntScores? && |ScoreCells(r.value)| == |ScoreCells(c)|
  {
    match RepairCells(ScoreCells(c))
    case None => None
    case Some(vals) => Some(IntScores(vals))
  }

  /** The score columns after the repair loop (Task.py:31-34) has visited the first `k` of them,
      and the exception that stopped it, if any. A column the frame lacks is skipped; a column
      with rows but no number stops the loop with the columns before it already repaired. */
  function RepairColumnsUpTo(cols: seq<Option<ScoreColumn>>, k: nat): (res: (seq<Option<ScoreColumn>>, Option<PipelineError>))
    requires k <= |cols| == 5
    ensures |res.0| == 5
    ensures forall j :: 0 <= j < 5 ==> res.0[j].Some? == cols[j].Some?
    ensures forall j :: 0 <= j < 5 && cols[j].Some? ==> |ScoreCells(res.0[j].value)| == |ScoreCells(cols[j].value)|
    decreases k
  {
    if k == 0 then (cols, None)
    else
      var prev := RepairColumnsUpTo(cols, k - 1);
      var c := prev.0[k - 1];
      if prev.1.Some? || c.None? then prev
      else
        match RepairColumn(c.value)
        case None => (prev.0, Some(CastError(SCORE_NAMES[k - 1])))
        case Some(r) => (prev.0[k - 1 := Some(r)], None)
  }

  /** The loop leaves the columns it has not reached as they were. */
  lemma {:induction false} RepairUntouched(cols: seq<Option<ScoreColumn>>, k: nat, j: nat)
    requires k <= j < |cols| == 5
    ensures RepairColumnsUpTo(cols, k).0[j] == cols[j]
  {
    if k > 0 {
      RepairUntouched(cols, k - 1, j);
    }
  }

  /** Once a column has stopped the loop, the later columns change nothing. */
  lemma {:induction false} RepairStops(cols: seq<Option<ScoreColumn>>, k: nat, m: nat)
    requires k <= m <= |cols| == 5
    requires RepairColumnsUpTo(cols, k).1.Some?
    ensures RepairColumnsUpTo(cols, m) == RepairColumnsUpTo(cols, k)
    decreases m
  {
    if m > k {
      RepairStops(cols, k, m - 1);
    }
  }

  /** The loop over the first `k` columns fails exactly when one of them is present with rows
      but no number. */
  lemma {:induction false} RepairFails(cols: seq<Option<ScoreColumn>>, k: nat)
    requires k <= |cols| == 5
    ensures RepairColumnsUpTo(cols, k).1.None? <==> forall j :: 0 <= j < k ==> !Unfillable(cols[j])
  {
    if k > 0 {
      RepairFails(cols, k - 1);
      var prev := RepairColumnsUpTo(cols, k - 1);
      var before := forall j :: 0 <= j < k - 1 ==> !Unfillable(cols[j]);
      assert (forall j :: 0 <= j < k ==> !Unfillable(cols[j])) <==> before && !Unfillable(cols[k - 1]);
      if prev.1.None? {
        RepairUntouched(cols, k - 1, k - 1);
        RepairStepOutcome(cols, k);
      } else {
        assert RepairColumnsUpTo(cols, k) == prev;
      }
    }
  }

  /** One step of the loop after a successful prefix fails exactly on an unfillable column. */
  lemma RepairStepOutcome(cols: seq<Option<ScoreColumn>>, k: nat)
    requires 0 < k <= |cols| == 5
    requires RepairColumnsUpTo(cols, k - 1).1.None?
    requires RepairColumnsUpTo(cols, k - 1).0[k - 1] == cols[k - 1]
    ensures RepairColumnsUpTo(cols, k).1.None? <==> !Unfillable(cols[k - 1])
  {
  }

  /** A failing loop reports the first column that is present with rows but no number. */
  lemma {:induction false} RepairReportsFirst(cols: seq<Option<ScoreColumn>>, k: nat)
    requires k <= |cols| == 5
    requires RepairColumnsUpTo(cols, k).1.Some?
    ensures exists j :: 0 <= j < k && Unfillable(cols[j]) && (forall i :: 0 <= i < j ==> !Unfillable(cols[i]))
                        && RepairColumnsUpTo(cols, k).1.value == CastError(SCORE_NAMES[j])
  {
    if RepairColumnsUpTo(cols, k - 1).1.Some? {
      RepairReportsFirst(cols, k - 1);
    } else {
      RepairFails(cols, k - 1);
      RepairUntouched(cols, k - 1, k - 1);
      assert Unfillable(cols[k - 1]);
    }
  }

  /** When the loop over the first `k` columns succeeds, each of them that is present holds its
      repaired form. */
  lemma {:induction false} RepairRepairs(cols: seq<Option<ScoreColumn>>, k: nat, j: nat)
    requires j < k <= |cols| == 5 && cols[j].Some?
    requires RepairColumnsUpTo(cols, k).1.None?
    ensures RepairColumn(cols[j].value).Some?
    ensures RepairColumnsUpTo(cols, k).0[j] == RepairColumn(cols[j].value)
    ensures RepairColumnsUpTo(cols, k).0[j].value.IntScores?
  {
    RepairFails(cols, k);
    RepairFails(cols, k - 1);
    if j < k - 1 {
      RepairRepairs(cols, k - 1, j);
    } else {
      RepairUntouched(cols, k - 1, j);
    }
  }

  /** Every score column the loop reached holds integers once it has succeeded. */
  lemma RepairCasts(cols: seq<Option<ScoreColumn>>, k: nat)
    requires k <= |cols| == 5
    requires RepairColumnsUpTo(cols, k).1.None?
    ensures forall j :: 0 <= j < k && cols[j].Some? ==> RepairColumnsUpTo(cols, k).0[j].value.IntScores?
  {
    forall j | 0 <= j < k && cols[j].Some? {
      RepairRepairs(cols, k, j);
    }
  }

  /** Every score column the frame has holds integers. */
  predicate ScoresCast(t: Table)
    requires |t.scores| == 5
  {
    forall k :: 0 <= k < 5 && t.scores[k].Some? ==> t.scores[k].value.IntScores?
  }

  /** The whole repair loop on a frame (Task.py:31-34): the score columns as the loop leaves them,
      and the cast error that stopped it, if any. */
  function RepairScores(t: Table): (res: (Table, Option<PipelineError>))
    requires WellFormed(t)
    ensures WellFormed(res.0) && res.0 == t.(scores := res.0.scores)
    ensures forall j :: 0 <= j < 5 ==> res.0.scores[j].Some? == t.scores[j].Some?
    ensures res.1.None? ==> ScoresCast(res.0)
  {
    var r := RepairColumnsUpTo(t.scores, |t.scores|);
    if r.1.None? then RepairCasts(t.scores, |t.scores|); (t.(scores := r.0), r.1)
    else (t.(scores := r.0), r.1)
  }

  // ---------------------------------------------------------------- step 2: UFID

  /** The cells of a UFID column that survives a mask are the surviving cells. */
  lemma IdCellsKeep(c: IdColumn, mask: seq<bool>)
    requires |IdCells(c)| == |mask|
    ensures IdCells(KeepIds(c, mask)) == Keep(IdCells(c), mask)
  {
    if c.IntIds? {
      var l, r := IdCells(KeepIds(c, mask)), Keep(IdCells(c), mask);
      forall j | 0 <= j < |l|
        ensures l[j] == r[j]
      {
        KeepAt(c.ids, mask, j);
        KeepAt(IdCells(c), mask, j);
      }
    }
  }

  /** The cells of a score column that survives a mask are the surviving cells. */
  lemma ScoreCellsKeep(c: ScoreColumn, mask: seq<bool>)
    requires |ScoreCells(c)| == |mask|
    ensures ScoreCells(KeepScores(c, mask)) == Keep(ScoreCells(c), mask)
  {
    if c.IntScores? {
      var l, r := ScoreCells(KeepScores(c, mask)), Keep(ScoreCells(c), mask);
      forall j | 0 <= j < |l|
        ensures l[j] == r[j]
      {
        KeepAt(c.vals, mask, j);
        KeepAt(ScoreCells(c), mask, j);
      }
    }
  }

  /** `df.dropna(subset=['UFID'])` (Task.py:40, 44): the rows whose UFID is present. */
  function DropMissingUfid(t: Table): (r: Table)
    requires WellFormed(t) && t.ufid.Some?
    ensures WellFormed(r) && r.ufid.Some? && r.ufid.value.IntIds? == t.ufid.value.IntIds?
    ensures r.rows == CountTrue(MaskOf(IdCells(t.ufid.value), IsPresent))
    ensures forall j :: 0 <= j < r.rows ==> IsPresent(IdCells(r.ufid.value)[j])
  {
    var cells := IdCells(t.ufid.value);
    IdCellsKeep(t.ufid.value, MaskOf(cells, IsPresent));
    KeepSatisfies(cells, IsPresent);
    DropRows(t, MaskOf(cells, IsPresent))
  }

  /** `pd.to_numeric(errors='coerce')` on one cell, kept as a cell: its number, or NaN. */
  function Coerce(c: Cell): (r: Cell)
    ensures r.Missing? || r.Num?
    ensures ToNumeric(r) == ToNumeric(c)
  {
    match ToNumeric(c)
    case None => Missing
    case Some(v) => Num(v)
  }

  function Coerced(cells: seq<Cell>): (r: seq<Cell>)
    ensures |r| == |cells|
  {
    seq(|cells|, i requires 0 <= i < |cells| => Coerce(cells[i]))
  }

  /** A coerced cell that is present is a number. */
  predicate NumIfPresent(c: Cell) {
    IsPresent(c) ==> c.Num?
  }

  /** `df['UFID'] = pd.to_numeric(df['UFID'], errors='coerce')` (Task.py:43): each UFID becomes
      its number, or NaN when it is not one; nothing else changes. */
  function CoerceUfid(t: Table): (r: Table)
    requires WellFormed(t) && t.ufid.Some?
    ensures WellFormed(r) && r == t.(ufid := r.ufid) && r.ufid.Some? && r.ufid.value.RawIds?
    ensures forall i :: 0 <= i < r.rows ==>
              ToNumeric(r.ufid.value.cells[i]) == ToNumeric(IdCells(t.ufid.value)[i])
    ensures forall i :: 0 <= i < r.rows ==> NumIfPresent(r.ufid.value.cells[i])
  {
    t.(ufid := Some(RawIds(Coerced(IdCells(t.ufid.value)))))
  }

  /** `df['UFID'].astype(int)` (Task.py:45) on a column of numbers: each UFID truncated to an
      integer, as UfidValue reads it. */
  function CastUfid(t: Table): (r: Table)
    requires WellFormed(t) && t.ufid.Some? && t.ufid.value.RawIds?
    requires forall i :: 0 <= i < t.rows ==> t.ufid.value.cells[i].Num?
    ensures WellFormed(r) && r == t.(ufid := r.ufid) && r.ufid.Some? && r.ufid.value.IntIds?
    ensures forall i :: 0 <= i < r.rows ==> UfidValue(t.ufid.value.cells[i]) == Some(r.ufid.value.ids[i])
  {
    var cells := t.ufid.value.cells;
    t.(ufid := Some(IntIds(seq(|cells|, i requires 0 <= i < |cells| => TruncateTowardZero(cells[i].v)))))
  }

  /** The UFID block of `clean_data` (Task.py:38-45): without a UFID column the frame is left as
      it is; otherwise the rows with a missing UFID are dropped, the rest coerced to numbers, the
      rows that did not coerce dropped, and the survivors cast to integers. */
  function RepairUfid(t: Table): (r: Table)
    requires WellFormed(t)
    ensures WellFormed(r) && r.ufid.Some? == t.ufid.Some?
    ensures t.ufid.None? ==> r == t
    ensures t.ufid.Some? ==> r.ufid.value.IntIds?
    ensures |r.scores| == 5 && forall k :: 0 <= k < 5 ==> r.scores[k].Some? == t.scores[k].Some?
    ensures ScoresCast(t) ==> ScoresCast(r)
    ensures r.total.Some? == t.total.Some? && |r.extra| == |t.extra|
  {
    if t.ufid.None? then t
    else
      var t1 := DropMissingUfid(t);
      var t2 := CoerceUfid(t1);
      var t3 := DropMissingUfid(t2);
      var mask := MaskOf(t2.ufid.value.cells, IsPresent);
      KeepPreserves(t2.ufid.value.cells, mask, NumIfPresent);
      CastUfid(t3)
  }

  // ---------------------------------------------------------------- step 3: the total

  /** The names of the score columns the frame lacks, in SCORE_NAMES order. */
  function AbsentScores(t: Table): (names: seq<string>)
    requires |t.scores| == 5
    ensures |names| <= 5
  {
    Keep(SCORE_NAMES, seq(5, k requires 0 <= k < 5 => t.scores[k].None?))
  }

  /** Score `k` of row `i` of a frame whose score columns hold integers. */
  function ScoreAt(t: Table, k: nat, i: nat): int
    requires WellFormed(t) && ScoresCast(t) && k < 5 && t.scores[k].Some? && i < t.rows
  {
    t.scores[k].value.vals[i]
  }

  /** `np.sum(..., axis=1)` on one row: its entries added up. Scores between 0 and 100 add up to
      between 0 and 100 points per entry. */
  function RowSum(row: seq<int>): (r: int)
    ensures (forall i :: 0 <= i < |row| ==> 0 <= row[i] <= 100) ==> 0 <= r <= 100 * |row|
  {
    if row == [] then 0 else RowSum(row[..|row| - 1]) + row[|row| - 1]
  }

  /** Row `i` of the five score columns. */
  function ScoreRow(t: Table, i: nat): (row: seq<int>)
    requires WellFormed(t) && ScoresCast(t) && HasScores(t) && i < t.rows
    ensures |row| == 5
  {
    seq(5, k requires 0 <= k < 5 => ScoreAt(t, k, i))
  }

  /** The frame has all five score columns. */
  predicate HasScores(t: Table)
    requires |t.scores| == 5
  {
    forall k :: 0 <= k < 5 ==> t.scores[k].Some?
  }

  /** No name is missing exactly when the frame has every score column. */
  lemma AbsentNone(t: Table)
    requires |t.scores| == 5
    ensures AbsentScores(t) == [] <==> HasScores(t)
  {
    var mask := seq(5, k requires 0 <= k < 5 => t.scores[k].None?);
    if exists k :: 0 <= k < 5 && t.scores[k].None? {
      var k :| 0 <= k < 5 && t.scores[k].None?;
      assert mask[k];
      assert k in KeptIndices(mask);
    } else {
      CountTrueNone(mask);
    }
  }

  /** Five entries added up. */
  lemma RowSumFive(row: seq<int>)
    requires |row| == 5
    ensures RowSum(row) == row[0] + row[1] + row[2] + row[3] + row[4]
  {
    assert RowSum(row[..1]) == row[0] by {
      assert row[..1][..0] == [];
    }
    assert RowSum(row[..2]) == row[0] + row[1] by {
      assert row[..2][..1] == row[..1];
    }
    assert RowSum(row[..3]) == row[0] + row[1] + row[2] by {
      assert row[..3][..2] == row[..2];
    }
    assert RowSum(row[..4]) == row[0] + row[1] + row[2] + row[3] by {
      assert row[..4][..3] == row[..3];
    }
  }

  /** `df['Calculated Total Score'] = np.sum(df[numeric_columns].values, axis=1)` (Task.py:49):
      the lookup of the five columns fails when the frame lacks any of them, naming those it
      lacks; otherwise every row gets the sum of its five scores, replacing any total already
      there. */
  function AddTotal(t: Table): (r: Result<Table, PipelineError>)
    requires WellFormed(t) && ScoresCast(t)
    ensures r.Err? <==> exists k :: 0 <= k < 5 && t.scores[k].None?
    ensures r.Err? ==> r.error == KeyError(AbsentScores(t))
    ensures r.Ok? ==> WellFormed(r.value) && r.value == t.(total := r.value.total) && r.value.total.Some?
    ensures r.Ok? ==> forall i :: 0 <= i < t.rows ==>
              r.value.total.value[i] == ScoreAt(t, 0, i) + ScoreAt(t, 1, i) + ScoreAt(t, 2, i)
                                        + ScoreAt(t, 3, i) + ScoreAt(t, 4, i)
  {
    AbsentNone(t);
    if AbsentScores(t) != [] then Err(KeyError(AbsentScores(t)))
    else
      var total := seq(t.rows, i requires 0 <= i < t.rows => RowSum(ScoreRow(t, i)));
      FiveTermSums(t);
      Ok(t.(total := Some(total)))
  }

  /** The sum of a row of five scores is the five of them added. */
  lemma FiveTermSums(t: Table)
    requires WellFormed(t) && ScoresCast(t) && HasScores(t)
    ensures forall i :: 0 <= i < t.rows ==>
              RowSum(ScoreRow(t, i)) == ScoreAt(t, 0, i) + ScoreAt(t, 1, i) + ScoreAt(t, 2, i)
                                        + ScoreAt(t, 3, i) + ScoreAt(t, 4, i)
  {
    forall i | 0 <= i < t.rows
      ensures RowSum(ScoreRow(t, i)) == ScoreAt(t, 0, i) + ScoreAt(t, 1, i) + ScoreAt(t, 2, i)
                                        + ScoreAt(t, 3, i) + ScoreAt(t, 4, i)
    {
      RowSumFive(ScoreRow(t, i));
    }
  }

  // ---------------------------------------------------------------- step 4: the grade

  /** `df['Calculated Grade'] = df['Calculated Total Score'].apply(assign_grade)` (Task.py:67):
      every row gets the grade of its total. */
  function AssignGrades(t: Table): (r: Table)
    requires WellFormed(t) && t.total.Some?
    ensures WellFormed(r) && r == t.(grade := r.grade) && r.grade.Some?
    ensures forall i :: 0 <= i < r.rows ==> r.grade.value[i] == Band(t.total.value[i])
  {
    var total := t.total.value;
    t.(grade := Some(seq(|total|, i requires 0 <= i < |total| => AssignGrade(total[i]))))
  }

  // ---------------------------------------------------------------- clean_data

  /** The last steps of `clean_data` (Task.py:48-67), on a table whose scores are already cast:
      the total, or the `KeyError` for the missing score columns, then the grade. */
  function Finish(u: Table): (r: Result<Table, PipelineError>)
    requires WellFormed(u) && ScoresCast(u)
    ensures r.Ok? ==> WellFormed(r.value)
  {
    var totalled := AddTotal(u);
    if totalled.Err? then Err(totalled.error) else Ok(AssignGrades(totalled.value))
  }

  /** `clean_data` (Task.py:27-73) on a frame's value: the repaired frame, or the exception that
      ends it. */
  function Clean(t: Table): (r: Result<Table, PipelineError>)
    requires WellFormed(t)
    ensures r.Ok? ==> WellFormed(r.value)
  {
    var repaired := RepairScores(t);
    if repaired.1.Some? then Err(repaired.1.value) else Finish(RepairUfid(repaired.0))
  }

  // ---------------------------------------------------------------- transform_data

  /** `(total / 500 * 100).round(2)` (Task.py:77), in hundredths of a percent: the total as a
      percentage of the 500 points, which is exactly 20 hundredths per point. */
  function Percent(total: int): (p: int)
    ensures p == 20 * total
  {
    assert (total as real) / 500.0 * 100.0 * 100.0 == (20 * total) as real;
    RoundOfInteger(20 * total);
    RoundHalfEven((total as real) / 500.0 * 100.0 * 100.0)
  }

  /** `transform_data` (Task.py:75-79): a 'Percentage Score' column beside the total, or the
      lookup error when the frame has no total. */
  function Transform(t: Table): (r: Result<Table, PipelineError>)
    requires WellFormed(t)
    ensures r.Err? <==> t.total.None?
    ensures r.Err? ==> r.error == KeyError([TOTAL_NAME])
    ensures r.Ok? ==> WellFormed(r.value) && r.value == t.(percent := r.value.percent)
    ensures r.Ok? ==> r.value.percent.Some?
    ensures r.Ok? ==> forall i :: 0 <= i < t.rows ==> r.value.percent.value[i] * 5 == t.total.value[i] * 100
  {
    if t.total.None? then Err(KeyError([TOTAL_NAME]))
    else
      var total := t.total.value;
      Ok(t.(percent := Some(seq(|total|, i requires 0 <= i < |total| => Percent(total[i])))))
  }
}
