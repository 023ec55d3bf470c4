# Student roster cleaning, modelled in Dafny

This project models the cleaning and transformation stages of the UFIDS score pipeline
(`clean_data` and `transform_data` in `Task.py`). The pipeline reads a roster of students. Each
row has an identifier (UFID), five component scores ('IDS Lab-1 Score' to 'IDS Exam-2 Score') and
possibly other columns. Cleaning does the following:

- it repairs each score column: missing entries are filled with the column mean, rounded half to
  even, and the column is cast to integers;
- it drops rows whose UFID is missing or not a number, and casts the UFIDs to integers;
- it adds the 'Calculated Total Score' and the 'Calculated Grade' (eight bands, A to F).

The transformation adds a 'Percentage Score' column.

The model is arranged in two layers.

- **Values.** `Roster` describes a roster as a column-oriented `Table` value. Each step of
  `clean_data` is a function on tables, and `Roster.Clean` composes them. A step ends either with
  the table or with the exception the code raises (`CastError` for a failed integer cast,
  `KeyError` for a missing column).
- **The frame.** `Frames.Frame` is the pandas DataFrame: a class whose fields are the same columns.
  Its methods change the fields in place, as the code does. Each method is proved to leave the
  frame equal to the corresponding `Roster` function applied to its old value. The loop over the
  score columns (Task.py:31-34) is a `while` loop whose invariant is the partial repair
  `Roster.RepairColumnsUpTo`.

Supporting modules:

- `Imputation`: the mean and the repair of one column.
- `Numeric`: rounding half to even, and truncation toward zero.
- `RowFilter`: `dropna` as a mask over rows.
- `Ufid`: `pd.to_numeric` with `errors='coerce'` on one cell.
- `Grading`: the `np.select` ladder.
- `DropProperties` and `CleanProperties`: the properties of the whole stage.

Missing values (NaN) are `None`, or the `Missing` cell. Numbers are exact reals and unbounded
integers.

Where the code and its design description differ, the model follows the code:

- **No UFID column.** When the frame has no 'UFID' column, `clean_data` keeps every row and raises
  nothing. The design asks for a schema error in that case.
- **Absent score column.** An absent score column is skipped by the repair loop. The error comes
  later, as a `KeyError` from the total (Task.py:49), and it names every absent score column.
- **All-missing score column.** A score column that is entirely missing makes the integer cast
  fail, so the pipeline stops with `CastError` on the first such column. The design calls this
  case non-fatal. The cast fails only when the frame has rows: an empty column casts without error.
- **Negative scores.** Negative scores are neither clamped nor rejected.

## Model

| member | source | states |
|---|---|---|
| Numeric.RoundHalfEven | Task.py:34 | `round(0)` gives an integer within one half of the value; at an exact half it gives the even neighbour |
| Numeric.RoundHalfEvenUnique | Task.py:34 | any integer within one half that takes the even neighbour at a tie is the rounding, so rounding is fully determined |
| Numeric.RoundOfInteger | Task.py:34 | rounding leaves an integral value unchanged |
| Numeric.RoundMonotone | Task.py:34 | rounding is monotone |
| Numeric.TruncateTowardZero | Task.py:45 | `astype(int)` drops the fraction toward zero: the result is within one of the value, on the value's side of zero |
| Imputation.SumIgnoresMissing | Task.py:33 | a missing entry anywhere in a column neither adds to the sum nor counts toward the mean's divisor |
| Imputation.Count | Task.py:33 | the number of present entries is at most the column length |
| Imputation.CountZeroIffAllMissing | Task.py:33 | no present entry is counted exactly when every entry is missing |
| Imputation.Mean | Task.py:33 | `np.nanmean` is undefined exactly when every entry is missing; otherwise the mean times the count is the sum of the present entries |
| Imputation.RepairCells | Task.py:33-34 | the repair fails exactly when the column has rows but no number; otherwise the column keeps its length |
| Imputation.MissingBecomesRoundedMean | Task.py:33-34 | a missing entry becomes the rounded mean of the present ones |
| Imputation.PresentIsRounded | Task.py:34 | a present entry is only rounded |
| Imputation.RepairExample | Task.py:33-34 | the column [80, missing, 90] repairs to [80, 85, 90] |
| Imputation.RepairIdempotent | Task.py:33-34 | a column of integers with nothing missing is left unchanged |
| Imputation.SumAtLeast | Task.py:33 | when every present entry is at least lo, the sum of the present entries is at least their count times lo |
| Imputation.SumAtMost | Task.py:33 | when every present entry is at most hi, the sum of the present entries is at most their count times hi |
| Imputation.MeanWithin | Task.py:33 | the mean lies within the range of the present entries |
| Imputation.RepairWithinObservedRange | Task.py:33-34 | every repaired entry lies between the roundings of the column's bounds |
| RowFilter.CountTrue | Task.py:40 | the number of kept rows is at most the number of rows |
| RowFilter.CountTrueNone | Task.py:40 | a mask that keeps nothing keeps zero rows |
| RowFilter.CountTrueSingle | Task.py:53-62 | a mask with exactly one true entry counts one |
| RowFilter.KeptIndices | Task.py:40 | the kept row positions: one per kept row, each one kept, strictly increasing, and covering every kept row |
| RowFilter.Keep | Task.py:40 | filtering a column by a mask leaves one entry per kept row |
| RowFilter.KeepAt | Task.py:40 | the j-th surviving entry is the entry at the j-th kept position |
| RowFilter.KeepAll | Task.py:40 | a mask that keeps every row leaves the column unchanged |
| RowFilter.And | Task.py:40-44 | the conjunction of two masks is a mask of the same length |
| RowFilter.KeepThenKeep | Task.py:40-44 | filtering twice equals filtering once by the conjunction of the masks |
| RowFilter.MaskOfKeep | Task.py:43-44 | testing the survivors equals filtering the tests |
| RowFilter.KeepSatisfies | Task.py:40 | every row kept by a test passes the test |
| RowFilter.KeepPreserves | Task.py:44 | filtering keeps a property that every entry had |
| Ufid.DigitsValue | Task.py:43 | the value of a digit string is zero exactly when every digit is '0' |
| Ufid.DigitsLeadingZero | Task.py:43 | a leading zero does not change the value, so "007" reads as 7 |
| Ufid.ParseInteger | Task.py:43 | a string read as an integer is non-empty |
| Ufid.Decimal | Task.py:43 | a number's decimal form is a non-empty string of digits |
| Ufid.DecimalValue | Task.py:43 | reading back a number's digits gives the number |
| Ufid.ParseRendered | Task.py:43 | `to_numeric` reads back any integer written in decimal |
| Ufid.ToNumeric | Task.py:43 | `pd.to_numeric(errors='coerce')` on one cell: NaN stays NaN, a number is kept as it is, and text reads only as a whole number |
| Ufid.UfidValue | Task.py:40-45 | a row keeps a UFID exactly when its cell is present and numeric; for text, the UFID is the integer the text spells |
| Ufid.RenderedUfidKept | Task.py:40-45 | a UFID stored as decimal text survives with its own value |
| Grading.Label | Task.py:63 | a grade is written as a letter, possibly followed by '+' or '-' |
| Grading.ChoiceLabels | Task.py:63 | the choices, written out in order, are "A", "A-", "B+", "B", "B-", "C", "D", "F" |
| Grading.LabelInjective | Task.py:63 | no two grades are written the same way |
| Grading.Conditions | Task.py:53-62 | the eight tests, one per grade; the last (`scores < 350`) holds exactly when none of the first seven does |
| Grading.Select | Task.py:64 | `np.select` gives its default exactly when no test holds, and otherwise the choice of the first test that holds |
| Grading.BandsPartition | Task.py:53-63 | test i holds exactly when the grade ladder gives the i-th grade |
| Grading.BandIndex | Task.py:53-63 | every total falls in one of the eight bands |
| Grading.ExactlyOneCondition | Task.py:53-62 | exactly one of the eight tests holds for any total |
| Grading.AssignGrade | Task.py:52-64 | `assign_grade` is the first matching band of the ladder, with no fall-through to the default |
| Grading.GradeMonotone | Task.py:52-64 | a lower total never earns a better grade |
| Grading.BandEdges | Task.py:53-62 | the grade at each boundary total and just below it |
| Roster.KeepIds | Task.py:40 | dropping rows from the UFID column leaves one cell per kept row and keeps its cast state |
| Roster.KeepScores | Task.py:40 | dropping rows from a score column leaves one cell per kept row and keeps its repair state |
| Roster.KeepOpt | Task.py:40 | dropping rows keeps a column's presence and leaves one entry per kept row |
| Roster.DropRows | Task.py:40 | `dropna` gives a well-formed frame with one row per kept row, the same columns, and repaired columns still repaired |
| Roster.RepairColumn | Task.py:33-34 | one column's repair fails exactly when the column is all missing; otherwise it gives integers of the same length |
| Roster.RepairColumnsUpTo | Task.py:31-34 | the first k passes of the loop keep the five slots, the present columns and their lengths |
| Roster.RepairUntouched | Task.py:31-34 | the first k passes leave the later columns untouched |
| Roster.RepairStops | Task.py:31-34 | once a cast has failed, later passes change nothing, because the exception ends the function |
| Roster.RepairFails | Task.py:31-34 | the first k passes fail exactly when one of the first k columns is present and all missing |
| Roster.RepairStepOutcome | Task.py:32-34 | one pass on an untouched column fails exactly when that column is unfillable |
| Roster.RepairReportsFirst | Task.py:31-34 | a failure names the first unfillable column |
| Roster.RepairRepairs | Task.py:33-34 | after successful passes, each present column holds its own repair, cast to integers |
| Roster.RepairCasts | Task.py:34 | after successful passes, every present column visited is cast to integers |
| Roster.RepairScores | Task.py:31-34 | the repair changes only the score columns, keeps which columns are present, and on success leaves every present one cast |
| Roster.IdCellsKeep | Task.py:40 | dropping rows from the UFID column filters its cells |
| Roster.ScoreCellsKeep | Task.py:40 | dropping rows from a score column filters its cells |
| Roster.DropMissingUfid | Task.py:40 | `dropna(subset=['UFID'])` keeps exactly the rows with a UFID, and every surviving UFID is present |
| Roster.Coerce | Task.py:43 | `to_numeric(errors='coerce')` yields a number or NaN with the same numeric reading |
| Roster.Coerced | Task.py:43 | coercion keeps the column length |
| Roster.CoerceUfid | Task.py:43 | coercion changes only the UFID column, keeps each row's numeric reading, and leaves only numbers or NaN |
| Roster.CastUfid | Task.py:45 | `astype(int)` changes only the UFID column, and each integer is the UFID of its cell |
| Roster.RepairUfid | Task.py:38-45 | the UFID block leaves a frame without UFID unchanged; otherwise it casts the UFIDs and keeps the score, total and other columns present |
| Roster.AbsentScores | Task.py:49 | at most the five score names are reported missing |
| Roster.ScoreRow | Task.py:49 | a row of the score matrix has five entries |
| Roster.AbsentNone | Task.py:49 | no score column is reported missing exactly when all five are present |
| Roster.RowSum | Task.py:49 | `np.sum` of a row whose scores lie in [0, 100] lies between 0 and 100 times the row length |
| Roster.RowSumFive | Task.py:49 | the row sum of five scores is their five-term sum |
| Roster.AddTotal | Task.py:49 | the total fails with `KeyError` naming the absent score columns exactly when one is absent; otherwise only the total is added, as each row's five-term sum |
| Roster.FiveTermSums | Task.py:49 | `np.sum(..., axis=1)` of each row is the sum of its five scores |
| Roster.AssignGrades | Task.py:67 | only the grade column is added, and each grade is the band of its row's total |
| Roster.Finish | Task.py:48-67 | the total and grade steps give a well-formed frame |
| Roster.Clean | Task.py:27-73 | `clean_data` gives a well-formed frame or an exception |
| Roster.Percent | Task.py:77 | `total / 500 * 100` rounded to two places is exactly 20 hundredths per point |
| Roster.Transform | Task.py:75-79 | `transform_data` fails with `KeyError` exactly when there is no total; otherwise only the percentage is added, with percent × 5 = total × 100 per row |
| DropProperties.DropRowsKeepsRows | Task.py:40 | every column of the filtered frame holds, at row j, the original entry at the j-th kept row |
| DropProperties.KeepIdsTwice | Task.py:40-44 | dropping UFID rows twice equals dropping once by the conjunction of the masks |
| DropProperties.KeepScoresTwice | Task.py:40-44 | the same for a score column |
| DropProperties.KeepOptTwice | Task.py:40-44 | the same for an optional column |
| DropProperties.DropTwice | Task.py:40-44 | two successive `dropna` equal one by the conjunction of the masks |
| DropProperties.ValidIdsAt | Task.py:40-45 | the reference UFID list has one entry per numeric row, the j-th from the j-th such row |
| DropProperties.CoercedKeep | Task.py:43-44 | coercion commutes with dropping rows |
| DropProperties.UfidPasses | Task.py:40-44 | the two drops around the coercion keep exactly the rows whose UFID is numeric |
| DropProperties.CastOfValid | Task.py:43-45 | the coerced numeric rows cast to exactly the reference UFID list |
| DropProperties.RepairUfidOnePass | Task.py:38-45 | the four-step UFID block equals one drop of the non-numeric rows, with the UFID column replaced by the reference list |
| DropProperties.UfidExample | Task.py:38-45 | UFIDs [123, missing, "abc", 456] leave [123, 456] and two rows |
| DropProperties.UfidTextExample | Task.py:38-45 | the same UFIDs read as text, ["123", missing, "abc", "456"], also leave [123, 456] and two rows |
| DropProperties.KeepIdsAll | Task.py:40 | keeping every row leaves the UFID column unchanged |
| DropProperties.KeepScoresAll | Task.py:40 | keeping every row leaves a score column unchanged |
| DropProperties.KeepOptAll | Task.py:40 | keeping every row leaves an optional column unchanged |
| DropProperties.DropNone | Task.py:40 | a `dropna` that keeps every row leaves the frame unchanged |
| DropProperties.Survivors | Task.py:38-44 | the rows the UFID block keeps form one mask entry per row |
| DropProperties.RepairUfidDrops | Task.py:38-45 | outside the UFID column, the UFID block only drops the non-surviving rows |
| DropProperties.ValidIdsOfInts | Task.py:45 | integer UFIDs are all numeric and read back as themselves |
| DropProperties.RepairUfidFixed | Task.py:38-45 | a frame whose UFIDs are already integers passes the UFID block unchanged |
| CleanProperties.CleanFailure | Task.py:27-73 | `clean_data` raises exactly when a present score column is all missing or a score column is absent |
| CleanProperties.CleanCastError | Task.py:31-34 | the exception is the cast error of the first all-missing column |
| CleanProperties.AbsentSame | Task.py:49 | which score columns are absent depends only on their presence |
| CleanProperties.CleanKeyError | Task.py:49 | with no unfillable column, a frame lacking a score column fails with `KeyError` naming exactly the absent ones |
| CleanProperties.CleanGraded | Task.py:27-73 | a cleaned frame has totals equal to the five-term sums and grades equal to the bands of the totals, and keeps its UFID column as integers |
| CleanProperties.CleanStructure | Task.py:27-73 | a successful clean had all five columns and no unfillable one, and its rows, scores, other columns and any percentage column are the repaired frame with the non-surviving rows dropped |
| CleanProperties.RepairedScoreAt | Task.py:33-44 | after the repair and the drops, score j of a column is the repair of that column at the j-th surviving row |
| CleanProperties.CleanRowCount | Task.py:38-44 | the cleaned frame has one row per surviving row |
| CleanProperties.CleanScoreAt | Task.py:31-44 | cleaned score (k, j) is column k's repair (its mean over all input rows, rounded) at the j-th surviving row |
| CleanProperties.CleanExtraAt | Task.py:38-44 | other columns travel with their rows |
| CleanProperties.CleanUfids | Task.py:38-45 | the cleaned UFIDs are the numeric UFIDs of the input, in order |
| CleanProperties.RepairColumnsFixed | Task.py:31-34 | columns already cast to integers pass the repair loop unchanged |
| CleanProperties.AddTotalFixed | Task.py:49 | recomputing the total of a graded frame changes nothing |
| CleanProperties.AssignGradesFixed | Task.py:67 | regrading a graded frame changes nothing |
| CleanProperties.CleanFixed | Task.py:27-73 | a graded frame with integer UFIDs is cleaned to itself |
| CleanProperties.CleanIdempotent | Task.py:27-73 | cleaning a cleaned frame gives it back unchanged |
| CleanProperties.CleanRowTotalInRange | Task.py:33-49 | when every input score lies in [0, 100], each cleaned total lies in [0, 500] |
| CleanProperties.CleanTotalsInRange | Task.py:33-49 | the same for all rows at once |
| CleanProperties.PercentAfterClean | Task.py:27-79 | after a clean of scores in [0, 100], the transformation succeeds with every percentage in [0, 100] |
| Frames.Frame.constructor | Task.py:27 | a new frame holds the given table |
| Frames.Frame.Copy | Task.py:40 | `.copy()` gives a new frame with the same contents |
| Frames.Frame.RepairScores | Task.py:31-34 | the loop leaves the frame equal to the score repair of its old value and returns its exception, if any |
| Frames.Frame.DropMissingUfid | Task.py:40 | the frame becomes its old value with the rows lacking a UFID dropped |
| Frames.Frame.CoerceUfid | Task.py:43 | the UFID column is coerced in place |
| Frames.Frame.CastUfid | Task.py:45 | the UFID column is cast to integers in place |
| Frames.Frame.AddTotal | Task.py:49 | the total column is added, or the `KeyError` is returned with the frame unchanged |
| Frames.Frame.AssignGrades | Task.py:67 | the grade column is added |
| Frames.Frame.RecastColumns | Task.py:70-71 | the final casts leave the frame's value unchanged, because every cast column already holds integers |
| Frames.Frame.AddPercent | Task.py:77 | the percentage column is added |
| Frames.RepairUfidBlock | Task.py:38-45 | the result holds the UFID block of the frame: the same frame when it has no UFID column, otherwise a new one |
| Frames.FinishBlock | Task.py:48-71 | the frame becomes the total and grade steps of its old value, or stays unchanged with the `KeyError` returned |
| Frames.CleanData | Task.py:27-73 | the result and the exception are those of `Roster.Clean`; the caller's frame keeps the repaired scores; the result is a new frame exactly when a UFID column exists |
| Frames.TransformData | Task.py:75-79 | the caller's frame, which is also the result, gains the percentage, or stays unchanged with the `KeyError` |

## Left out

- `load_dataset`, `explore_data`, `create_visualizations`, `main` and `test_script.py`: these do file
  input and output or plotting. Only the cleaning and transformation stages are modelled.
- The progress messages printed by `clean_data` are output only, and are not modelled.
- Floating point: scores and means are exact reals, and NaN is a missing value.
  - Float rounding error in `np.nanmean` and in `total / 500 * 100` is not modelled.
  - The percentage is kept as an integer number of hundredths of a percent.
- `pd.to_numeric` on text: only an optional sign followed by decimal digits is read as a number.
  Decimal points, exponents, surrounding spaces and the spellings of infinity or NaN count as
  not numeric. This changes two outcomes:
  - A UFID "12.5" is read by pandas as 12.5, so the row is kept and cast to 12. The model drops
    that row.
  - A UFID "inf" is read by pandas as infinity, so the row survives the second `dropna` and
    `astype(int)` at Task.py:45 raises. The model drops the row and raises nothing.
- Text in a score column: a score cell is a number or NaN. If a score column holds text, pandas
  reads it as an object column, and `np.nanmean` at Task.py:33 raises a `TypeError`. The model
  cannot express that input, so it does not model that error.
- NumPy version: `np.select` at Task.py:64 mixes string choices with its default of 0. The model
  follows NumPy 1.x, where that call gives the grade strings. NumPy 2's type-promotion rules are
  reported to reject this mix with a `TypeError`; the model does not capture that failure.
- Frames.Frame.CastUfid: does not model the 64-bit range of `astype(int)`, because integers are
  unbounded. An out-of-range UFID or total would overflow in numpy and does not here.
- Column dtypes: `df.loc[:, col] = ...` may keep a float dtype in pandas. The model stores the
  repaired integers directly, so the casts at Task.py:70-71 have nothing left to change.
- Column order and the names of the other columns: the other columns are kept by position as
  `extra`. The model does not track where a new column appears among them.
- Frames.CleanData: does not state the returned frame `out` after an exception. Python never
  returns a frame when `clean_data` raises, so nothing can observe it. The caller's frame after an
  exception is stated in full: it holds the repaired scores.
