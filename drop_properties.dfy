/** Properties of dropping rows and of the UFID block of `clean_data` (Task.py:38-45). */
module DropProperties {
  import opened Wrappers
  import opened Numeric
  import opened RowFilter
  import opened Ufid
  import opened Roster

  /** Row `j` of a frame after dropping rows is row `KeptIndices(mask)[j]` of the frame before,
      in every column: rows travel whole and keep their order. */
  lemma DropRowsKeepsRows(t: Table, mask: seq<bool>, j: nat)
    requires WellFormed(t) && |mask| == t.rows && j < CountTrue(mask)
    ensures KeptIndices(mask)[j] < t.rows
    ensures t.ufid.Some? ==>
              IdCells(DropRows(t, mask).ufid.value)[j] == IdCells(t.ufid.value)[KeptIndices(mask)[j]]
    ensures forall k :: 0 <= k < 5 && t.scores[k].Some? ==>
              ScoreCells(DropRows(t, mask).scores[k].value)[j] == ScoreCells(t.scores[k].value)[KeptIndices(mask)[j]]
    ensures forall e :: 0 <= e < |t.extra| ==> DropRows(t, mask).extra[e][j] == t.extra[e][KeptIndices(mask)[j]]
    ensures t.total.Some? ==> DropRows(t, mask).total.value[j] == t.total.value[KeptIndices(mask)[j]]
    ensures t.grade.Some? ==> DropRows(t, mask).grade.value[j] == t.grade.value[KeptIndices(mask)[j]]
    ensures t.percent.Some? ==> DropRows(t, mask).percent.value[j] == t.percent.value[KeptIndices(mask)[j]]
  {
    var r := DropRows(t, mask);
    if t.ufid.Some? {
      IdCellsKeep(t.ufid.value, mask);
      KeepAt(IdCells(t.ufid.value), mask, j);
    }
    forall k | 0 <= k < 5 && t.scores[k].Some?
      ensures ScoreCells(r.scores[k].value)[j] == ScoreCells(t.scores[k].value)[KeptIndices(mask)[j]]
    {
      ScoreCellsKeep(t.scores[k].value, mask);
      KeepAt(ScoreCells(t.scores[k].value), mask, j);
    }
    forall e | 0 <= e < |t.extra|
      ensures r.extra[e][j] == t.extra[e][KeptIndices(mask)[j]]
    {
      KeepAt(t.extra[e], mask, j);
    }
    if t.total.Some? {
      KeepAt(t.total.value, mask, j);
    }
    if t.grade.Some? {
      KeepAt(t.grade.value, mask, j);
    }
    if t.percent.Some? {
      KeepAt(t.percent.value, mask, j);
    }
  }

  lemma KeepIdsTwice(c: IdColumn, m1: seq<bool>, m2: seq<bool>)
    requires |IdCells(c)| == |m1| == |m2|
    ensures KeepIds(KeepIds(c, m1), Keep(m2, m1)) == KeepIds(c, And(m1, m2))
  {
    match c
    case RawIds(cells) => KeepThenKeep(cells, m1, m2);
    case IntIds(ids) => KeepThenKeep(ids, m1, m2);
  }

  lemma KeepScoresTwice(c: ScoreColumn, m1: seq<bool>, m2: seq<bool>)
    requires |ScoreCells(c)| == |m1| == |m2|
    ensures KeepScores(KeepScores(c, m1), Keep(m2, m1)) == KeepScores(c, And(m1, m2))
  {
    match c
    case RawScores(cells) => KeepThenKeep(cells, m1, m2);
    case IntScores(vals) => KeepThenKeep(vals, m1, m2);
  }

  lemma KeepOptTwice<T>(o: Option<seq<T>>, m1: seq<bool>, m2: seq<bool>)
    requires |m1| == |m2| && (o.Some? ==> |o.value| == |m1|)
    ensures KeepOpt(KeepOpt(o, m1), Keep(m2, m1)) == KeepOpt(o, And(m1, m2))
  {
    if o.Some? {
      KeepThenKeep(o.value, m1, m2);
    }
  }

  /** Dropping rows by `m1` and then by what survives of `m2` is dropping once by both. */
  lemma DropTwice(t: Table, m1: seq<bool>, m2: seq<bool>)
    requires WellFormed(t) && |m1| == |m2| == t.rows
    ensures |Keep(m2, m1)| == DropRows(t, m1).rows
    ensures DropRows(DropRows(t, m1), Keep(m2, m1)) == DropRows(t, And(m1, m2))
  {
    KeepThenKeep(m2, m1, m2);
    var t1 := DropRows(t, m1);
    var m2' := Keep(m2, m1);
    var l, r := DropRows(t1, m2'), DropRows(t, And(m1, m2));
    KeepThenKeep(m1, m1, m2);
    assert l.rows == r.rows by {
      KeepThenKeep(seq(t.rows, i => 0), m1, m2);
    }
    if t.ufid.Some? {
      KeepIdsTwice(t.ufid.value, m1, m2);
    }
    forall k | 0 <= k < 5
      ensures l.scores[k] == r.scores[k]
    {
      if t.scores[k].Some? {
        KeepScoresTwice(t.scores[k].value, m1, m2);
      }
    }
    forall e | 0 <= e < |t.extra|
      ensures l.extra[e] == r.extra[e]
    {
      KeepThenKeep(t.extra[e], m1, m2);
    }
    KeepOptTwice(t.total, m1, m2);
    KeepOptTwice(t.grade, m1, m2);
    KeepOptTwice(t.percent, m1, m2);
  }

  /** The UFIDs of the cells that yield one, in order: what the UFID block should keep. */
  function ValidIds(cells: seq<Cell>): seq<int> {
    if cells == [] then []
    else
      var n := |cells| - 1;
      ValidIds(cells[..n]) + (match UfidValue(cells[n]) case None => [] case Some(id) => [id])
  }

  /** The reference list holds one UFID per row whose UFID is numeric, the `j`-th of them read
      from the `j`-th such row. */
  lemma {:induction false} ValidIdsAt(cells: seq<Cell>)
    ensures |ValidIds(cells)| == CountTrue(MaskOf(cells, IsNumeric))
    ensures forall j :: 0 <= j < |ValidIds(cells)| ==>
              UfidValue(Keep(cells, MaskOf(cells, IsNumeric))[j]) == Some(ValidIds(cells)[j])
  {
    if cells != [] {
      var n := |cells| - 1;
      var p, mask := cells[..n], MaskOf(cells, IsNumeric);
      ValidIdsAt(p);
      assert mask[..n] == MaskOf(p, IsNumeric);
      assert Keep(cells, mask) == Keep(p, mask[..n]) + (if mask[n] then [cells[n]] else []);
    }
  }

  /** Coercing the surviving cells is keeping the coerced cells. */
  lemma CoercedKeep(cells: seq<Cell>, mask: seq<bool>)
    requires |cells| == |mask|
    ensures Coerced(Keep(cells, mask)) == Keep(Coerced(cells), mask)
  {
    var l, r := Coerced(Keep(cells, mask)), Keep(Coerced(cells), mask);
    forall j | 0 <= j < |l|
      ensures l[j] == r[j]
    {
      KeepAt(cells, mask, j);
      KeepAt(Coerced(cells), mask, j);
    }
  }

  /** On the UFID column alone: the second mask is what survives of the numeric mask, and
      what survives both passes, coerced, is the numeric cells coerced. */
  lemma UfidPasses(cells: seq<Cell>)
    ensures var m1, num := MaskOf(cells, IsPresent), MaskOf(cells, IsNumeric);
            var c1 := Keep(cells, m1);
            && MaskOf(Coerced(c1), IsPresent) == Keep(num, m1)
            && And(m1, num) == num
            && Keep(Coerced(c1), Keep(num, m1)) == Coerced(Keep(cells, num))
  {
    var m1, num := MaskOf(cells, IsPresent), MaskOf(cells, IsNumeric);
    var c1 := Keep(cells, m1);
    assert MaskOf(Coerced(c1), IsPresent) == MaskOf(c1, IsNumeric) by {
      forall i | 0 <= i < |c1|
        ensures IsPresent(Coerced(c1)[i]) == IsNumeric(c1[i])
      {
      }
    }
    MaskOfKeep(cells, m1, IsNumeric);
    assert And(m1, num) == num by {
      forall i | 0 <= i < |cells|
        ensures (m1[i] && num[i]) == num[i]
      {
      }
    }
    CoercedKeep(c1, Keep(num, m1));
    KeepThenKeep(cells, m1, num);
  }

  /** The numeric cells, coerced and cast, are the reference list of UFIDs. */
  lemma CastOfValid(cells: seq<Cell>)
    ensures var kept := Coerced(Keep(cells, MaskOf(cells, IsNumeric)));
            && |kept| == |ValidIds(cells)|
            && forall j :: 0 <= j < |kept| ==> UfidValue(kept[j]) == Some(ValidIds(cells)[j])
  {
    var kept := Keep(cells, MaskOf(cells, IsNumeric));
    ValidIdsAt(cells);
    forall j | 0 <= j < |kept|
      ensures UfidValue(Coerced(kept)[j]) == Some(ValidIds(cells)[j])
    {
      assert UfidValue(Coerced(kept)[j]) == UfidValue(kept[j]);
    }
  }

  /** The UFID block drops, in one pass, exactly the rows whose UFID is not a number (missing,
      or text that does not read as one), keeps every other column of the surviving rows, and
      leaves the surviving UFIDs as integers in their original order. */
  lemma RepairUfidOnePass(t: Table)
    requires WellFormed(t) && t.ufid.Some?
    ensures RepairUfid(t) == DropRows(t, MaskOf(IdCells(t.ufid.value), IsNumeric))
                               .(ufid := Some(IntIds(ValidIds(IdCells(t.ufid.value)))))
  {
    var cells := IdCells(t.ufid.value);
    var m1, num := MaskOf(cells, IsPresent), MaskOf(cells, IsNumeric);
    var t1 := DropMissingUfid(t);
    IdCellsKeep(t.ufid.value, m1);
    var t2 := CoerceUfid(t1);
    UfidPasses(cells);
    var m2 := Keep(num, m1);
    DropTwice(t, m1, num);
    var t3 := DropMissingUfid(t2);
    assert t3 == DropRows(t1, m2).(ufid := Some(RawIds(Coerced(Keep(cells, num)))));
    CastOfValid(cells);
    var r := CastUfid(t3);
    assert r.ufid.value.ids == ValidIds(cells);
  }

  /** UFIDs [123, missing, "abc", 456]: two rows survive, with UFIDs 123 and 456 in that order. */
  lemma UfidExample()
    ensures var cells := [Num(123.0), Missing, Text("abc"), Num(456.0)];
            ValidIds(cells) == [123, 456] && CountTrue(MaskOf(cells, IsNumeric)) == 2
  {
    var cells := [Num(123.0), Missing, Text("abc"), Num(456.0)];
    assert UfidValue(Num(123.0)) == Some(123);
    assert UfidValue(Num(456.0)) == Some(456);
    assert UfidValue(Text("abc")) == None by {
      assert !IsDigit("abc"[0]);
    }
    assert ValidIds(cells[..1]) == [123] by {
      assert cells[..1][..0] == [];
    }
    assert ValidIds(cells[..2]) == [123] by {
      assert cells[..2][..1] == cells[..1];
    }
    assert ValidIds(cells[..3]) == [123] by {
      assert cells[..3][..2] == cells[..2];
    }
    assert ValidIds(cells) == [123, 456];
    ValidIdsAt(cells);
  }

  /** The same UFIDs as `read_csv` gives them in a column that also holds text: every cell is
      text, and "123" and "456" are parsed. */
  lemma UfidTextExample()
    ensures var cells := [Text("123"), Missing, Text("abc"), Text("456")];
            ValidIds(cells) == [123, 456] && CountTrue(MaskOf(cells, IsNumeric)) == 2
  {
    var cells := [Text("123"), Missing, Text("abc"), Text("456")];
    assert UfidValue(Text("123")) == Some(123) by {
      assert DigitsValue("1") == 1 by { assert "1"[..0] == []; }
      assert DigitsValue("12") == 12 by { assert "12"[..1] == "1"; }
      assert DigitsValue("123") == 123 by { assert "123"[..2] == "12"; }
    }
    assert UfidValue(Text("456")) == Some(456) by {
      assert DigitsValue("4") == 4 by { assert "4"[..0] == []; }
      assert DigitsValue("45") == 45 by { assert "45"[..1] == "4"; }
      assert DigitsValue("456") == 456 by { assert "456"[..2] == "45"; }
    }
    assert UfidValue(Text("abc")) == None by {
      assert !IsDigit("abc"[0]);
    }
    assert ValidIds(cells[..1]) == [123] by {
      assert cells[..1][..0] == [];
    }
    assert ValidIds(cells[..2]) == [123] by {
      assert cells[..2][..1] == cells[..1];
    }
    assert ValidIds(cells[..3]) == [123] by {
      assert cells[..3][..2] == cells[..2];
    }
    assert ValidIds(cells) == [123, 456];
    ValidIdsAt(cells);
  }

  lemma KeepIdsAll(c: IdColumn, mask: seq<bool>)
    requires |IdCells(c)| == |mask| && forall i :: 0 <= i < |mask| ==> mask[i]
    ensures KeepIds(c, mask) == c
  {
    match c
    case RawIds(cells) => KeepAll(cells, mask);
    case IntIds(ids) => KeepAll(ids, mask);
  }

  lemma KeepScoresAll(c: ScoreColumn, mask: seq<bool>)
    requires |ScoreCells(c)| == |mask| && forall i :: 0 <= i < |mask| ==> mask[i]
    ensures KeepScores(c, mask) == c
  {
    match c
    case RawScores(cells) => KeepAll(cells, mask);
    case IntScores(vals) => KeepAll(vals, mask);
  }

  lemma KeepOptAll<T>(o: Option<seq<T>>, mask: seq<bool>)
    requires (o.Some? ==> |o.value| == |mask|) && forall i :: 0 <= i < |mask| ==> mask[i]
    ensures KeepOpt(o, mask) == o
  {
    if o.Some? {
      KeepAll(o.value, mask);
    }
  }

  /** A mask that keeps every row leaves the frame as it was. */
  lemma DropNone(t: Table, mask: seq<bool>)
    requires WellFormed(t) && |mask| == t.rows
    requires forall i :: 0 <= i < |mask| ==> mask[i]
    ensures DropRows(t, mask) == t
  {
    var r := DropRows(t, mask);
    assert r.rows == t.rows by {
      KeepAll(mask, mask);
    }
    assert r.ufid == t.ufid by {
      if t.ufid.Some? {
        KeepIdsAll(t.ufid.value, mask);
      }
    }
    assert r.scores == t.scores by {
      forall k | 0 <= k < 5
        ensures r.scores[k] == t.scores[k]
      {
        if t.scores[k].Some? {
          KeepScoresAll(t.scores[k].value, mask);
        }
      }
    }
    assert r.extra == t.extra by {
      forall e | 0 <= e < |t.extra|
        ensures r.extra[e] == t.extra[e]
      {
        KeepAll(t.extra[e], mask);
      }
    }
    KeepOptAll(t.total, mask);
    KeepOptAll(t.grade, mask);
    KeepOptAll(t.percent, mask);
  }

  /** The rows the UFID block keeps: those whose UFID is a number, or every row when the frame
      has no UFID column. */
  function Survivors(t: Table): (mask: seq<bool>)
    requires WellFormed(t)
    ensures |mask| == t.rows
  {
    if t.ufid.Some? then MaskOf(IdCells(t.ufid.value), IsNumeric)
    else seq(t.rows, i requires 0 <= i < t.rows => true)
  }

  /** Apart from its UFID column, the frame after the UFID block is the frame with the surviving
      rows kept. */
  lemma RepairUfidDrops(t: Table)
    requires WellFormed(t)
    ensures RepairUfid(t) == DropRows(t, Survivors(t)).(ufid := RepairUfid(t).ufid)
  {
    if t.ufid.Some? {
      RepairUfidOnePass(t);
    } else {
      DropNone(t, Survivors(t));
    }
  }

  /** Every UFID of a column of integers is valid and reads back as itself. */
  lemma ValidIdsOfInts(ids: seq<int>)
    ensures forall i :: 0 <= i < |ids| ==> MaskOf(IdCells(IntIds(ids)), IsNumeric)[i]
    ensures ValidIds(IdCells(IntIds(ids))) == ids
  {
    var cells := IdCells(IntIds(ids));
    var mask := MaskOf(cells, IsNumeric);
    KeepAll(cells, mask);
    ValidIdsAt(cells);
    forall j | 0 <= j < |ids|
      ensures ValidIds(cells)[j] == ids[j]
    {
      assert UfidValue(cells[j]) == Some(TruncateTowardZero(ids[j] as real));
    }
  }

  /** A UFID column already cast to integers passes the UFID block unchanged. */
  lemma RepairUfidFixed(t: Table)
    requires WellFormed(t) && (t.ufid.Some? ==> t.ufid.value.IntIds?)
    ensures RepairUfid(t) == t
  {
    if t.ufid.Some? {
      ValidIdsOfInts(t.ufid.value.ids);
      RepairUfidOnePass(t);
      DropNone(t, MaskOf(IdCells(t.ufid.value), IsNumeric));
    }
  }
}
