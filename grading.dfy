/** The nested `assign_grade` of `clean_data` (Task.py:52-64): eight independent threshold tests on
    the calculated total, resolved by `np.select`, which takes the first test that holds. */
module Grading {
  import opened Wrappers
  import opened RowFilter

  datatype Grade = A | AMinus | BPlus | B | BMinus | C | D | F

  /** The text written in the 'Calculated Grade' column: a letter, possibly followed by a sign. */
  function Label(g: Grade): (s: string)
    ensures |s| == 1 || (|s| == 2 && (s[1] == '+' || s[1] == '-'))
  {
    match g
    case A => "A"
    case AMinus => "A-"
    case BPlus => "B+"
    case B => "B"
    case BMinus => "B-"
    case C => "C"
    case D => "D"
    case F => "F"
  }

  /** The grades in the order of the tests (Task.py:63). */
  const CHOICES: seq<Grade> := [A, AMinus, BPlus, B, BMinus, C, D, F]

  /** The eight tests on a total, in the source's order (Task.py:53-62). The last test holds
      exactly when none of the others does. */
  function Conditions(total: int): (conds: seq<bool>)
    ensures |conds| == |CHOICES|
    ensures conds[7] <==> forall i :: 0 <= i < 7 ==> !conds[i]
  {
    var conds :=
      [ total >= 475,
        450 <= total < 475,
        435 <= total < 450,
        425 <= total < 435,
        415 <= total < 425,
        400 <= total < 415,
        350 <= total < 400,
        total < 350 ];
    assert conds[7] <== forall i :: 0 <= i < 7 ==> !conds[i] by {
      if forall i :: 0 <= i < 7 ==> !conds[i] {
        assert !conds[0] && !conds[1] && !conds[2] && !conds[3] && !conds[4] && !conds[5] && !conds[6];
      }
    }
    conds
  }

  /** The choices of `np.select`, written out, are the grade strings of the source in order. */
  lemma ChoiceLabels()
    ensures seq(|CHOICES|, i requires 0 <= i < |CHOICES| => Label(CHOICES[i]))
            == ["A", "A-", "B+", "B", "B-", "C", "D", "F"]
  {
  }

  /** No two grades are written the same way. */
  lemma LabelInjective(g: Grade, h: Grade)
    requires Label(g) == Label(h)
    ensures g == h
  {
  }

  /** `np.select` on one value: the choice of the first test that holds; `None` stands for the
      default that `np.select` returns when no test holds. */
  function Select(conds: seq<bool>, choices: seq<Grade>): (r: Option<Grade>)
    requires |conds| == |choices|
    ensures r.None? <==> forall i :: 0 <= i < |conds| ==> !conds[i]
    ensures r.Some? ==> exists i :: 0 <= i < |conds| && conds[i] && choices[i] == r.value
                                     && forall j :: 0 <= j < i ==> !conds[j]
  {
    if conds == [] then None
    else if conds[0] then Some(choices[0])
    else Select(conds[1..], choices[1..])
  }

  /** The same banding written as one ordered ladder of lower edges: the reference the eight
      independent tests are checked against. */
  function Band(total: int): Grade {
    if total >= 475 then A
    else if total >= 450 then AMinus
    else if total >= 435 then BPlus
    else if total >= 425 then B
    else if total >= 415 then BMinus
    else if total >= 400 then C
    else if total >= 350 then D
    else F
  }

  /** The tests partition the integers: test `i` holds exactly when the ladder gives the `i`-th
      grade, so exactly one test holds for every total. */
  lemma BandsPartition(total: int)
    ensures forall i :: 0 <= i < 8 ==> (Conditions(total)[i] <==> CHOICES[i] == Band(total))
  {
  }

  /** The index of the ladder's grade among the choices. */
  function BandIndex(total: int): (i: nat)
    ensures i < 8 && CHOICES[i] == Band(total)
  {
    if total >= 475 then 0 else if total >= 450 then 1 else if total >= 435 then 2
    else if total >= 425 then 3 else if total >= 415 then 4 else if total >= 400 then 5
    else if total >= 350 then 6 else 7
  }

  /** Exactly one of the eight tests holds, whatever the total. */
  lemma ExactlyOneCondition(total: int)
    ensures CountTrue(Conditions(total)) == 1
  {
    BandsPartition(total);
    CountTrueSingle(Conditions(total), BandIndex(total));
  }

  /** `assign_grade`: the grade `np.select` picks; it never falls back to the default and it agrees
      with the ladder. */
  function AssignGrade(total: int): (g: Grade)
    ensures g == Band(total)
  {
    BandsPartition(total);
    var r := Select(Conditions(total), CHOICES);
    assert Conditions(total)[BandIndex(total)];
    r.value
  }

  /** The position of a grade from the bottom: F is 0, A is 7. */
  function Rank(g: Grade): nat {
    match g
    case F => 0
    case D => 1
    case C => 2
    case BMinus => 3
    case B => 4
    case BPlus => 5
    case AMinus => 6
    case A => 7
  }

  /** A lower total never earns a better grade. */
  lemma GradeMonotone(lower: int, higher: int)
    requires lower <= higher
    ensures Rank(AssignGrade(lower)) <= Rank(AssignGrade(higher))
  {
  }

  /** Every lower edge belongs to its own band, and one below it to the next band down. */
  lemma BandEdges()
    ensures AssignGrade(475) == A && AssignGrade(474) == AMinus
    ensures AssignGrade(450) == AMinus && AssignGrade(449) == BPlus
    ensures AssignGrade(435) == BPlus && AssignGrade(434) == B
    ensures AssignGrade(425) == B && AssignGrade(424) == BMinus
    ensures AssignGrade(415) == BMinus && AssignGrade(414) == C
    ensures AssignGrade(400) == C && AssignGrade(399) == D
    ensures AssignGrade(350) == D && AssignGrade(349) == F
  {
  }
}
