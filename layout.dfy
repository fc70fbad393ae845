/**
 * The grid slot of each course: its semester and its row number within that semester,
 * numbered 0, 1, 2, ... in table order (the integer part of the fixed grid layout).
 */
module Layout {
  import opened Courses

  datatype Slot = Slot(semester: int, row: nat)

  /** How many rows of `t` have semester `s`. */
  function SemesterCount(t: seq<Course>, s: int): nat {
    if t == [] then 0
    else SemesterCount(t[..|t| - 1], s) + (if t[|t| - 1].semester == s then 1 else 0)
  }

  /** The row number row `i` receives: how many earlier rows share its semester. */
  function RowNumber(t: seq<Course>, i: nat): nat
    requires i < |t|
  {
    SemesterCount(t[..i], t[i].semester)
  }

  /** The count over a prefix grows by one exactly at a row with that semester. */
  lemma CountStep(t: seq<Course>, i: nat, s: int)
    requires i < |t|
    ensures SemesterCount(t[..i + 1], s) == SemesterCount(t[..i], s) + (if t[i].semester == s then 1 else 0)
  {
    assert t[..i + 1][..i] == t[..i];
  }

  lemma {:induction false} CountMonotone(t: seq<Course>, i: nat, j: nat, s: int)
    requires i <= j <= |t|
    ensures SemesterCount(t[..i], s) <= SemesterCount(t[..j], s)
    decreases j - i
  {
    if i < j {
      CountStep(t, j - 1, s);
      CountMonotone(t, i, j - 1, s);
    }
  }

  /** Later rows of the same semester get strictly larger row numbers, so no two share a slot. */
  lemma RowNumbersIncrease(t: seq<Course>, i: nat, j: nat)
    requires i < j < |t| && t[i].semester == t[j].semester
    ensures RowNumber(t, i) < RowNumber(t, j)
  {
    CountStep(t, i, t[i].semester);
    CountMonotone(t, i + 1, j, t[i].semester);
  }

  /** Every row number is below the number of rows in its semester. */
  lemma RowNumberBelowCount(t: seq<Course>, i: nat)
    requires i < |t|
    ensures RowNumber(t, i) < SemesterCount(t, t[i].semester)
  {
    assert t[..|t|] == t;
    CountStep(t, i, t[i].semester);
    CountMonotone(t, i + 1, |t|, t[i].semester);
  }

  /** Every row number from 0 up to the semester's count is given to some row of that semester. */
  lemma {:induction false} RowNumbersCover(t: seq<Course>, s: int, k: nat)
    requires k < SemesterCount(t, s)
    ensures exists i :: 0 <= i < |t| && t[i].semester == s && RowNumber(t, i) == k
  {
    var n := |t| - 1;
    var p := t[..n];
    if k < SemesterCount(p, s) {
      RowNumbersCover(p, s, k);
      var i :| 0 <= i < |p| && p[i].semester == s && RowNumber(p, i) == k;
      assert p[..i] == t[..i];
      assert RowNumber(t, i) == k;
    } else {
      assert t[n].semester == s;
      assert RowNumber(t, n) == k;
    }
  }
}
