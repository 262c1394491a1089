/** The code <-> Arabic label tables used by the goal screens, with the
    fallbacks the lookups apply to anything not in a table. */
module Labels {
  import opened Base

  /** A code -> label table in the order its dict literal lists it. */
  type LabelTable = seq<(string, string)>

  const CategoryLabels: LabelTable :=
    [("memorization", "الحفظ"), ("review", "المراجعة"), ("reading", "القراءة"), ("listening", "الاستماع")]

  const PeriodicityLabels: LabelTable :=
    [("once", "مرّة واحدة"), ("weekly", "أسبوعي"), ("monthly", "شهري")]

  const TargetKindLabels: LabelTable :=
    [("pages", "صفحات"), ("ayahs", "آيات")]

  const StatusLabels: LabelTable :=
    [("pending", "ليس بعد"), ("done", "تم"), ("failed", "لم ينجز")]

  /** No two entries share a code. */
  predicate CodesDistinct(t: LabelTable)
  {
    forall i, j :: 0 <= i < j < |t| ==> t[i].0 != t[j].0
  }

  /** No two entries share a label. */
  predicate LabelsDistinct(t: LabelTable)
  {
    forall i, j :: 0 <= i < j < |t| ==> t[i].1 != t[j].1
  }

  predicate IsCode(t: LabelTable, c: string)
  {
    exists i :: 0 <= i < |t| && t[i].0 == c
  }

  predicate IsLabel(t: LabelTable, l: string)
  {
    exists i :: 0 <= i < |t| && t[i].1 == l
  }

  /** `dict.get(code)`: the label of the entry with that code, if any. */
  function LabelOf(t: LabelTable, code: string): (r: Option<string>)
    ensures r.Some? <==> IsCode(t, code)
    ensures r.Some? ==> exists i :: 0 <= i < |t| && t[i] == (code, r.value)
  {
    if |t| == 0 then None
    else if t[0].0 == code then Some(t[0].1)
    else
      var rest := LabelOf(t[1..], code);
      assert IsCode(t, code) <==> IsCode(t[1..], code) by {
        if IsCode(t, code) {
          var i :| 0 <= i < |t| && t[i].0 == code;
          assert t[1..][i - 1] == t[i];
        }
        if IsCode(t[1..], code) {
          var i :| 0 <= i < |t[1..]| && t[1..][i].0 == code;
          assert t[i + 1] == t[1..][i];
        }
      }
      assert rest.Some? ==> exists i :: 0 <= i < |t| && t[i] == (code, rest.value) by {
        if rest.Some? {
          var i :| 0 <= i < |t[1..]| && t[1..][i] == (code, rest.value);
          assert t[i + 1] == t[1..][i];
        }
      }
      rest
  }

  /** `next((k for k, v in table.items() if v == label), default)`: the code
      of the first entry carrying that label, or the default. */
  function CodeOf(t: LabelTable, lbl: string, default: string): (r: string)
    ensures IsLabel(t, lbl) ==> exists i :: 0 <= i < |t| && t[i] == (r, lbl)
    ensures !IsLabel(t, lbl) ==> r == default
  {
    if |t| == 0 then default
    else if t[0].1 == lbl then t[0].0
    else
      var rest := CodeOf(t[1..], lbl, default);
      assert IsLabel(t, lbl) ==> IsLabel(t[1..], lbl) by {
        if IsLabel(t, lbl) {
          var i :| 0 <= i < |t| && t[i].1 == lbl;
          assert t[1..][i - 1] == t[i];
        }
      }
      assert IsLabel(t[1..], lbl) ==> exists i :: 0 <= i < |t| && t[i] == (rest, lbl) by {
        if IsLabel(t[1..], lbl) {
          var i :| 0 <= i < |t[1..]| && t[1..][i] == (rest, lbl);
          assert t[i + 1] == t[1..][i];
        }
      }
      assert !IsLabel(t[1..], lbl) ==> !IsLabel(t, lbl) by {
        if IsLabel(t, lbl) {
          var i :| 0 <= i < |t| && t[i].1 == lbl;
          assert i != 0;
          assert t[1..][i - 1] == t[i];
        }
      }
      rest
  }

  /** `{v: k for k, v in table.items()}.get(label)`: the comprehension lets
      a later entry overwrite an earlier one with the same label. */
  function ReverseGet(t: LabelTable, lbl: string): (r: Option<string>)
    ensures r.Some? <==> IsLabel(t, lbl)
    ensures r.Some? ==> exists i :: 0 <= i < |t| && t[i] == (r.value, lbl)
  {
    if |t| == 0 then None
    else if t[|t| - 1].1 == lbl then Some(t[|t| - 1].0)
    else
      var init := t[..|t| - 1];
      var rest := ReverseGet(init, lbl);
      assert IsLabel(t, lbl) <==> IsLabel(init, lbl) by {
        if IsLabel(t, lbl) {
          var i :| 0 <= i < |t| && t[i].1 == lbl;
          assert init[i] == t[i];
        }
        if IsLabel(init, lbl) {
          var i :| 0 <= i < |init| && init[i].1 == lbl;
          assert t[i] == init[i];
        }
      }
      assert rest.Some? ==> exists i :: 0 <= i < |t| && t[i] == (rest.value, lbl) by {
        if rest.Some? {
          var i :| 0 <= i < |init| && init[i] == (rest.value, lbl);
          assert t[i] == init[i];
        }
      }
      rest
  }

  /** In a table with distinct labels, a label leads back to the code that
      carries it. */
  lemma CodeOfLabel(t: LabelTable, i: int, default: string)
    requires LabelsDistinct(t) && 0 <= i < |t|
    ensures CodeOf(t, t[i].1, default) == t[i].0
    ensures ReverseGet(t, t[i].1) == Some(t[i].0)
  {
    assert IsLabel(t, t[i].1);
  }

  /** In a table with distinct codes, a code leads to its own label. */
  lemma LabelOfCode(t: LabelTable, i: int)
    requires CodesDistinct(t) && 0 <= i < |t|
    ensures LabelOf(t, t[i].0) == Some(t[i].1)
  {
    assert IsCode(t, t[i].0);
  }

  /** A label back to its code through `CodeOf`, falling back to a default
      that is itself a code: the result is always a code of the table, and
      the one carrying the label when there is one. */
  function ToCode(t: LabelTable, ar: string, default: string): (r: string)
    requires CodesDistinct(t) && IsCode(t, default)
    ensures IsCode(t, r)
    ensures IsLabel(t, ar) ==> LabelOf(t, r) == Some(ar)
    ensures !IsLabel(t, ar) ==> r == default
  {
    var r := CodeOf(t, ar, default);
    assert IsLabel(t, ar) ==> LabelOf(t, r) == Some(ar) by {
      if IsLabel(t, ar) {
        var i :| 0 <= i < |t| && t[i] == (r, ar);
        LabelOfCode(t, i);
      }
    }
    r
  }

  /** A code to its label, and anything else passed through unchanged. */
  function ToLabel(t: LabelTable, c: string): (r: string)
    ensures IsCode(t, c) ==> IsLabel(t, r) && LabelOf(t, c) == Some(r)
    ensures !IsCode(t, c) ==> r == c
  {
    match LabelOf(t, c)
    case Some(l) => (
      assert exists i :: 0 <= i < |t| && t[i] == (c, l);
      l)
    case None => c
  }

  /** A label to the code the reversed table gives it, and the default for
      anything else. */
  function FromLabel(t: LabelTable, a: string, default: string): (r: string)
    requires CodesDistinct(t) && IsCode(t, default)
    ensures IsCode(t, r)
    ensures IsLabel(t, a) ==> ToLabel(t, r) == a
    ensures !IsLabel(t, a) ==> r == default
  {
    match ReverseGet(t, a)
    case Some(c) => (
      assert ToLabel(t, c) == a by {
        var i :| 0 <= i < |t| && t[i] == (c, a);
        LabelOfCode(t, i);
      }
      c)
    case None => default
  }

  /** In a table with distinct codes and labels, every code survives the
      trip to its label and back, and every label the trip the other way. */
  lemma LabelRoundTrip(t: LabelTable, c: string, a: string, default: string)
    requires CodesDistinct(t) && LabelsDistinct(t) && IsCode(t, default)
    ensures IsCode(t, c) ==> FromLabel(t, ToLabel(t, c), default) == c
    ensures IsLabel(t, a) ==> ToLabel(t, FromLabel(t, a, default)) == a
  {
    if IsCode(t, c) {
      var i :| 0 <= i < |t| && t[i].0 == c;
      LabelOfCode(t, i);
      CodeOfLabel(t, i, default);
    }
  }

  /** In a table with distinct labels, every label goes back to the code
      that carries it. */
  lemma ToCodeRoundTrip(t: LabelTable, default: string)
    requires CodesDistinct(t) && LabelsDistinct(t) && IsCode(t, default)
    ensures forall i :: 0 <= i < |t| ==> ToCode(t, t[i].1, default) == t[i].0
  {
    forall i | 0 <= i < |t|
      ensures ToCode(t, t[i].1, default) == t[i].0
    {
      CodeOfLabel(t, i, default);
    }
  }

  // ---------------------------------------------------------------------
  // The lookups of core/models.py
  // ---------------------------------------------------------------------

  /** A table whose codes and labels are distinct and whose lookup
      default is one of its codes. */
  predicate TableOk(t: LabelTable, default: string)
  {
    CodesDistinct(t) && LabelsDistinct(t) && IsCode(t, default)
  }

  lemma CategoryTableOk()
    ensures TableOk(CategoryLabels, "memorization")
  {
    assert CategoryLabels[0].0 == "memorization";
  }

  lemma PeriodicityTableOk()
    ensures TableOk(PeriodicityLabels, "once")
  {
    assert PeriodicityLabels[0].0 == "once";
  }

  lemma TargetKindTableOk()
    ensures TableOk(TargetKindLabels, "pages")
  {
    assert TargetKindLabels[0].0 == "pages";
  }

  lemma StatusTableOk()
    ensures TableOk(StatusLabels, "pending")
  {
    assert StatusLabels[0].0 == "pending";
  }

  /** `_to_code_category`: a category label back to its code, defaulting
      to "memorization"; the result is always a known category. */
  function ToCodeCategory(ar: string): (r: string)
    ensures IsCode(CategoryLabels, r)
    ensures IsLabel(CategoryLabels, ar) ==> LabelOf(CategoryLabels, r) == Some(ar)
    ensures !IsLabel(CategoryLabels, ar) ==> r == "memorization"
  {
    CategoryTableOk();
    ToCode(CategoryLabels, ar, "memorization")
  }

  /** `_to_code_periodicity`, defaulting to "once". */
  function ToCodePeriodicity(ar: string): (r: string)
    ensures IsCode(PeriodicityLabels, r)
    ensures IsLabel(PeriodicityLabels, ar) ==> LabelOf(PeriodicityLabels, r) == Some(ar)
    ensures !IsLabel(PeriodicityLabels, ar) ==> r == "once"
  {
    PeriodicityTableOk();
    ToCode(PeriodicityLabels, ar, "once")
  }

  /** `_to_code_target_kind`, defaulting to "pages". */
  function ToCodeTargetKind(ar: string): (r: string)
    ensures IsCode(TargetKindLabels, r)
    ensures IsLabel(TargetKindLabels, ar) ==> LabelOf(TargetKindLabels, r) == Some(ar)
    ensures !IsLabel(TargetKindLabels, ar) ==> r == "pages"
  {
    TargetKindTableOk();
    ToCode(TargetKindLabels, ar, "pages")
  }

  /** Every category, periodicity and target kind survives the trip to its
      label and back. */
  lemma ToCodeRoundTrips()
    ensures forall i :: 0 <= i < |CategoryLabels| ==> ToCodeCategory(CategoryLabels[i].1) == CategoryLabels[i].0
    ensures forall i :: 0 <= i < |PeriodicityLabels| ==> ToCodePeriodicity(PeriodicityLabels[i].1) == PeriodicityLabels[i].0
    ensures forall i :: 0 <= i < |TargetKindLabels| ==> ToCodeTargetKind(TargetKindLabels[i].1) == TargetKindLabels[i].0
  {
    CategoryTableOk();
    PeriodicityTableOk();
    TargetKindTableOk();
    ToCodeRoundTrip(CategoryLabels, "memorization");
    ToCodeRoundTrip(PeriodicityLabels, "once");
    ToCodeRoundTrip(TargetKindLabels, "pages");
  }

  /** `_goal_status_to_ar`: the label of a known status, and anything else
      passed through unchanged. */
  function GoalStatusToAr(c: string): (r: string)
    ensures IsCode(StatusLabels, c) ==> IsLabel(StatusLabels, r) && LabelOf(StatusLabels, c) == Some(r)
    ensures !IsCode(StatusLabels, c) ==> r == c
  {
    ToLabel(StatusLabels, c)
  }

  /** `_goal_status_from_ar`: the status carrying a label, and "pending"
      for anything else. */
  function GoalStatusFromAr(a: string): (r: string)
    ensures IsCode(StatusLabels, r)
    ensures IsLabel(StatusLabels, a) ==> GoalStatusToAr(r) == a
    ensures !IsLabel(StatusLabels, a) ==> r == "pending"
  {
    StatusTableOk();
    FromLabel(StatusLabels, a, "pending")
  }

  /** Every status survives the trip to its label and back, and every
      status label the trip the other way. */
  lemma GoalStatusRoundTrip(c: string, a: string)
    ensures IsCode(StatusLabels, c) ==> GoalStatusFromAr(GoalStatusToAr(c)) == c
    ensures IsLabel(StatusLabels, a) ==> GoalStatusToAr(GoalStatusFromAr(a)) == a
  {
    StatusTableOk();
    LabelRoundTrip(StatusLabels, c, a, "pending");
  }

  /** A code that is not a status is shown as itself and read back as
      "pending" (unless it happens to spell a status label). */
  lemma UnknownStatusReadsAsPending(c: string)
    requires !IsCode(StatusLabels, c) && !IsLabel(StatusLabels, c)
    ensures GoalStatusToAr(c) == c
    ensures GoalStatusFromAr(GoalStatusToAr(c)) == "pending"
  {
  }
}
