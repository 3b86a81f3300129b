/** Client-supplied retake overrides, applied after both passes. */
module Overrides {
  import opened Optional
  import opened Resolver

  /** The `repeatedSubjects` body field: parallel lists of subject codes and
      grades. Either list may be missing; a grade entry is `None` when it is
      null or absent. */
  datatype RetakeList = RetakeList(subjects: Option<seq<string>>, grades: Option<seq<Option<string>>>)

  /** The default body field: two empty lists. */
  const NoRetakes := RetakeList(Some([]), Some([]))

  /** A grade entry that JavaScript treats as true: present and non-empty. */
  predicate Truthy(g: Option<string>) {
    g.Some? && g.value != ""
  }

  /** `grades[index]`, which is `undefined` past the end of the list. */
  function GradeAt(grades: seq<Option<string>>, i: nat): Option<string> {
    if i < |grades| then grades[i] else None
  }

  /** One retake entry: a held subject with a truthy grade takes that grade
      and keeps its year; nothing else changes. */
  function OverrideStep(m: Attempts, code: string, g: Option<string>): (o: Attempts)
    ensures o.Keys == m.Keys
    ensures forall k :: k in m && k != code ==> o[k] == m[k]
    ensures code in m && Truthy(g) ==> o[code] == Attempt(g.value, m[code].year)
    ensures code !in m || !Truthy(g) ==> o == m
  {
    if code in m && Truthy(g) then m[code := m[code].(grade := g.value)] else m
  }

  /** The state after the first `n` overrides, in list order. Only grades
      change, and only of subjects that already have a record. */
  function OverrideFold(m: Attempts, subjects: seq<string>, grades: seq<Option<string>>, n: nat): (o: Attempts)
    requires n <= |subjects|
    ensures o.Keys == m.Keys
    ensures forall k :: k in m ==> o[k].year == m[k].year
    decreases n
  {
    if n == 0 then m
    else OverrideStep(OverrideFold(m, subjects, grades, n - 1), subjects[n - 1], GradeAt(grades, n - 1))
  }

  /** Override `i` names subject `k` with a grade entry that is taken. */
  ghost predicate AppliesTo(subjects: seq<string>, grades: seq<Option<string>>, i: int, k: string) {
    0 <= i < |subjects| && subjects[i] == k && Truthy(GradeAt(grades, i))
  }

  /** Override `i` is the last of the first `n` that is taken for `k`. */
  ghost predicate LastFor(subjects: seq<string>, grades: seq<Option<string>>, n: int, k: string, i: int) {
    && 0 <= i < n
    && AppliesTo(subjects, grades, i, k)
    && forall j :: i < j < n ==> !AppliesTo(subjects, grades, j, k)
  }

  /** `a` is what the record `m[k]` becomes after the first `n` overrides:
      the grade of the last override taken for `k` with the year kept, or the
      record itself when none is taken. */
  ghost predicate OverriddenBy(m: Attempts, subjects: seq<string>, grades: seq<Option<string>>, n: int, k: string, a: Attempt)
    requires k in m
  {
    || (exists i :: LastFor(subjects, grades, n, k, i) && a == Attempt(GradeAt(grades, i).value, m[k].year))
    || ((forall i :: 0 <= i < n ==> !AppliesTo(subjects, grades, i, k)) && a == m[k])
  }

  /** One more override keeps `OverriddenBy`: the record after `n` overrides
      is what the record after `n - 1` becomes under override `n - 1`. */
  lemma OverrideStepLastWins(m: Attempts, subjects: seq<string>, grades: seq<Option<string>>, n: nat, k: string, a: Attempt, b: Attempt)
    requires 0 < n <= |subjects| && k in m
    requires OverriddenBy(m, subjects, grades, n - 1, k, a)
    requires AppliesTo(subjects, grades, n - 1, k) ==> b == Attempt(GradeAt(grades, n - 1).value, m[k].year)
    requires !AppliesTo(subjects, grades, n - 1, k) ==> b == a
    ensures OverriddenBy(m, subjects, grades, n, k, b)
  {
    if AppliesTo(subjects, grades, n - 1, k) {
      assert LastFor(subjects, grades, n, k, n - 1);
    } else if forall i :: 0 <= i < n - 1 ==> !AppliesTo(subjects, grades, i, k) {
      assert forall i :: 0 <= i < n ==> !AppliesTo(subjects, grades, i, k);
    } else {
      var i :| LastFor(subjects, grades, n - 1, k, i) && a == Attempt(GradeAt(grades, i).value, m[k].year);
      assert LastFor(subjects, grades, n, k, i);
    }
  }

  /** After the first `n` overrides a subject with a record carries the grade
      of the last override taken for it, with its year kept; with no such
      override the record is unchanged. */
  lemma {:induction false} OverrideLastWins(m: Attempts, subjects: seq<string>, grades: seq<Option<string>>, n: nat, k: string)
    requires n <= |subjects| && k in m
    ensures OverriddenBy(m, subjects, grades, n, k, OverrideFold(m, subjects, grades, n)[k])
    decreases n
  {
    if n > 0 {
      var prev := OverrideFold(m, subjects, grades, n - 1);
      OverrideLastWins(m, subjects, grades, n - 1, k);
      assert OverrideFold(m, subjects, grades, n) == OverrideStep(prev, subjects[n - 1], GradeAt(grades, n - 1));
      OverrideStepLastWins(m, subjects, grades, n, k, prev[k], OverrideFold(m, subjects, grades, n)[k]);
    }
  }

  /** Applies the retake list. It is skipped unless both lists are present; an
      override past the end of the grade list, or with an empty grade, or for
      a subject with no record, does nothing. */
  function ApplyRetakes(m: Attempts, retakes: RetakeList): (o: Attempts)
    ensures o.Keys == m.Keys
    ensures forall k :: k in m ==> o[k].year == m[k].year
    ensures retakes.subjects.None? || retakes.grades.None? ==> o == m
  {
    if retakes.subjects.Some? && retakes.grades.Some?
    then OverrideFold(m, retakes.subjects.value, retakes.grades.value, |retakes.subjects.value|)
    else m
  }

  /** The grade each record ends with: the last override taken for it, or its
      own grade when there is none. */
  lemma RetakeLastWins(m: Attempts, subjects: seq<string>, grades: seq<Option<string>>, k: string)
    requires k in m
    ensures OverriddenBy(m, subjects, grades, |subjects|, k, ApplyRetakes(m, RetakeList(Some(subjects), Some(grades)))[k])
  {
    OverrideLastWins(m, subjects, grades, |subjects|, k);
  }
}
