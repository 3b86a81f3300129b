/** The letter-grade scale of the credit-results handler. The resolver and the
    sums take a scale as a parameter; `Table` is the one the handler uses. */
module GradeScale {
  import opened Optional

  /** Letter grade to grade points. */
  type Scale = map<string, real>

  /** The handler's fixed scale. Grade points are exact decimals, so `real`
      stands in for the JavaScript doubles. */
  const Table: Scale := map[
    "A+" := 4.0, "A" := 4.0, "A-" := 3.7,
    "B+" := 3.3, "B" := 3.0, "B-" := 2.7,
    "C+" := 2.3, "C" := 2.0, "C-" := 1.7,
    "D+" := 1.3, "D" := 1.0,
    "E" := 0.0, "E*" := 0.0, "E+" := 0.0, "E-" := 0.0, "F" := 0.0, "MC" := 0.0
  ]

  /** The letters that earn no points at all. */
  const FailingGrades: set<string> := {"E", "E*", "E+", "E-", "F", "MC"}

  /** Every grade of the scale is worth between 0 and 4 points. */
  ghost predicate InRange(scale: Scale) {
    forall g :: g in scale ==> 0.0 <= scale[g] <= 4.0
  }

  /** A grade cell counts only when it is an own key of the scale. */
  predicate IsGrade(scale: Scale, g: string) {
    g in scale
  }

  /** The points of a grade; `None` is the `undefined` that a lookup of an
      unknown key yields. */
  function Points(scale: Scale, g: string): (p: Option<real>)
    ensures p.Some? <==> IsGrade(scale, g)
    ensures p.Some? && InRange(scale) ==> 0.0 <= p.value <= 4.0
  {
    if g in scale then Some(scale[g]) else None
  }

  /** The handler's scale lies within [0, 4]. */
  lemma TableInRange()
    ensures InRange(Table)
  {
  }

  /** On the handler's scale exactly the failing letters are worth zero points,
      and exactly `A+` and `A` are worth the maximum. */
  lemma ZeroAndTopGrades(g: string)
    ensures Points(Table, g) == Some(0.0) <==> g in FailingGrades
    ensures Points(Table, g) == Some(4.0) <==> g == "A+" || g == "A"
  {
  }
}
