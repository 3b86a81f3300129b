/** Worked cases of the credit-results computation on the handler's own grade
    scale and classification. */
module Scenarios {
  import opened Optional
  import opened GradeScale
  import opened Classifier
  import opened Resolver
  import opened Overrides
  import opened Aggregator

  /** Of two historical rows for one subject, the first is kept. */
  lemma HistoricalFirstRowKept()
    ensures HistFold(Table, map[], [Row("S", "C", Some(2019)), Row("S", "B", Some(2020))])
      == map["S" := Attempt("C", Some(2019))]
  {
  }

  /** A current-term row with more points replaces the record. */
  lemma HigherGradeReplaces()
    ensures CurFold(Table, map["S" := Attempt("C", Some(2019))], [Row("S", "B", Some(2021))])
      == map["S" := Attempt("B", Some(2021))]
  {
  }

  /** A current-term row with equal points and a later year replaces it. */
  lemma SameGradeLaterYearReplaces()
    ensures CurFold(Table, map["S" := Attempt("B", Some(2019))], [Row("S", "B", Some(2021))])
      == map["S" := Attempt("B", Some(2021))]
  {
  }

  /** A current-term row with fewer points does not, whatever its year. */
  lemma LowerGradeKept()
    ensures CurFold(Table, map["S" := Attempt("B", Some(2020))], [Row("S", "C", Some(2021))])
      == map["S" := Attempt("B", Some(2020))]
  {
  }

  /** A record whose year did not parse is not replaced by an equal-points row
      with a later year, because NaN compares false. */
  lemma UnparsedYearBlocksTie()
    ensures CurFold(Table, map["S" := Attempt("B", None)], [Row("S", "B", Some(2021))])
      == map["S" := Attempt("B", None)]
  {
  }

  /** A retake replaces the grade of a known subject and keeps its year; one
      for an unknown subject does nothing. */
  lemma RetakeReplacesGrade()
    ensures ApplyRetakes(map["S" := Attempt("C", Some(2019))], RetakeList(Some(["S", "T"]), Some([Some("A"), Some("B")])))
      == map["S" := Attempt("A", Some(2019))]
  {
    var m := map["S" := Attempt("C", Some(2019))];
    var subjects := ["S", "T"];
    var grades := [Some("A"), Some("B")];
    assert OverrideFold(m, subjects, grades, 1) == map["S" := Attempt("A", Some(2019))];
  }

  /** `MAT1142` is on the non-credit list and adds nothing. */
  lemma NonCreditSubjectAddsNothing()
    ensures Contribution(Table, Classify, ("MAT1142", Attempt("A", Some(2020)))) == EmptyReport
  {
  }

  /** PHY2102 at `A`: 2 credits and 8 points, to the totals and to physics. */
  lemma Phy2102AtA()
    ensures Contribution(Table, Classify, ("PHY2102", Attempt("A", Some(2022))))
      == EmptyReport.(total := Sums(Some(2.0), Some(8.0)), phy := Sums(Some(2.0), Some(8.0)))
  {
    assert "PHY2102"[..3] == "PHY";
    assert Classify("PHY2102") == Class(false, Some(2.0), Phy);
    assert Points(Table, "A") == Some(4.0);
  }

  /** CHE1101 at `B`: 1 credit and 3 points, to the totals and to chemistry. */
  lemma Che1101AtB()
    ensures Contribution(Table, Classify, ("CHE1101", Attempt("B", Some(2022))))
      == EmptyReport.(total := Sums(Some(1.0), Some(3.0)), chem := Sums(Some(1.0), Some(3.0)))
  {
    assert "CHE1101"[..3] == "CHE";
    assert Classify("CHE1101") == Class(false, Some(1.0), Chem);
    assert Points(Table, "B") == Some(3.0);
  }

  /** PHY2102 at `A` and CHE1101 at `B`: the credits come from the last
      digits, 2 and 1. */
  lemma TwoSubjectSums()
    ensures var r := Total(Table, Classify, [("PHY2102", Attempt("A", Some(2022))), ("CHE1101", Attempt("B", Some(2022)))]);
      && r.total == Sums(Some(3.0), Some(11.0))
      && r.phy == Sums(Some(2.0), Some(8.0))
      && r.chem == Sums(Some(1.0), Some(3.0))
      && r.math == NoSums
  {
    var phy := ("PHY2102", Attempt("A", Some(2022)));
    var che := ("CHE1101", Attempt("B", Some(2022)));
    Phy2102AtA();
    Che1101AtB();
    TotalSnoc(Table, Classify, [], phy);
    TotalSnoc(Table, Classify, [phy], che);
    assert [] + [phy] == [phy] && [phy] + [che] == [phy, che];
  }

  /** A code ending in a letter with no credit case turns the totals and its
      group's sums into NaN, and leaves the other groups alone. */
  lemma UnknownCreditPoisons()
    ensures var r := Total(Table, Classify, [("PHY210X", Attempt("A", Some(2022)))]);
      && r.total == Sums(None, None)
      && r.phy == Sums(None, None)
      && r.chem == NoSums
  {
    assert "PHY210X"[..3] == "PHY";
    assert Classify("PHY210X") == Class(false, None, Phy);
  }

  /** A retake grade outside the scale keeps the credits and turns the points
      into NaN. */
  lemma UnknownRetakeGradePoisonsPoints()
    ensures var r := Total(Table, Classify, [("CHE1101", Attempt("X", Some(2022)))]);
      && r.total == Sums(Some(1.0), None)
      && r.chem == Sums(Some(1.0), None)
  {
    assert "CHE1101"[..3] == "CHE";
    assert Classify("CHE1101") == Class(false, Some(1.0), Chem);
  }
}
