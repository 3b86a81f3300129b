/** The latest-attempt resolver: folds historical rows, then current-term rows,
    into one record per subject code. */
module Resolver {
  import opened Optional
  import opened GradeScale

  /** A year cell after `parseInt`; `None` is NaN, which compares false with
      everything. */
  type Year = Option<int>

  /** One parsed transcript row, historical or current-term: the subject code,
      the grade cell and the year cell. */
  datatype Row = Row(code: string, grade: string, year: Year)

  /** The record the resolver keeps for one subject. */
  datatype Attempt = Attempt(grade: string, year: Year)

  type Attempts = map<string, Attempt>

  function AttemptOf(r: Row): Attempt {
    Attempt(r.grade, r.year)
  }

  /** Only rows whose grade is a key of the grade table take part. */
  predicate ValidRow(scale: Scale, r: Row) {
    IsGrade(scale, r.grade)
  }

  /** The subject codes of the rows that take part. */
  ghost function ValidCodes(scale: Scale, rows: seq<Row>): set<string> {
    set i | 0 <= i < |rows| && ValidRow(scale, rows[i]) :: rows[i].code
  }

  /** The rows that take part, in input order. */
  function ValidOnly(scale: Scale, rows: seq<Row>): (v: seq<Row>)
    ensures forall i :: 0 <= i < |v| ==> ValidRow(scale, v[i])
    ensures |v| <= |rows|
    decreases |rows|
  {
    if |rows| == 0 then []
    else
      var n := |rows| - 1;
      ValidOnly(scale, rows[..n]) + (if ValidRow(scale, rows[n]) then [rows[n]] else [])
  }

  lemma ValidCodesLast(scale: Scale, rows: seq<Row>)
    requires |rows| > 0
    ensures var n := |rows| - 1;
      ValidCodes(scale, rows) == ValidCodes(scale, rows[..n]) + (if ValidRow(scale, rows[n]) then {rows[n].code} else {})
  {
    var n := |rows| - 1;
    var p := rows[..n];
    forall k | k in ValidCodes(scale, rows)
      ensures k in ValidCodes(scale, p) || (ValidRow(scale, rows[n]) && k == rows[n].code)
    {
      var i :| 0 <= i < |rows| && ValidRow(scale, rows[i]) && rows[i].code == k;
      if i < n {
        assert p[i] == rows[i];
      }
    }
  }

  // ---------------------------------------------------------------------------
  // Historical rows: the first valid row per subject wins.
  // ---------------------------------------------------------------------------

  /** One historical row: recorded only if valid and its subject has no
      record yet; a held record is never overwritten. */
  function HistStep(scale: Scale, m: Attempts, r: Row): (m': Attempts)
    ensures m'.Keys == m.Keys + (if ValidRow(scale, r) then {r.code} else {})
    ensures forall k :: k in m ==> m'[k] == m[k]
    ensures ValidRow(scale, r) && r.code !in m ==> m'[r.code] == AttemptOf(r)
  {
    if ValidRow(scale, r) && r.code !in m then m[r.code := AttemptOf(r)] else m
  }

  /** The state after folding the historical rows, in order, into `m`. */
  function HistFold(scale: Scale, m: Attempts, rows: seq<Row>): (h: Attempts)
    ensures h.Keys == m.Keys + ValidCodes(scale, rows)
    ensures forall k :: k in m ==> h[k] == m[k]
    decreases |rows|
  {
    if |rows| == 0 then m
    else
      var n := |rows| - 1;
      ValidCodesLast(scale, rows);
      HistStep(scale, HistFold(scale, m, rows[..n]), rows[n])
  }

  /** Row `i` is the first valid row of `rows` for subject `k`. */
  ghost predicate FirstValid(scale: Scale, rows: seq<Row>, k: string, i: int) {
    && 0 <= i < |rows|
    && rows[i].code == k
    && ValidRow(scale, rows[i])
    && forall j :: 0 <= j < i ==> !(rows[j].code == k && ValidRow(scale, rows[j]))
  }

  /** A subject the historical pass adds is recorded with the grade and year
      of its first valid row. */
  lemma {:induction false} HistFirstWins(scale: Scale, m: Attempts, rows: seq<Row>, k: string)
    requires k !in m && k in HistFold(scale, m, rows)
    ensures exists i :: FirstValid(scale, rows, k, i) && HistFold(scale, m, rows)[k] == AttemptOf(rows[i])
    decreases |rows|
  {
    if |rows| > 0 {
      var n := |rows| - 1;
      var p := rows[..n];
      var h := HistFold(scale, m, p);
      assert HistFold(scale, m, rows) == HistStep(scale, h, rows[n]);
      if k in h {
        HistFirstWins(scale, m, p, k);
        var i :| FirstValid(scale, p, k, i) && h[k] == AttemptOf(p[i]);
        forall j | 0 <= j <= i
          ensures rows[j] == p[j]
        {
        }
        assert FirstValid(scale, rows, k, i);
      } else {
        forall j | 0 <= j < n
          ensures !(rows[j].code == k && ValidRow(scale, rows[j]))
        {
          assert p[j] == rows[j];
        }
        assert FirstValid(scale, rows, k, n);
      }
    }
  }

  /** Folding in two batches is folding the concatenation. */
  lemma {:induction false} HistFoldAppend(scale: Scale, m: Attempts, a: seq<Row>, b: seq<Row>)
    ensures HistFold(scale, m, a + b) == HistFold(scale, HistFold(scale, m, a), b)
    decreases |b|
  {
    if |b| == 0 {
      assert a + b == a;
    } else {
      var n := |b| - 1;
      assert (a + b)[..|a + b| - 1] == a + b[..n];
      HistFoldAppend(scale, m, a, b[..n]);
    }
  }

  /** Once a subject has a record, later historical rows leave it alone. */
  lemma HistLaterRowsIgnored(scale: Scale, m: Attempts, a: seq<Row>, b: seq<Row>, k: string)
    requires k in HistFold(scale, m, a)
    ensures k in HistFold(scale, m, a + b)
    ensures HistFold(scale, m, a + b)[k] == HistFold(scale, m, a)[k]
  {
    HistFoldAppend(scale, m, a, b);
  }

  // ---------------------------------------------------------------------------
  // Current-term rows: a row replaces the record when it has more points, or
  // equal points and a strictly later year.
  // ---------------------------------------------------------------------------

  /** `a < b` on parsed years; false when either is NaN. */
  predicate YearBefore(a: Year, b: Year) {
    a.Some? && b.Some? && a.value < b.value
  }

  /** Whether `a` replaces the existing record `c`. A record whose grade is not
      in the table compares false both ways and is never replaced. */
  predicate Displaces(scale: Scale, a: Attempt, c: Attempt) {
    match (Points(scale, a.grade), Points(scale, c.grade))
    case (Some(p), Some(q)) => p > q || (p == q && YearBefore(c.year, a.year))
    case _ => false
  }

  /** One current-term row. A valid row for a new subject is recorded; one for
      a held subject replaces the record exactly when it has more points, or
      equal points and a strictly later year, where a NaN year is never
      earlier or later. */
  function CurStep(scale: Scale, m: Attempts, r: Row): (m': Attempts)
    ensures m'.Keys == m.Keys + (if ValidRow(scale, r) then {r.code} else {})
    ensures forall k :: k in m && k != r.code ==> m'[k] == m[k]
    ensures !ValidRow(scale, r) ==> m' == m
    ensures ValidRow(scale, r) && r.code !in m ==> m'[r.code] == AttemptOf(r)
    ensures r.code in m && !IsGrade(scale, m[r.code].grade) ==> m' == m
    ensures ValidRow(scale, r) && r.code in m && IsGrade(scale, m[r.code].grade) ==>
      var p, q := Points(scale, r.grade).value, Points(scale, m[r.code].grade).value;
      && (p > q ==> m' == m[r.code := AttemptOf(r)])
      && (p == q && YearBefore(m[r.code].year, r.year) ==> m' == m[r.code := AttemptOf(r)])
      && (p == q && !YearBefore(m[r.code].year, r.year) ==> m' == m)
    ensures r.code in m && IsGrade(scale, m[r.code].grade) ==>
      IsGrade(scale, m'[r.code].grade) && Points(scale, m'[r.code].grade).value >= Points(scale, m[r.code].grade).value
    ensures r.code in m && IsGrade(scale, r.grade) && IsGrade(scale, m[r.code].grade) ==>
      (Points(scale, r.grade).value < Points(scale, m[r.code].grade).value ==> m' == m)
  {
    if ValidRow(scale, r) && (r.code !in m || Displaces(scale, AttemptOf(r), m[r.code]))
    then m[r.code := AttemptOf(r)]
    else m
  }

  /** The state after folding the current-term rows, in order, into `m`. A
      record's points never go down. */
  function CurFold(scale: Scale, m: Attempts, rows: seq<Row>): (c: Attempts)
    ensures c.Keys == m.Keys + ValidCodes(scale, rows)
    ensures forall k :: k in m && IsGrade(scale, m[k].grade) ==>
      IsGrade(scale, c[k].grade) && Points(scale, c[k].grade).value >= Points(scale, m[k].grade).value
    decreases |rows|
  {
    if |rows| == 0 then m
    else
      var n := |rows| - 1;
      ValidCodesLast(scale, rows);
      CurStep(scale, CurFold(scale, m, rows[..n]), rows[n])
  }

  /** No valid row of `rows` would replace the record `m` holds for it. */
  ghost predicate Settled(scale: Scale, m: Attempts, rows: seq<Row>) {
    forall i :: 0 <= i < |rows| && ValidRow(scale, rows[i]) ==>
      rows[i].code in m && !Displaces(scale, AttemptOf(rows[i]), m[rows[i].code])
  }

  /** Every record of `m0` is still present in `m` and could not replace it. */
  ghost predicate Dominates(scale: Scale, m: Attempts, m0: Attempts) {
    forall k :: k in m0 ==> k in m && !Displaces(scale, m0[k], m[k])
  }

  /** What cannot replace a record cannot replace its replacement either. */
  lemma NoDisplaceAfterReplace(scale: Scale, x: Attempt, c: Attempt, c': Attempt)
    requires !Displaces(scale, x, c) && Displaces(scale, c', c)
    ensures !Displaces(scale, x, c')
  {
  }

  /** One more current-term row keeps the earlier rows and the starting
      records settled, and settles the new row too. */
  lemma SettledStep(scale: Scale, m: Attempts, c: Attempts, p: seq<Row>, r: Row)
    requires Settled(scale, c, p) && Dominates(scale, c, m)
    ensures Settled(scale, CurStep(scale, c, r), p + [r])
    ensures Dominates(scale, CurStep(scale, c, r), m)
  {
    var c' := CurStep(scale, c, r);
    var rows := p + [r];
    forall i | 0 <= i < |rows| && ValidRow(scale, rows[i])
      ensures rows[i].code in c' && !Displaces(scale, AttemptOf(rows[i]), c'[rows[i].code])
    {
      if i < |p| {
        assert rows[i] == p[i];
        if rows[i].code == r.code && c'[r.code] != c[r.code] {
          NoDisplaceAfterReplace(scale, AttemptOf(rows[i]), c[r.code], AttemptOf(r));
        }
      }
    }
    forall k | k in m
      ensures k in c' && !Displaces(scale, m[k], c'[k])
    {
      if k == r.code && c'[k] != c[k] {
        NoDisplaceAfterReplace(scale, m[k], c[k], AttemptOf(r));
      }
    }
  }

  /** After the current-term pass no folded row, and no record it started
      from, would replace the record it ended with. */
  lemma {:induction false} CurFoldSettles(scale: Scale, m: Attempts, rows: seq<Row>)
    ensures Settled(scale, CurFold(scale, m, rows), rows)
    ensures Dominates(scale, CurFold(scale, m, rows), m)
    decreases |rows|
  {
    if |rows| > 0 {
      var n := |rows| - 1;
      CurFoldSettles(scale, m, rows[..n]);
      SettledStep(scale, m, CurFold(scale, m, rows[..n]), rows[..n], rows[n]);
      assert rows[..n] + [rows[n]] == rows;
    }
  }

  /** Folding rows that are already settled changes nothing. */
  lemma {:induction false} SettledFoldUnchanged(scale: Scale, m: Attempts, rows: seq<Row>)
    requires Settled(scale, m, rows)
    ensures CurFold(scale, m, rows) == m
    decreases |rows|
  {
    if |rows| > 0 {
      var n := |rows| - 1;
      var p := rows[..n];
      forall i | 0 <= i < |p| && ValidRow(scale, p[i])
        ensures p[i].code in m && !Displaces(scale, AttemptOf(p[i]), m[p[i].code])
      {
        assert p[i] == rows[i];
      }
      SettledFoldUnchanged(scale, m, p);
    }
  }

  /** The current-term pass is idempotent: folding the same rows again after
      it changes nothing. */
  lemma CurFoldIdempotent(scale: Scale, m: Attempts, rows: seq<Row>)
    ensures CurFold(scale, CurFold(scale, m, rows), rows) == CurFold(scale, m, rows)
  {
    CurFoldSettles(scale, m, rows);
    SettledFoldUnchanged(scale, CurFold(scale, m, rows), rows);
  }

  /** Re-folding rows that repeat records already held (the resolver's own
      output read back as a current-term batch) changes nothing. */
  lemma CurFoldOwnRecordsUnchanged(scale: Scale, m: Attempts, rows: seq<Row>)
    requires forall i :: 0 <= i < |rows| ==> rows[i].code in m && m[rows[i].code] == AttemptOf(rows[i])
    ensures CurFold(scale, m, rows) == m
  {
    SettledFoldUnchanged(scale, m, rows);
  }

  /** The record comes from the inputs: the starting record or a valid row for
      the same subject. */
  ghost predicate FromInputs(scale: Scale, m: Attempts, rows: seq<Row>, k: string, a: Attempt) {
    || (k in m && a == m[k])
    || exists i :: 0 <= i < |rows| && rows[i].code == k && ValidRow(scale, rows[i]) && a == AttemptOf(rows[i])
  }

  /** One more current-term row keeps every record's origin among the
      starting records and the rows folded so far. */
  lemma OriginStep(scale: Scale, m: Attempts, c: Attempts, rows: seq<Row>, k: string)
    requires |rows| > 0
    requires k in CurStep(scale, c, rows[|rows| - 1])
    requires k in c ==> FromInputs(scale, m, rows[..|rows| - 1], k, c[k])
    ensures FromInputs(scale, m, rows, k, CurStep(scale, c, rows[|rows| - 1])[k])
  {
    var n := |rows| - 1;
    var p := rows[..n];
    if k == rows[n].code && CurStep(scale, c, rows[n])[k] == AttemptOf(rows[n]) && ValidRow(scale, rows[n]) {
    } else if !(k in m && c[k] == m[k]) {
      var i :| 0 <= i < |p| && p[i].code == k && ValidRow(scale, p[i]) && c[k] == AttemptOf(p[i]);
      assert rows[i] == p[i];
    }
  }

  lemma {:induction false} CurFoldOrigin(scale: Scale, m: Attempts, rows: seq<Row>, k: string)
    requires k in CurFold(scale, m, rows)
    ensures FromInputs(scale, m, rows, k, CurFold(scale, m, rows)[k])
    decreases |rows|
  {
    if |rows| > 0 {
      var n := |rows| - 1;
      var c := CurFold(scale, m, rows[..n]);
      if k in c {
        CurFoldOrigin(scale, m, rows[..n], k);
      }
      OriginStep(scale, m, c, rows, k);
    }
  }

  /** A record with a valid grade and an integer year. */
  ghost predicate Ranked(scale: Scale, a: Attempt) {
    IsGrade(scale, a.grade) && a.year.Some?
  }

  /** Lexicographic order on (points, year). */
  ghost predicate RankLe(scale: Scale, a: Attempt, b: Attempt) {
    match (Points(scale, a.grade), a.year, Points(scale, b.grade), b.year)
    case (Some(p), Some(y), Some(q), Some(z)) => p < q || (p == q && y <= z)
    case _ => false
  }

  /** With integer years, a row displaces a record exactly when it is strictly
      above it in the (points, year) order. */
  lemma DisplacesIsStrictRank(scale: Scale, a: Attempt, c: Attempt)
    requires Ranked(scale, a) && Ranked(scale, c)
    ensures Displaces(scale, a, c) <==> RankLe(scale, c, a) && !RankLe(scale, a, c)
  {
  }

  /** When either year is NaN, equal points never displace: only strictly
      more points do. */
  lemma DisplacesWithNaNYear(scale: Scale, a: Attempt, c: Attempt)
    requires IsGrade(scale, a.grade) && IsGrade(scale, c.grade)
    requires a.year.None? || c.year.None?
    ensures Displaces(scale, a, c) <==> Points(scale, a.grade).value > Points(scale, c.grade).value
  {
  }

  /** When subject `k`'s own years are integers, the current-term pass leaves
      `k` with the lexicographic maximum, by (points, year), of its starting
      record and its valid current-term rows. Other subjects' years do not
      matter. */
  lemma CurFoldIsLexMax(scale: Scale, m: Attempts, rows: seq<Row>, k: string)
    requires k in m ==> Ranked(scale, m[k])
    requires forall i :: 0 <= i < |rows| && rows[i].code == k ==> rows[i].year.Some?
    requires k in CurFold(scale, m, rows)
    ensures FromInputs(scale, m, rows, k, CurFold(scale, m, rows)[k])
    ensures k in m ==> RankLe(scale, m[k], CurFold(scale, m, rows)[k])
    ensures forall i :: 0 <= i < |rows| && rows[i].code == k && ValidRow(scale, rows[i]) ==>
      RankLe(scale, AttemptOf(rows[i]), CurFold(scale, m, rows)[k])
  {
    CurFoldOrigin(scale, m, rows, k);
    CurFoldSettles(scale, m, rows);
  }

  lemma HistFoldSnoc(scale: Scale, m: Attempts, rows: seq<Row>, r: Row)
    ensures HistFold(scale, m, rows + [r]) == HistStep(scale, HistFold(scale, m, rows), r)
  {
    assert (rows + [r])[..|rows|] == rows;
  }

  lemma CurFoldSnoc(scale: Scale, m: Attempts, rows: seq<Row>, r: Row)
    ensures CurFold(scale, m, rows + [r]) == CurStep(scale, CurFold(scale, m, rows), r)
  {
    assert (rows + [r])[..|rows|] == rows;
  }

  lemma ValidOnlyLast(scale: Scale, rows: seq<Row>)
    requires |rows| > 0
    ensures var n := |rows| - 1;
      ValidOnly(scale, rows) == ValidOnly(scale, rows[..n]) + (if ValidRow(scale, rows[n]) then [rows[n]] else [])
  {
  }

  /** The inductive step of `HistIgnoresInvalidRows`: one more row, valid or
      not, keeps the two folds equal. */
  lemma HistIgnoresLast(scale: Scale, m: Attempts, rows: seq<Row>)
    requires |rows| > 0
    requires HistFold(scale, m, rows[..|rows| - 1]) == HistFold(scale, m, ValidOnly(scale, rows[..|rows| - 1]))
    ensures HistFold(scale, m, rows) == HistFold(scale, m, ValidOnly(scale, rows))
  {
    var n := |rows| - 1;
    var v := ValidOnly(scale, rows[..n]);
    ValidOnlyLast(scale, rows);
    assert HistFold(scale, m, rows) == HistStep(scale, HistFold(scale, m, v), rows[n]);
    if ValidRow(scale, rows[n]) {
      HistFoldSnoc(scale, m, v, rows[n]);
    } else {
      assert ValidOnly(scale, rows) == v;
    }
  }

  /** Rows whose grade is not in the scale neither create nor change records
      in the historical pass. */
  lemma {:induction false} HistIgnoresInvalidRows(scale: Scale, m: Attempts, rows: seq<Row>)
    ensures HistFold(scale, m, rows) == HistFold(scale, m, ValidOnly(scale, rows))
    decreases |rows|
  {
    if |rows| > 0 {
      HistIgnoresInvalidRows(scale, m, rows[..|rows| - 1]);
      HistIgnoresLast(scale, m, rows);
    }
  }

  /** The inductive step of `CurIgnoresInvalidRows`. */
  lemma CurIgnoresLast(scale: Scale, m: Attempts, rows: seq<Row>)
    requires |rows| > 0
    requires CurFold(scale, m, rows[..|rows| - 1]) == CurFold(scale, m, ValidOnly(scale, rows[..|rows| - 1]))
    ensures CurFold(scale, m, rows) == CurFold(scale, m, ValidOnly(scale, rows))
  {
    var n := |rows| - 1;
    var v := ValidOnly(scale, rows[..n]);
    ValidOnlyLast(scale, rows);
    assert CurFold(scale, m, rows) == CurStep(scale, CurFold(scale, m, v), rows[n]);
    if ValidRow(scale, rows[n]) {
      CurFoldSnoc(scale, m, v, rows[n]);
    } else {
      assert ValidOnly(scale, rows) == v;
    }
  }

  /** Rows whose grade is not in the scale neither create nor change records
      in the current-term pass. */
  lemma {:induction false} CurIgnoresInvalidRows(scale: Scale, m: Attempts, rows: seq<Row>)
    ensures CurFold(scale, m, rows) == CurFold(scale, m, ValidOnly(scale, rows))
    decreases |rows|
  {
    if |rows| > 0 {
      CurIgnoresInvalidRows(scale, m, rows[..|rows| - 1]);
      CurIgnoresLast(scale, m, rows);
    }
  }
}
