/** The credit and grade-point sums over the resolved records: one total and
    one sum per subject group, each a pair of credits and grade points. */
module Aggregator {
  import opened Optional
  import opened GradeScale
  import opened Classifier
  import opened Resolver

  /** A JavaScript number that may have turned into NaN (`None`). */
  type Num = Option<real>

  /** `+` on numbers: NaN in, NaN out. */
  function Add(a: Num, b: Num): Num {
    if a.Some? && b.Some? then Some(a.value + b.value) else None
  }

  /** `*` on numbers, where `undefined` operands also give NaN. */
  function Mul(a: Num, b: Num): Num {
    if a.Some? && b.Some? then Some(a.value * b.value) else None
  }

  /** NaN spreads through `+` and `*`: the result is a number exactly when
      both operands are, and then it is their sum or product. */
  lemma NaNPropagates(a: Num, b: Num)
    ensures Add(a, b).Some? <==> a.Some? && b.Some?
    ensures Mul(a, b).Some? <==> a.Some? && b.Some?
    ensures Add(a, b).Some? ==> Add(a, b).value == a.value + b.value
    ensures Mul(a, b).Some? ==> Mul(a, b).value == a.value * b.value
  {
  }

  /** The credits and grade points of one scope. */
  datatype Sums = Sums(credits: Num, points: Num)

  const NoSums := Sums(Some(0.0), Some(0.0))

  function AddSums(s: Sums, t: Sums): Sums {
    Sums(Add(s.credits, t.credits), Add(s.points, t.points))
  }

  /** The handler's result record: the totals and the six group sums. */
  datatype Report = Report(total: Sums, math: Sums, chem: Sums, phy: Sums, zoo: Sums, bot: Sums, cs: Sums)

  const EmptyReport := Report(NoSums, NoSums, NoSums, NoSums, NoSums, NoSums, NoSums)

  function GroupSums(r: Report, g: Group): Sums
    requires g != Ungrouped
  {
    match g
    case Math => r.math
    case Chem => r.chem
    case Phy => r.phy
    case Zoo => r.zoo
    case Bot => r.bot
    case Cs => r.cs
  }

  function Plus(a: Report, b: Report): Report {
    Report(AddSums(a.total, b.total), AddSums(a.math, b.math), AddSums(a.chem, b.chem),
           AddSums(a.phy, b.phy), AddSums(a.zoo, b.zoo), AddSums(a.bot, b.bot), AddSums(a.cs, b.cs))
  }

  /** One entry of the resolved map: a subject code and its record. */
  type Entry = (string, Attempt)

  /** What one entry adds: nothing for a non-credit subject; otherwise its
      credit and `points * credit` to the totals and to its group, if any. */
  function Contribution(scale: Scale, classify: string -> Class, e: Entry): Report {
    var cls := classify(e.0);
    if cls.nonCredit then EmptyReport
    else
      var credit := cls.credit;
      var s := Sums(credit, Mul(Points(scale, e.1.grade), credit));
      var g := cls.group;
      Report(s,
             if g == Math then s else NoSums,
             if g == Chem then s else NoSums,
             if g == Phy then s else NoSums,
             if g == Zoo then s else NoSums,
             if g == Bot then s else NoSums,
             if g == Cs then s else NoSums)
  }

  /** Where one entry's sums go: nowhere for a non-credit subject; otherwise
      its credit and `points * credit` go to the totals and to its own group,
      and every other group gets nothing. */
  lemma ContributionRouting(scale: Scale, classify: string -> Class, e: Entry)
    ensures classify(e.0).nonCredit ==> Contribution(scale, classify, e) == EmptyReport
    ensures !classify(e.0).nonCredit ==>
      Contribution(scale, classify, e).total == Sums(classify(e.0).credit, Mul(Points(scale, e.1.grade), classify(e.0).credit))
    ensures forall g :: g != Ungrouped ==>
      GroupSums(Contribution(scale, classify, e), g) ==
        (if g == classify(e.0).group then Contribution(scale, classify, e).total else NoSums)
  {
  }

  /** The entry leaves its credit defined: skipped, or a credit character. */
  predicate Credited(classify: string -> Class, e: Entry) {
    classify(e.0).nonCredit || classify(e.0).credit.Some?
  }

  /** The entry leaves its points defined: skipped, or a credit character
      and a grade of the scale. */
  predicate Scored(scale: Scale, classify: string -> Class, e: Entry) {
    classify(e.0).nonCredit || (classify(e.0).credit.Some? && IsGrade(scale, e.1.grade))
  }

  /** Credits are non-negative, points lie between 0 and 4 per credit, and
      defined points imply defined credits. */
  ghost predicate SumsOk(s: Sums) {
    && (s.credits.Some? ==> 0.0 <= s.credits.value)
    && (s.points.Some? ==> s.credits.Some? && 0.0 <= s.points.value <= 4.0 * s.credits.value)
  }

  /** A group's sums are defined wherever the totals are, and bounded by them. */
  ghost predicate Within(s: Sums, t: Sums) {
    && (t.credits.Some? ==> s.credits.Some? && s.credits.value <= t.credits.value)
    && (t.points.Some? ==> s.points.Some? && s.points.value <= t.points.value)
  }

  ghost predicate GroupOk(s: Sums, t: Sums) {
    SumsOk(s) && Within(s, t)
  }

  /** The invariants of a result record in every scope. */
  ghost predicate WellFormed(r: Report) {
    && SumsOk(r.total)
    && GroupOk(r.math, r.total) && GroupOk(r.chem, r.total) && GroupOk(r.phy, r.total)
    && GroupOk(r.zoo, r.total) && GroupOk(r.bot, r.total) && GroupOk(r.cs, r.total)
  }

  lemma ProductBound(p: real, c: real)
    requires 0.0 <= p <= 4.0 && 0.0 <= c
    ensures 0.0 <= p * c <= 4.0 * c
  {
    assert (4.0 - p) * c >= 0.0;
  }

  /** The shape of one entry's contribution: sound sums in the totals, and
      each group either gets exactly those sums or nothing. */
  ghost predicate Shaped(c: Report) {
    && SumsOk(c.total)
    && (c.math == c.total || c.math == NoSums) && (c.chem == c.total || c.chem == NoSums)
    && (c.phy == c.total || c.phy == NoSums) && (c.zoo == c.total || c.zoo == NoSums)
    && (c.bot == c.total || c.bot == NoSums) && (c.cs == c.total || c.cs == NoSums)
  }

  lemma ContributionOk(scale: Scale, classify: string -> Class, e: Entry)
    requires InRange(scale) && NonNegativeCredits(classify)
    ensures Shaped(Contribution(scale, classify, e))
    ensures Contribution(scale, classify, e).total.credits.Some? <==> Credited(classify, e)
    ensures Contribution(scale, classify, e).total.points.Some? <==> Scored(scale, classify, e)
  {
    if !classify(e.0).nonCredit {
      var credit := classify(e.0).credit;
      var p := Points(scale, e.1.grade);
      if credit.Some? && p.Some? {
        ProductBound(p.value, credit.value);
      }
    }
  }

  lemma AddGroupOk(s: Sums, t: Sums, cs: Sums, ct: Sums)
    requires GroupOk(s, t) && SumsOk(t) && SumsOk(ct)
    requires cs == ct || cs == NoSums
    ensures GroupOk(AddSums(s, cs), AddSums(t, ct))
  {
  }

  lemma PlusWellFormed(a: Report, c: Report)
    requires WellFormed(a) && Shaped(c)
    ensures WellFormed(Plus(a, c))
  {
    AddGroupOk(a.math, a.total, c.math, c.total);
    AddGroupOk(a.chem, a.total, c.chem, c.total);
    AddGroupOk(a.phy, a.total, c.phy, c.total);
    AddGroupOk(a.zoo, a.total, c.zoo, c.total);
    AddGroupOk(a.bot, a.total, c.bot, c.total);
    AddGroupOk(a.cs, a.total, c.cs, c.total);
  }

  /** The sums over a sequence of entries, added in order as the handler's
      loop does. */
  function Total(scale: Scale, classify: string -> Class, es: seq<Entry>): Report
    decreases |es|
  {
    if |es| == 0 then EmptyReport
    else
      var n := |es| - 1;
      Plus(Total(scale, classify, es[..n]), Contribution(scale, classify, es[n]))
  }

  /** Adding one more entry at the end adds its contribution. */
  lemma TotalSnoc(scale: Scale, classify: string -> Class, es: seq<Entry>, e: Entry)
    ensures Total(scale, classify, es + [e]) == Plus(Total(scale, classify, es), Contribution(scale, classify, e))
  {
    assert (es + [e])[..|es|] == es;
  }

  /** In every scope the sums are sound and the group sums are bounded by the
      totals; the total credits are defined exactly when every entry's credit
      is, and the total points exactly when every entry's credit and grade
      are. */
  lemma {:induction false} TotalInvariants(scale: Scale, classify: string -> Class, es: seq<Entry>)
    requires InRange(scale) && NonNegativeCredits(classify)
    ensures WellFormed(Total(scale, classify, es))
    ensures Total(scale, classify, es).total.credits.Some? <==> forall i :: 0 <= i < |es| ==> Credited(classify, es[i])
    ensures Total(scale, classify, es).total.points.Some? <==> forall i :: 0 <= i < |es| ==> Scored(scale, classify, es[i])
    decreases |es|
  {
    if |es| > 0 {
      var p := es[..|es| - 1];
      TotalInvariants(scale, classify, p);
      assert forall i :: 0 <= i < |p| ==> p[i] == es[i];
      TotalInvariantsStep(scale, classify, es);
    }
  }

  /** The inductive step of `TotalInvariants`: adding the last entry keeps the
      sums well-formed and defined exactly when all entries so far allow. */
  lemma TotalInvariantsStep(scale: Scale, classify: string -> Class, es: seq<Entry>)
    requires InRange(scale) && NonNegativeCredits(classify)
    requires |es| > 0
    requires var t := Total(scale, classify, es[..|es| - 1]);
      && WellFormed(t)
      && (t.total.credits.Some? <==> forall i :: 0 <= i < |es| - 1 ==> Credited(classify, es[i]))
      && (t.total.points.Some? <==> forall i :: 0 <= i < |es| - 1 ==> Scored(scale, classify, es[i]))
    ensures WellFormed(Total(scale, classify, es))
    ensures Total(scale, classify, es).total.credits.Some? <==> forall i :: 0 <= i < |es| ==> Credited(classify, es[i])
    ensures Total(scale, classify, es).total.points.Some? <==> forall i :: 0 <= i < |es| ==> Scored(scale, classify, es[i])
  {
    var n := |es| - 1;
    var t := Total(scale, classify, es[..n]);
    var c := Contribution(scale, classify, es[n]);
    assert Total(scale, classify, es) == Plus(t, c);
    ContributionOk(scale, classify, es[n]);
    PlusWellFormed(t, c);
  }

  // ---------------------------------------------------------------------------
  // What the sums are made of.
  // ---------------------------------------------------------------------------

  /** The entries that are not on the non-credit list, in order. */
  function CreditBearing(classify: string -> Class, es: seq<Entry>): (f: seq<Entry>)
    ensures forall i :: 0 <= i < |f| ==> !classify(f[i].0).nonCredit
    decreases |es|
  {
    if |es| == 0 then []
    else
      var n := |es| - 1;
      CreditBearing(classify, es[..n]) + (if classify(es[n].0).nonCredit then [] else [es[n]])
  }

  /** The credit-bearing entries of group `g`, in order. */
  function Members(classify: string -> Class, es: seq<Entry>, g: Group): (f: seq<Entry>)
    ensures forall i :: 0 <= i < |f| ==> !classify(f[i].0).nonCredit && classify(f[i].0).group == g
    decreases |es|
  {
    if |es| == 0 then []
    else
      var n := |es| - 1;
      Members(classify, es[..n], g) + (if !classify(es[n].0).nonCredit && classify(es[n].0).group == g then [es[n]] else [])
  }

  lemma PlusEmpty(r: Report)
    ensures Plus(r, EmptyReport) == r
  {
  }

  /** Subjects on the non-credit list add to no sum. */
  lemma {:induction false} NonCreditIgnored(scale: Scale, classify: string -> Class, es: seq<Entry>)
    ensures Total(scale, classify, es) == Total(scale, classify, CreditBearing(classify, es))
    decreases |es|
  {
    if |es| > 0 {
      var n := |es| - 1;
      var f := CreditBearing(classify, es[..n]);
      NonCreditIgnored(scale, classify, es[..n]);
      if classify(es[n].0).nonCredit {
        assert CreditBearing(classify, es) == f;
        PlusEmpty(Total(scale, classify, es[..n]));
      } else {
        assert CreditBearing(classify, es) == f + [es[n]];
        assert (f + [es[n]])[..|f|] == f;
      }
    }
  }

  lemma GroupSumsPlus(a: Report, c: Report, g: Group)
    requires g != Ungrouped
    ensures GroupSums(Plus(a, c), g) == AddSums(GroupSums(a, g), GroupSums(c, g))
  {
  }

  lemma AddNoSums(x: Sums)
    ensures AddSums(x, NoSums) == x
  {
  }

  lemma MembersLast(classify: string -> Class, es: seq<Entry>, g: Group)
    requires |es| > 0
    ensures var n := |es| - 1;
      Members(classify, es, g) == Members(classify, es[..n], g)
        + (if !classify(es[n].0).nonCredit && classify(es[n].0).group == g then [es[n]] else [])
  {
  }

  /** The inductive step of `GroupIsTotalOfMembers`. */
  lemma GroupMembersStep(scale: Scale, classify: string -> Class, es: seq<Entry>, g: Group)
    requires g != Ungrouped && |es| > 0
    requires GroupSums(Total(scale, classify, es[..|es| - 1]), g)
      == Total(scale, classify, Members(classify, es[..|es| - 1], g)).total
    ensures GroupSums(Total(scale, classify, es), g) == Total(scale, classify, Members(classify, es, g)).total
  {
    var n := |es| - 1;
    var f := Members(classify, es[..n], g);
    var t := Total(scale, classify, es[..n]);
    var c := Contribution(scale, classify, es[n]);
    TotalSnoc(scale, classify, es[..n], es[n]);
    assert es[..n] + [es[n]] == es;
    GroupSumsPlus(t, c, g);
    ContributionRouting(scale, classify, es[n]);
    MembersLast(classify, es, g);
    if !classify(es[n].0).nonCredit && classify(es[n].0).group == g {
      TotalSnoc(scale, classify, f, es[n]);
    } else {
      assert Members(classify, es, g) == f + [] == f;
      assert GroupSums(c, g) == NoSums;
      AddNoSums(GroupSums(t, g));
    }
  }

  /** Each group's sums are exactly the totals over that group's credit-bearing
      subjects, so every subject adds to at most one group. */
  lemma {:induction false} GroupIsTotalOfMembers(scale: Scale, classify: string -> Class, es: seq<Entry>, g: Group)
    requires g != Ungrouped
    ensures GroupSums(Total(scale, classify, es), g) == Total(scale, classify, Members(classify, es, g)).total
    decreases |es|
  {
    if |es| > 0 {
      GroupIsTotalOfMembers(scale, classify, es[..|es| - 1], g);
      GroupMembersStep(scale, classify, es, g);
    }
  }

  /** Adding contributions in another order gives the same report. */
  lemma PlusSwap(a: Report, b: Report, c: Report)
    ensures Plus(Plus(a, b), c) == Plus(Plus(a, c), b)
  {
  }

  lemma {:induction false} TotalMoveToEnd(scale: Scale, classify: string -> Class, a: seq<Entry>, x: Entry, b: seq<Entry>)
    ensures Total(scale, classify, a + [x] + b) == Plus(Total(scale, classify, a + b), Contribution(scale, classify, x))
    decreases |b|
  {
    if |b| == 0 {
      assert a + [x] + b == a + [x];
      assert (a + [x])[..|a|] == a;
      assert a + b == a;
    } else {
      var n := |b| - 1;
      var s := a + [x] + b;
      assert s[..|s| - 1] == a + [x] + b[..n];
      assert (a + b)[..|a + b| - 1] == a + b[..n];
      TotalMoveToEnd(scale, classify, a, x, b[..n]);
      PlusSwap(Total(scale, classify, a + b[..n]), Contribution(scale, classify, x), Contribution(scale, classify, b[n]));
    }
  }

  /** The sums do not depend on the order of the entries. */
  lemma {:induction false} TotalPermutation(scale: Scale, classify: string -> Class, a: seq<Entry>, b: seq<Entry>)
    requires multiset(a) == multiset(b)
    ensures Total(scale, classify, a) == Total(scale, classify, b)
    decreases |b|
  {
    if |b| == 0 {
      assert |a| == |multiset(a)| == 0;
    } else {
      var n := |b| - 1;
      var x := b[n];
      assert b == b[..n] + [x];
      assert x in multiset(a);
      var i :| 0 <= i < |a| && a[i] == x;
      assert a == a[..i] + [x] + a[i + 1..];
      var rest := a[..i] + a[i + 1..];
      assert multiset(a) == multiset(a[..i]) + multiset{x} + multiset(a[i + 1..]);
      assert multiset(rest) == multiset(a) - multiset{x};
      assert multiset(b[..n]) == multiset(b) - multiset{x};
      assert multiset(rest) == multiset(b[..n]);
      TotalPermutation(scale, classify, rest, b[..n]);
      TotalMoveToEnd(scale, classify, a[..i], x, a[i + 1..]);
    }
  }

  // ---------------------------------------------------------------------------
  // Summing a resolved map.
  // ---------------------------------------------------------------------------

  /** `es` lists every entry of `m` exactly once, in some order. */
  ghost predicate Enumerates(m: Attempts, es: seq<Entry>) {
    && (forall i :: 0 <= i < |es| ==> es[i].0 in m && m[es[i].0] == es[i].1)
    && (forall i, j :: 0 <= i < j < |es| ==> es[i].0 != es[j].0)
    && (forall k :: k in m ==> exists i :: 0 <= i < |es| && es[i].0 == k)
  }

  lemma {:induction false} DistinctCount(es: seq<Entry>, x: Entry)
    requires forall i, j :: 0 <= i < j < |es| ==> es[i].0 != es[j].0
    ensures multiset(es)[x] == if x in es then 1 else 0
    decreases |es|
  {
    if |es| > 0 {
      var n := |es| - 1;
      assert es == es[..n] + [es[n]];
      DistinctCount(es[..n], x);
      if x == es[n] {
        assert x !in es[..n];
      }
    }
  }

  /** Any two enumerations of a map are permutations of each other. */
  lemma EnumerationsPermute(m: Attempts, a: seq<Entry>, b: seq<Entry>)
    requires Enumerates(m, a) && Enumerates(m, b)
    ensures multiset(a) == multiset(b)
  {
    forall x: Entry
      ensures multiset(a)[x] == multiset(b)[x]
    {
      DistinctCount(a, x);
      DistinctCount(b, x);
      if x in a {
        var j :| 0 <= j < |b| && b[j].0 == x.0;
        assert b[j] == x;
      }
      if x in b {
        var j :| 0 <= j < |a| && a[j].0 == x.0;
        assert a[j] == x;
      }
    }
  }

  /** The sums over the entries `Aggregate` visits are the sums over every
      enumeration, well-formed, and NaN exactly when some subject of `m`
      lacks a credit or a valid grade. */
  lemma EnumerationTotals(scale: Scale, classify: string -> Class, m: Attempts, seen: seq<Entry>)
    requires InRange(scale) && NonNegativeCredits(classify)
    requires Visited(m, seen, {})
    ensures forall es :: Enumerates(m, es) ==> Total(scale, classify, seen) == Total(scale, classify, es)
    ensures WellFormed(Total(scale, classify, seen))
    ensures Total(scale, classify, seen).total.credits.Some? <==> forall k :: k in m ==> Credited(classify, (k, m[k]))
    ensures Total(scale, classify, seen).total.points.Some? <==> forall k :: k in m ==> Scored(scale, classify, (k, m[k]))
  {
    assert Enumerates(m, seen);
    TotalInvariants(scale, classify, seen);
    forall es | Enumerates(m, es)
      ensures Total(scale, classify, seen) == Total(scale, classify, es)
    {
      EnumerationsPermute(m, seen, es);
      TotalPermutation(scale, classify, seen, es);
    }
    forall k | k in m
      ensures exists i :: 0 <= i < |seen| && seen[i] == (k, m[k])
    {
      var i :| 0 <= i < |seen| && seen[i].0 == k;
      assert seen[i] == (k, m[k]);
    }
  }

  /** The loop state of `Aggregate`: `seen` lists, once each and in visiting
      order, exactly the entries of `m` whose keys have left `todo`. */
  ghost predicate Visited(m: Attempts, seen: seq<Entry>, todo: set<string>) {
    && todo <= m.Keys
    && (forall i :: 0 <= i < |seen| ==> seen[i].0 in m && seen[i].0 !in todo && m[seen[i].0] == seen[i].1)
    && (forall i, j :: 0 <= i < j < |seen| ==> seen[i].0 != seen[j].0)
    && (forall k :: k in m && k !in todo ==> exists i :: 0 <= i < |seen| && seen[i].0 == k)
  }

  lemma VisitOne(m: Attempts, seen: seq<Entry>, todo: set<string>, k: string)
    requires Visited(m, seen, todo) && k in todo
    ensures Visited(m, seen + [(k, m[k])], todo - {k})
  {
    var seen' := seen + [(k, m[k])];
    forall k' | k' in m && k' !in todo - {k}
      ensures exists i :: 0 <= i < |seen'| && seen'[i].0 == k'
    {
      if k' == k {
        assert seen'[|seen|].0 == k';
      } else {
        var i :| 0 <= i < |seen| && seen[i].0 == k';
        assert seen'[i].0 == k';
      }
    }
  }

  /** The handler's loop over the entries of the resolved map. The order of
      the entries is left open: whatever order is taken, the result is the
      in-order sum of that enumeration, and therefore of every enumeration. */
  method Aggregate(scale: Scale, classify: string -> Class, m: Attempts) returns (r: Report)
    requires InRange(scale) && NonNegativeCredits(classify)
    ensures forall es :: Enumerates(m, es) ==> r == Total(scale, classify, es)
    ensures WellFormed(r)
    ensures r.total.credits.Some? <==> forall k :: k in m ==> Credited(classify, (k, m[k]))
    ensures r.total.points.Some? <==> forall k :: k in m ==> Scored(scale, classify, (k, m[k]))
  {
    r := EmptyReport;
    var todo := m.Keys;
    ghost var seen: seq<Entry> := [];
    while todo != {}
      invariant Visited(m, seen, todo)
      invariant r == Total(scale, classify, seen)
      decreases |todo|
    {
      var k :| k in todo;
      r := Plus(r, Contribution(scale, classify, (k, m[k])));
      VisitOne(m, seen, todo, k);
      TotalSnoc(scale, classify, seen, (k, m[k]));
      seen := seen + [(k, m[k])];
      todo := todo - {k};
    }
    EnumerationTotals(scale, classify, m, seen);
  }
}
