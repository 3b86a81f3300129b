/** The credit-results computation end to end: resolve the parsed rows with
    the handler's grade scale, apply the retake list, and sum the result with
    the handler's subject classification. */
module Transcript {
  import opened Optional
  import opened GradeScale
  import opened Classifier
  import opened Resolver
  import opened Overrides
  import opened Aggregator

  /** Historical rows first, then current-term rows, then the retake list. */
  function Resolve(hist: seq<Row>, cur: seq<Row>, retakes: RetakeList): (m: Attempts)
    ensures m.Keys == ValidCodes(Table, hist) + ValidCodes(Table, cur)
  {
    ApplyRetakes(CurFold(Table, HistFold(Table, map[], hist), cur), retakes)
  }

  /** The sums the handler returns for the given rows and retake list. Credits
      become NaN exactly when some credit-bearing resolved subject ends in a
      character the credit switch has no case for. */
  method CreditResults(hist: seq<Row>, cur: seq<Row>, retakes: RetakeList) returns (r: Report)
    ensures forall es :: Enumerates(Resolve(hist, cur, retakes), es) ==> r == Total(Table, Classify, es)
    ensures WellFormed(r)
    ensures r.total.credits.Some? <==>
      forall k :: k in ValidCodes(Table, hist) + ValidCodes(Table, cur) ==> IsNonCredit(k) || CreditWeight(k).Some?
  {
    TableInRange();
    ClassifyNonNegative();
    var m := Resolve(hist, cur, retakes);
    r := Aggregate(Table, Classify, m);
  }

  /** Every record of the historical pass, started from nothing, is some
      valid row's grade and year. */
  lemma HistRecordsFromRows(scale: Scale, rows: seq<Row>, k: string)
    requires k in HistFold(scale, map[], rows)
    ensures exists i :: 0 <= i < |rows| && ValidRow(scale, rows[i]) && HistFold(scale, map[], rows)[k] == AttemptOf(rows[i])
  {
    HistFirstWins(scale, map[], rows, k);
  }

  /** With no retakes, a subject ends with one of its attempts: its first
      valid historical row or one of its valid current-term rows. When that
      subject's own years are integers, it is the highest of them by
      (points, year). */
  lemma ResolvedIsBestAttempt(hist: seq<Row>, cur: seq<Row>, k: string)
    requires forall i :: 0 <= i < |hist| && hist[i].code == k ==> hist[i].year.Some?
    requires forall i :: 0 <= i < |cur| && cur[i].code == k ==> cur[i].year.Some?
    ensures forall i :: FirstValid(Table, hist, k, i) ==>
      k in Resolve(hist, cur, NoRetakes) && RankLe(Table, AttemptOf(hist[i]), Resolve(hist, cur, NoRetakes)[k])
    ensures forall i :: 0 <= i < |cur| && cur[i].code == k && ValidRow(Table, cur[i]) ==>
      k in Resolve(hist, cur, NoRetakes) && RankLe(Table, AttemptOf(cur[i]), Resolve(hist, cur, NoRetakes)[k])
    ensures k in Resolve(hist, cur, NoRetakes) ==>
      || (exists i :: FirstValid(Table, hist, k, i) && Resolve(hist, cur, NoRetakes)[k] == AttemptOf(hist[i]))
      || (exists i :: 0 <= i < |cur| && cur[i].code == k && ValidRow(Table, cur[i]) && Resolve(hist, cur, NoRetakes)[k] == AttemptOf(cur[i]))
  {
    var h := HistFold(Table, map[], hist);
    if k !in Resolve(hist, cur, NoRetakes) {
      return;
    }
    assert Resolve(hist, cur, NoRetakes) == CurFold(Table, h, cur);
    CurFoldOrigin(Table, h, cur, k);
    if k in h && Resolve(hist, cur, NoRetakes)[k] == h[k] {
      HistFirstWins(Table, map[], hist, k);
    }
    if k in h {
      HistFirstWins(Table, map[], hist, k);
    }
    CurFoldIsLexMax(Table, h, cur, k);
    forall i | FirstValid(Table, hist, k, i)
      ensures k in h && h[k] == AttemptOf(hist[i])
    {
      HistFirstWins(Table, map[], hist, k);
    }
  }
}
