# Credit results: latest-attempt resolution and credit sums

A Dafny model of the pure core of the `/creditresults` handler in `server.js` (the
`rank_proxy` service). The handler takes a student's transcript rows. It resolves
each subject to one grade record and applies the retake grades the client sends.
It then returns credit and grade-point sums, overall and per subject group
(mathematics, chemistry, physics, zoology, botany, computer science).

The model starts from already-parsed rows. It has four parts, one module each:

- `GradeScale` (`grade_scale.dfy`): the letter-grade table (`A+` … `MC`, 17 grades,
  0 to 4 points). `Points` yields `None` for a grade outside the table, standing
  for JavaScript's `undefined`.
- `Classifier` (`classifier.dfy`): the non-credit list, the credit switch on the
  code's last character (`0`–`6`, `α`, `β`, `δ`, no default case), and the group
  switch on the three-letter prefix.
- `Resolver` (`resolver.dfy`) and `Overrides` (`overrides.dfy`): three folds over a
  `map<string, Attempt>`.
  - Historical rows: the first valid row per subject wins.
  - Current-term rows: a row replaces the record when it has more points, or equal
    points and a strictly later year.
  - Retakes: replace the grade of a subject that already has a record.
- `Aggregator` (`aggregator.dfy`): the totals and group sums. Each sum is an
  `Option<real>`, where `None` is NaN. An undefined credit or an unknown grade
  poisons exactly the sums the handler's `+=` lines would poison.

`Transcript` (`transcript.dfy`) composes these with the handler's own table and
classification. `Scenarios` (`scenarios.dfy`) works through concrete cases.

Modelling choices:

- **Numbers.** Grade points and credits are exact decimals, so Dafny `real` stands
  in for JavaScript doubles. IEEE rounding of the sums is not modelled.
- **Years.** A year is `Option<int>`: `parseInt` gives NaN (`None`) on a cell it
  cannot read, and every comparison with NaN is false.
- **Injected tables.** The resolver and the sums take the grade scale and the
  classification as parameters. `Transcript` passes in the handler's fixed ones.
- **Entry order.** The handler walks the resolved entries in `Object.entries` order.
  `Aggregator.Aggregate` walks the map in an unspecified order and is proved to
  equal the in-order sum of every enumeration. So the order does not matter.

Where the code's behaviour departs from the obvious reading, the model follows
the code:

- **Unparsable years.** A NaN year is neither earlier nor later than any year,
  because every comparison with NaN is false. So a record whose year is NaN is
  never replaced by a row with equal points (`Scenarios.UnparsedYearBlocksTie`).
- **Unknown credit character.** A code ending in a character with no credit case
  is not reported as an error. The handler's sums simply become NaN: the totals
  and that subject's group, and nothing else (`Scenarios.UnknownCreditPoisons`).
- **Retake grades are not checked.** A retake grade outside the table keeps the
  credits and turns the points into NaN
  (`Scenarios.UnknownRetakeGradePoisonsPoints`).
- **Credits come from the last character.** PHY2102 carries 2 credits and CHE1101
  carries 1 (`Scenarios.TwoSubjectSums`).

## Model

| member | source | states |
|---|---|---|
| GradeScale.Points | server.js:55-73 | a grade has points exactly when it is a key of the scale; the points lie in [0, 4] when the scale does |
| GradeScale.TableInRange | server.js:55-73 | every grade of the handler's table is worth between 0 and 4 points |
| GradeScale.ZeroAndTopGrades | server.js:55-73 | exactly E, E*, E+, E-, F and MC are worth 0; exactly A+ and A are worth 4 |
| Classifier.CreditWeight | server.js:150-184 | the credit is defined exactly when the code is non-empty and ends in 0–6, α, β or δ, and then lies in [0, 6] |
| Classifier.CreditValues | server.js:153-184 | a final digit d in 0–6 weighs d; α weighs 1.5, β 2.5, δ 1.25 |
| Classifier.CreditFromLastCharOnly | server.js:150-184 | two codes with the same last character have the same credit |
| Classifier.GroupOf | server.js:189-217 | a grouped code starts with one of its group's three-letter prefixes |
| Classifier.GroupIffPrefix | server.js:189-217 | a code is in a group exactly when its first three characters are one of that group's prefixes, so no code is in two groups |
| Classifier.GroupFromPrefixOnly | server.js:189-217 | codes that agree on their first three characters are in the same group |
| Classifier.Classify | server.js:149-217 | a code is skipped exactly when it is on the non-credit list; its credit is defined exactly when it ends in 0–6, α, β or δ, and then lies in [0, 6]; it is grouped exactly when its prefix is some group's |
| Classifier.ClassifyNonNegative | server.js:150-184 | no credit the handler assigns is negative |
| Resolver.HistStep | server.js:107-111 | one historical row adds its subject only if valid and new, with that row's grade and year, and never overwrites a held record |
| Resolver.HistFold | server.js:99-113 | after the historical pass the subjects are those of the start plus those of the valid rows; existing records are untouched |
| Resolver.HistFirstWins | server.js:99-113 | a subject added by the historical pass holds the grade and year of its first valid row in input order |
| Resolver.HistLaterRowsIgnored | server.js:107-111 | once a subject has a record, any later historical rows leave it unchanged |
| Resolver.HistIgnoresInvalidRows | server.js:107-111 | removing the rows whose grade is not in the scale does not change the historical pass |
| Resolver.CurStep | server.js:120-128 | one current-term row touches no other subject; a valid row for a new subject is recorded; a held record is replaced when the row has more points, or equal points and a strictly later year, and is kept when it has fewer points, equal points and a year not strictly later (a NaN year on either side), or a grade outside the scale; an invalid row changes nothing |
| Resolver.DisplacesIsStrictRank | server.js:121-127 | with integer years, a row replaces a record exactly when it is strictly higher in the (points, year) order |
| Resolver.DisplacesWithNaNYear | server.js:124-125 | when either year is NaN, only strictly more points replace a record |
| Resolver.CurFold | server.js:114-130 | after the current-term pass the subjects are those of the start plus those of the valid rows, and no record's points have gone down |
| Resolver.CurIgnoresInvalidRows | server.js:120-129 | removing the rows whose grade is not in the scale does not change the current-term pass |
| Resolver.CurFoldSettles | server.js:121-127 | after the current-term pass no folded row and no starting record would displace the final record |
| Resolver.CurFoldIdempotent | server.js:114-130 | folding the same current-term rows a second time changes nothing |
| Resolver.CurFoldOwnRecordsUnchanged | server.js:114-130 | re-reading the held records as current-term rows changes nothing |
| Resolver.CurFoldOrigin | server.js:120-128 | every final record is the starting record or a valid row of the same subject |
| Resolver.CurFoldIsLexMax | server.js:121-127 | when subject k's own starting record and rows have integer years, k's final record is the lexicographic maximum by (points, year) of its starting record and its valid current-term rows, whatever the other subjects' years |
| Overrides.OverrideStep | server.js:135-137 | one retake entry gives a held subject its grade, keeping the year, when the grade is truthy; otherwise, and for any other subject, nothing changes |
| Overrides.OverrideFold | server.js:134-142 | the overrides keep the subject set and every year |
| Overrides.OverrideLastWins | server.js:134-142 | after the first n overrides each record has the grade of the last override taken for it (non-empty grade, subject present), or is unchanged if none is taken |
| Overrides.ApplyRetakes | server.js:133-143 | the retake list adds no subject and keeps every year; it does nothing unless both lists are present |
| Overrides.RetakeLastWins | server.js:133-142 | each record ends with the grade of the last retake taken for it, or its own grade when there is none |
| Aggregator.NaNPropagates | server.js:186-187 | `+` and `*` give a number exactly when both operands are numbers, and then their sum or product |
| Aggregator.ContributionRouting | server.js:149-217 | a non-credit subject adds nothing; otherwise its credit and points × credit go to the totals and its own group, and every other group gets nothing |
| Aggregator.ContributionOk | server.js:149-217 | one subject adds sound sums; each group gets all of them or nothing; credit and points are defined exactly when the handler's would be |
| Aggregator.TotalInvariants | server.js:186-217 | in every scope 0 ≤ points ≤ 4 × credits; group sums are bounded by and defined wherever the totals are; total credits are defined exactly when every credit-bearing subject has a credit; total points exactly when it also has a valid grade |
| Aggregator.NonCreditIgnored | server.js:149 | subjects on the non-credit list contribute to no sum |
| Aggregator.GroupIsTotalOfMembers | server.js:189-217 | each group's sums are exactly the totals over the credit-bearing subjects of that group |
| Aggregator.TotalPermutation | server.js:145-147 | the sums do not depend on the order in which the entries are visited |
| Aggregator.EnumerationsPermute | server.js:145-147 | any two enumerations of the resolved map are permutations of each other |
| Aggregator.Aggregate | server.js:145-220 | the loop over the resolved map yields the in-order sums of every enumeration of it, well-formed, with NaN credits or points exactly when some subject lacks a credit or a valid grade |
| Transcript.Resolve | server.js:96-143 | the resolved subjects are exactly the codes of rows with a valid grade, from both row classes |
| Transcript.CreditResults | server.js:96-239 | the handler's sums for the given rows and retakes: the totals of the resolved map, well-formed, with NaN credits exactly when a resolved credit-bearing code has no credit case |
| Transcript.HistRecordsFromRows | server.js:99-113 | every record of the historical pass is some valid row's grade and year |
| Transcript.ResolvedIsBestAttempt | server.js:99-130 | with no retakes, a subject with a valid row is resolved and its record is its first valid historical row or one of its valid current-term rows; when that subject's own rows have integer years, the record is at least as good by (points, year) as each of them |
| Scenarios.HistoricalFirstRowKept | server.js:107-111 | of historical rows C 2019 then B 2020, C 2019 is kept |
| Scenarios.HigherGradeReplaces | server.js:121-127 | a current-term B replaces a C |
| Scenarios.SameGradeLaterYearReplaces | server.js:124-125 | a current-term B of 2021 replaces a B of 2019 |
| Scenarios.LowerGradeKept | server.js:121-127 | a current-term C of 2021 does not replace a B of 2020 |
| Scenarios.UnparsedYearBlocksTie | server.js:118-125 | a record with an unparsable year is not replaced by an equal-points row |
| Scenarios.RetakeReplacesGrade | server.js:133-142 | a retake sets the grade and keeps the year; a retake for an unknown subject is ignored |
| Scenarios.NonCreditSubjectAddsNothing | server.js:11-18 | MAT1142 adds nothing to any sum |
| Scenarios.TwoSubjectSums | server.js:150-217 | PHY2102 at A and CHE1101 at B give 3 credits and 11 points in total, 2 and 8 in physics, 1 and 3 in chemistry |
| Scenarios.UnknownCreditPoisons | server.js:153-187 | a code ending in X makes its totals and its group NaN and leaves other groups at 0 |
| Scenarios.UnknownRetakeGradePoisonsPoints | server.js:186-187 | a grade outside the table keeps the credits and makes the points NaN |

## Left out

- HTTP routing, the request and response shapes, and the catch that answers 500 (server.js:1-9, 21-23, 242-250). These are transport.
- The bearer-token cookie, the leading-zero stripping of `stnum`, and the no-access and deceased lists (server.js:25-40). These are access policy that runs before any computation.
- The fetch of the upstream page and the cheerio parsing of `tr.trbgc` and `tr.selectbg` cells, including `split(" ")[3]` (server.js:42-54, 100-105, 115-118). This is network and HTML-library I/O. Rows are taken as given input.
- `console.log` calls: side effects only.
- The ranking service, its concurrent fan-out and its time-limited cache: they are not part of `server.js`.
- IEEE-754 rounding of the sums: exact `real` arithmetic is used instead.
- Subject codes that name `Object.prototype` properties (such as `constructor`), which the handler would treat as already present. Also retake entries that are JSON values other than strings or null. Both are outside the row and request shapes the model takes.
- Resolver.CurFoldIsLexMax: stated only when the subject's own starting record and rows have integer years. With a NaN year among them the (points, year) order is not total, so there may be no maximum; `Resolver.CurFoldSettles` states the general case.
- Transcript.ResolvedIsBestAttempt: the "at least as good" half needs the subject's own years to be integers, for the same reason; the "one of its attempts" half holds for any years.
- Aggregator.Aggregate: does not fix the `Object.entries` visiting order (integer-like keys first, then insertion order). It proves instead that every order gives the same sums.
