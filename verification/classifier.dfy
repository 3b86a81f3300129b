/** Subject classification by subject code: the non-credit list, the credit
    weight read from the last character, and the subject group read from the
    three-letter prefix. */
module Classifier {
  import opened Optional

  /** Subjects that carry no credit and are skipped by the sums. */
  const NonCreditSubjects: seq<string> :=
    ["MAT1142", "ICT1B13", "ENG1201", "ICT2B13", "ENG2201", "ENG3B10"]

  predicate IsNonCredit(code: string) {
    code in NonCreditSubjects
  }

  /** The last characters the credit switch has a case for. */
  const CreditChars: set<char> := {'0', '1', '2', '3', '4', '5', '6', 'α', 'β', 'δ'}

  /** The credit switch on one character, with no default case: any other
      character leaves the credit `undefined`. */
  function CreditOfChar(c: char): Option<real> {
    match c
    case '0' => Some(0.0)
    case '1' => Some(1.0)
    case '2' => Some(2.0)
    case '3' => Some(3.0)
    case '4' => Some(4.0)
    case '5' => Some(5.0)
    case '6' => Some(6.0)
    case 'α' => Some(1.5)
    case 'β' => Some(2.5)
    case 'δ' => Some(1.25)
    case _ => None
  }

  /** Credit weight of a subject code, from `slice(-1)` of the code. The empty
      code has an empty last slice, which matches no case. */
  function CreditWeight(code: string): (w: Option<real>)
    ensures w.Some? <==> |code| > 0 && code[|code| - 1] in CreditChars
    ensures w.Some? ==> 0.0 <= w.value <= 6.0
  {
    if |code| == 0 then None else CreditOfChar(code[|code| - 1])
  }

  /** The credit weight is a function of the last character alone. */
  lemma CreditFromLastCharOnly(a: string, b: string, c: char)
    ensures CreditWeight(a + [c]) == CreditWeight(b + [c])
  {
    assert (a + [c])[|a + [c]| - 1] == c;
    assert (b + [c])[|b + [c]| - 1] == c;
  }

  /** A code ending in a digit from 0 to 6 weighs that digit's value; the
      three Greek letters weigh 1.5, 2.5 and 1.25. */
  lemma CreditValues(code: string)
    requires |code| > 0
    ensures var c := code[|code| - 1];
      && ('0' <= c <= '6' ==> CreditWeight(code) == Some((c as int - '0' as int) as real))
      && (c == 'α' ==> CreditWeight(code) == Some(1.5))
      && (c == 'β' ==> CreditWeight(code) == Some(2.5))
      && (c == 'δ' ==> CreditWeight(code) == Some(1.25))
  {
  }

  /** The subject groups that have their own sums; `Ungrouped` codes count
      towards the totals only. */
  datatype Group = Math | Chem | Phy | Zoo | Bot | Cs | Ungrouped

  /** JavaScript's `startsWith`. */
  predicate StartsWith(s: string, prefix: string) {
    |prefix| <= |s| && s[..|prefix|] == prefix
  }

  /** The prefix table: the three-letter prefixes that select each group. */
  function Prefixes(g: Group): set<string> {
    match g
    case Math => {"AMT", "IMT", "MAT"}
    case Chem => {"CHE"}
    case Phy => {"PHY"}
    case Zoo => {"ZOO"}
    case Bot => {"BOT"}
    case Cs => {"COM", "CSC"}
    case Ungrouped => {}
  }

  /** The group switch, tested case by case in source order. */
  function GroupOf(code: string): (g: Group)
    ensures g != Ungrouped ==> |code| >= 3 && code[..3] in Prefixes(g)
  {
    if StartsWith(code, "AMT") || StartsWith(code, "IMT") || StartsWith(code, "MAT") then Math
    else if StartsWith(code, "CHE") then Chem
    else if StartsWith(code, "PHY") then Phy
    else if StartsWith(code, "ZOO") then Zoo
    else if StartsWith(code, "BOT") then Bot
    else if StartsWith(code, "COM") || StartsWith(code, "CSC") then Cs
    else Ungrouped
  }

  /** A code belongs to a group exactly when its first three characters are
      one of that group's prefixes, so no code lands in two groups. */
  lemma GroupIffPrefix(code: string, g: Group)
    requires g != Ungrouped
    ensures GroupOf(code) == g <==> |code| >= 3 && code[..3] in Prefixes(g)
  {
  }

  /** The group depends on the first three characters alone. */
  lemma GroupFromPrefixOnly(a: string, b: string)
    requires |a| >= 3 && |b| >= 3 && a[..3] == b[..3]
    ensures GroupOf(a) == GroupOf(b)
  {
  }

  /** Everything the sums need to know about a subject code. */
  datatype Class = Class(nonCredit: bool, credit: Option<real>, group: Group)

  /** The three facts the handler reads off a subject code. The credit and
      the group come from opposite ends of the code. */
  function Classify(code: string): (c: Class)
    ensures c.nonCredit <==> code in NonCreditSubjects
    ensures c.credit.Some? <==> |code| > 0 && code[|code| - 1] in CreditChars
    ensures c.credit.Some? ==> 0.0 <= c.credit.value <= 6.0
    ensures c.group != Ungrouped <==> |code| >= 3 && exists g :: g != Ungrouped && code[..3] in Prefixes(g)
  {
    Class(IsNonCredit(code), CreditWeight(code), GroupOf(code))
  }

  /** Credits a classification assigns are never negative. */
  ghost predicate NonNegativeCredits(classify: string -> Class) {
    forall code :: classify(code).credit.Some? ==> 0.0 <= classify(code).credit.value
  }

  lemma ClassifyNonNegative()
    ensures NonNegativeCredits(Classify)
  {
  }
}
