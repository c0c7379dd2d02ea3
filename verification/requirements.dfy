/** The requirement extractors of src/utils/keywordExtractor.ts: years of experience, education clauses and a
    salary range, each read off the global matches of a regular expression. */
module Requirements {
  import opened Common
  import opened Chars
  import opened Strings
  import opened Regex

  /** The text a span covers. */
  function Covered(s: string, sp: Span): string
    requires sp.start <= sp.end <= |s|
  {
    s[sp.start..sp.end]
  }

  predicate ValidSpans(s: string, ms: seq<Span>)
  {
    forall i :: 0 <= i < |ms| ==> ms[i].start <= ms[i].end <= |s|
  }

  lemma MatchesValid(pat: Pattern, s: string)
    ensures ValidSpans(s, Matches(pat, s))
  {
  }

  // ---------------------------------------------------------------- years of experience

  /** The three phrasings tried in order. */
  const ExperiencePatterns: seq<Pattern> := [YearsOfExperience, ExperienceOfYears, YrsExperience]

  /** `Math.max(...xs)` of a non-empty list. */
  function MaxOf(xs: seq<nat>): (m: nat)
    requires |xs| > 0
    ensures m in xs
    ensures forall i :: 0 <= i < |xs| ==> xs[i] <= m
  {
    if |xs| == 1 then xs[0]
    else
      var rest := MaxOf(xs[1..]);
      assert forall i :: 1 <= i < |xs| ==> xs[i] == xs[1..][i - 1];
      if xs[0] >= rest then xs[0] else rest
  }

  /** The first number of each match. */
  function LeadingNumbers(s: string, ms: seq<Span>): (ns: seq<nat>)
    requires ValidSpans(s, ms)
    ensures |ns| == |ms|
    ensures forall i :: 0 <= i < |ms| ==> ns[i] == FirstNumber(Covered(s, ms[i]))
  {
    seq(|ms|, i requires 0 <= i < |ms| && ValidSpans(s, ms) => FirstNumber(Covered(s, ms[i])))
  }

  /** The largest leading number among the matches of the first pattern that matches at all. */
  function YearsFrom(text: string, pats: seq<Pattern>): (r: Option<nat>)
    ensures r.None? <==> forall i :: 0 <= i < |pats| ==> Matches(pats[i], text) == []
    ensures r.Some? ==> exists i :: 0 <= i < |pats| && YearsFromPattern(text, pats, i, r.value)
  {
    if |pats| == 0 then None
    else
      var ms := Matches(pats[0], text);
      MatchesValid(pats[0], text);
      if |ms| > 0 then
        var n := MaxOf(LeadingNumbers(text, ms));
        assert YearsFromPattern(text, pats, 0, n);
        Some(n)
      else
        var r := YearsFrom(text, pats[1..]);
        assert forall i :: 1 <= i < |pats| ==> pats[i] == pats[1..][i - 1];
        assert r.Some? ==> exists i :: 0 <= i < |pats| && YearsFromPattern(text, pats, i, r.value) by {
          if r.Some? {
            var i :| 0 <= i < |pats[1..]| && YearsFromPattern(text, pats[1..], i, r.value);
            YearsFromShift(text, pats, i, r.value);
          }
        }
        r
  }

  /** A pattern that is first to match among the later patterns is first among all when the first one fails. */
  lemma YearsFromShift(text: string, pats: seq<Pattern>, i: nat, n: nat)
    requires |pats| > 0 && Matches(pats[0], text) == []
    requires i < |pats| - 1 && YearsFromPattern(text, pats[1..], i, n)
    ensures YearsFromPattern(text, pats, i + 1, n)
  {
    assert forall j :: 1 <= j < |pats| ==> pats[j] == pats[1..][j - 1];
  }

  /** Pattern `i` is the first with a match, and `n` is the largest number leading one of its matches. */
  ghost predicate YearsFromPattern(text: string, pats: seq<Pattern>, i: int, n: nat)
    requires 0 <= i < |pats|
  {
    var ms := Matches(pats[i], text);
    && (forall j :: 0 <= j < i ==> Matches(pats[j], text) == [])
    && ms != []
    && ValidSpans(text, ms)
    && (forall m :: 0 <= m < |ms| ==> FirstNumber(Covered(text, ms[m])) <= n)
    && (exists m :: 0 <= m < |ms| && FirstNumber(Covered(text, ms[m])) == n)
  }

  /** `extractYearsOfExperience`: `None` exactly when none of the three phrasings occurs. */
  function ExtractYears(text: string): (r: Option<nat>)
    ensures r.None? <==> forall i :: 0 <= i < 3 ==> !Test(ExperiencePatterns[i], text)
    ensures r.Some? ==> exists i :: 0 <= i < 3 && YearsFromPattern(text, ExperiencePatterns, i, r.value)
  {
    forall i | 0 <= i < 3 ensures Matches(ExperiencePatterns[i], text) == [] <==> !Test(ExperiencePatterns[i], text) {
      MatchesIffTest(ExperiencePatterns[i], text);
    }
    YearsFrom(text, ExperiencePatterns)
  }

  // ---------------------------------------------------------------- education

  const EducationTerms: seq<string> := ["Bachelor", "Master", "PhD", "Doctorate", "Associate", "MBA", "degree"]

  /** The trimmed text of every match. */
  function TrimmedMatches(s: string, ms: seq<Span>): (ts: seq<string>)
    requires ValidSpans(s, ms)
    ensures |ts| == |ms|
    ensures forall i :: 0 <= i < |ms| ==> ts[i] == Trim(Covered(s, ms[i]))
  {
    seq(|ms|, i requires 0 <= i < |ms| && ValidSpans(s, ms) => Trim(Covered(s, ms[i])))
  }

  /** Every trimmed clause `[^.]*k[^.]*` matches, term after term. */
  function Clauses(text: string, terms: seq<string>): seq<string>
  {
    if |terms| == 0 then []
    else
      MatchesValid(Clause(terms[0]), text);
      TrimmedMatches(text, Matches(Clause(terms[0]), text)) + Clauses(text, terms[1..])
  }

  /** `extractEducationRequirements`: the first three distinct clauses, in the order they were first matched. */
  function EducationRequirements(text: string): (r: seq<string>)
    ensures |r| <= 3 && NoDups(r)
    ensures forall c :: c in r ==> c in Clauses(text, EducationTerms)
    ensures |r| == Min(3, |Dedup(Clauses(text, EducationTerms))|)
    ensures IsSubsequence(r, Clauses(text, EducationTerms))
    ensures FirstOccurrenceOrder(r, Clauses(text, EducationTerms))
    ensures var cs := Clauses(text, EducationTerms);
      forall k, x :: 0 <= k < |cs| && cs[k] !in r && x in r ==> x in cs[..k]
  {
    var cs := Clauses(text, EducationTerms);
    var d := Dedup(cs);
    var r := Take(d, 3);
    SubsequencePrefix(d, cs, |r|);
    forall k, x | 0 <= k < |cs| && cs[k] !in r && x in r ensures x in cs[..k] {
      assert cs[k] in cs;
      var j :| 0 <= j < |d| && d[j] == cs[k];
      var i :| 0 <= i < |r| && r[i] == x;
      assert j >= |r|;
      assert d[i] == x;
    }
    r
  }

  /** A term made of letters only, as every education term is. */
  predicate AllLetters(k: string) { forall i :: 0 <= i < |k| ==> IsLetter(k[i]) }

  /** Trimming drops only white space, so a term made of letters survives it. */
  lemma TrimKeepsTerm(s: string, k: string)
    requires AllLetters(k) && ContainsCi(s, k)
    ensures ContainsCi(Trim(s), k)
  {
    var p :| 0 <= p <= |s| && CiAt(s, p, k);
    var r := Trim(s);
    if |k| == 0 {
      assert CiAt(r, 0, k);
    } else {
      FoldedLetter(s[p], k[0]);
      FoldedLetter(s[p + |k| - 1], k[|k| - 1]);
      var a := TrimOffset(s);
      CiWithin(s, a, r, p, k);
      assert 0 <= p - a <= |r|;
    }
  }

  /** An occurrence inside a stretch of `s` is an occurrence in the stretch. */
  lemma CiWithin(s: string, a: nat, r: string, p: nat, k: string)
    requires a + |r| <= |s| && r == s[a..a + |r|]
    requires a <= p && p + |k| <= a + |r| && CiAt(s, p, k)
    ensures CiAt(r, p - a, k)
  {
    forall i | 0 <= i < |k| ensures ToLower(r[p - a + i]) == ToLower(k[i]) {
      assert r[p - a + i] == s[p + i];
    }
  }

  /** A character that folds to the same letter as a letter is a letter, and not white space. */
  lemma FoldedLetter(c: char, l: char)
    requires IsLetter(l) && ToLower(c) == ToLower(l)
    ensures IsLetter(c) && !IsSpace(c)
  {
  }

  /** A clause match contains its term and no '.'. */
  lemma ClauseMatchShape(s: string, k: string, sp: Span)
    requires sp.start <= |s|
    requires MatchAt(Clause(k), s, sp.start) == Some(sp.end)
    ensures ContainsCi(Covered(s, sp), k)
    ensures forall i :: 0 <= i < |Covered(s, sp)| ==> Covered(s, sp)[i] != '.'
  {
  }

  /** Every reported clause names one of the education terms, ignoring case, and holds no '.'. */
  lemma {:induction false} ClausesShape(text: string, terms: seq<string>)
    requires forall k :: k in terms ==> AllLetters(k)
    ensures forall c :: c in Clauses(text, terms) ==> ClauseShaped(c, terms)
  {
    if |terms| > 0 {
      ClausesShape(text, terms[1..]);
      var k := terms[0];
      var ms := Matches(Clause(k), text);
      MatchesValid(Clause(k), text);
      var ts := TrimmedMatches(text, ms);
      forall c | c in ts
        ensures ClauseShaped(c, terms)
      {
        var m :| 0 <= m < |ms| && ts[m] == c;
        TrimmedClauseShape(text, k, ms[m]);
      }
      forall c | c in Clauses(text, terms[1..])
        ensures ClauseShaped(c, terms)
      {
        assert ClauseShaped(c, terms[1..]);
      }
    }
  }

  /** `c` mentions one of `terms`, ignoring case, and holds no '.'. */
  ghost predicate ClauseShaped(c: string, terms: seq<string>)
  {
    (exists k :: k in terms && ContainsCi(c, k)) && forall i :: 0 <= i < |c| ==> c[i] != '.'
  }

  lemma TrimmedClauseShape(text: string, k: string, sp: Span)
    requires AllLetters(k)
    requires sp.start <= |text| && MatchAt(Clause(k), text, sp.start) == Some(sp.end)
    ensures ContainsCi(Trim(Covered(text, sp)), k)
    ensures forall i :: 0 <= i < |Trim(Covered(text, sp))| ==> Trim(Covered(text, sp))[i] != '.'
  {
    var covered := Covered(text, sp);
    ClauseMatchShape(text, k, sp);
    TrimKeepsTerm(covered, k);
    TrimInside(covered);
  }

  /** Trimming returns a stretch of its input. */
  lemma TrimInside(s: string)
    ensures forall i :: 0 <= i < |Trim(s)| ==> Trim(s)[i] in s
  {
    var a, r := TrimOffset(s), Trim(s);
    forall i | 0 <= i < |r| ensures r[i] in s {
      assert r[i] == s[a + i];
    }
  }

  lemma EducationShape(text: string)
    ensures forall c :: c in EducationRequirements(text) ==> ClauseShaped(c, EducationTerms)
  {
    ClausesShape(text, EducationTerms);
  }

  // ---------------------------------------------------------------- salary

  datatype Salary = Salary(min: nat, max: nat, currency: string)

  /** `extractSalaryRange`: the first two digit runs of the first match of the first pattern that matches. A
      thousands separator splits an amount into several runs: "$100,000 - $150,000" reads as 100 to 0. */
  function ExtractSalary(text: string): (r: Option<Salary>)
    ensures r.Some? ==> r.value.currency == "USD"
    ensures r.None? <==> !Test(DollarRange, text) && !Test(ThousandsRange, text)
    ensures Test(DollarRange, text) ==> r == SalaryOf(DollarRange, text)
    ensures !Test(DollarRange, text) ==> r == SalaryOf(ThousandsRange, text)
    ensures r.Some? ==>
      var runs := RunsOfFirst(if Test(DollarRange, text) then DollarRange else ThousandsRange, text);
      |runs| >= 2 && r.value.min == DigitsValue(runs[0]) && r.value.max == DigitsValue(runs[1])
  {
    RunsOfFirstCount(DollarRange, text);
    RunsOfFirstCount(ThousandsRange, text);
    var first := SalaryOf(DollarRange, text);
    if first.Some? then first else SalaryOf(ThousandsRange, text)
  }

  /** The salary the first match of `pat` yields: its first two digit runs. */
  function SalaryOf(pat: Pattern, text: string): (r: Option<Salary>)
    ensures r.Some? <==> |RunsOfFirst(pat, text)| >= 2
    ensures r.Some? ==> r.value.currency == "USD"
    ensures r.Some? ==>
      r.value.min == DigitsValue(RunsOfFirst(pat, text)[0]) && r.value.max == DigitsValue(RunsOfFirst(pat, text)[1])
  {
    var runs := RunsOfFirst(pat, text);
    if |runs| >= 2 then Some(Salary(DigitsValue(runs[0]), DigitsValue(runs[1]), "USD")) else None
  }

  /** The digit runs of a pattern's first match (none if it does not match). */
  function RunsOfFirst(pat: Pattern, text: string): (runs: seq<string>)
    ensures forall r :: r in runs ==> |r| > 0 && forall i :: 0 <= i < |r| ==> IsDigit(r[i])
  {
    match FirstMatch(pat, text)
    case None => []
    case Some(sp) => DigitRuns(Covered(text, sp))
  }

  /** Each salary pattern puts two numbers apart in its match, so a match always holds two digit runs and the
      second pattern is consulted only when the first does not occur. */
  lemma RunsOfFirstCount(pat: Pattern, text: string)
    requires pat == DollarRange || pat == ThousandsRange
    ensures Test(pat, text) <==> |RunsOfFirst(pat, text)| >= 2
  {
    var m := FirstMatch(pat, text);
    if m.Some? {
      var sp := m.value;
      if pat == DollarRange {
        DollarRuns(text, sp.start, sp.end);
      } else {
        ThousandsRuns(text, sp.start, sp.end);
      }
    } else {
      assert !Test(pat, text);
    }
  }

  /** A thousands separator splits an amount into two runs, so "$100,000 - $150,000" reads as 100 to 0. */
  lemma SalaryExample()
    ensures ExtractSalary("$100,000 - $150,000") == Some(Salary(100, 0, "USD"))
  {
    var text := "$100,000 - $150,000";
    assert ExampleText(text);
    ExampleSalary(text);
  }

  lemma ExampleSalary(text: string)
    requires ExampleText(text)
    ensures ExtractSalary(text) == Some(Salary(100, 0, "USD"))
  {
    ExampleMatch(text);
    assert RunsOfFirst(DollarRange, text) == DigitRuns(text) by {
      assert Covered(text, Span(0, 19)) == text;
    }
    ExampleRuns(text);
    ExampleValues(text[1..4], text[5..8]);
  }

  lemma ExampleValues(a: string, b: string)
    requires |a| == 3 && a[0] == '1' && a[1] == '0' && a[2] == '0'
    requires |b| == 3 && b[0] == '0' && b[1] == '0' && b[2] == '0'
    ensures DigitsValue(a) == 100 && DigitsValue(b) == 0
  {
    ThreeDigits(a);
    ThreeDigits(b);
  }

  /** "$100,000 - $150,000", character by character. */
  ghost predicate ExampleText(t: string)
  {
    && |t| == 19
    && t[0] == '$' && t[1] == '1' && t[2] == '0' && t[3] == '0' && t[4] == ',' && t[5] == '0' && t[6] == '0'
    && t[7] == '0' && t[8] == ' ' && t[9] == '-' && t[10] == ' ' && t[11] == '$' && t[12] == '1' && t[13] == '5'
    && t[14] == '0' && t[15] == ',' && t[16] == '0' && t[17] == '0' && t[18] == '0'
  }

  lemma ExampleMatch(text: string)
    requires ExampleText(text)
    ensures Test(DollarRange, text) && FirstMatch(DollarRange, text) == Some(Span(0, 19))
  {
    RunEndIs(text, 1, Amount, 8);
    RunEndIs(text, 8, Separators, 11);
    RunEndIs(text[1..8], 0, Digits, 3);
    assert GroupsThenEnd(text[1..8][3..], true);
    RunEndIs(text, 12, Digits, 15);
    assert GreedyGroups(text, 19) == 19;
    assert MatchAt(DollarRange, text, 0) == Some(19);
  }

  /** The first two runs are "100" and "000". */
  lemma ExampleRuns(text: string)
    requires ExampleText(text)
    ensures |DigitRuns(text)| >= 2 && DigitRuns(text)[0] == text[1..4] && DigitRuns(text)[1] == text[5..8]
  {
    DigitRunsAt(text, 1, 4);
    SecondRun(text[4..]);
    assert text[4..][1..4] == text[5..8];
  }

  lemma SecondRun(rest: string)
    requires |rest| > 4 && rest[0] == ',' && IsDigit(rest[1]) && IsDigit(rest[2]) && IsDigit(rest[3]) && rest[4] == ' '
    ensures |DigitRuns(rest)| >= 1 && DigitRuns(rest)[0] == rest[1..4]
  {
    DigitRunsAt(rest, 1, 4);
  }

  /** `parseInt` of three digits. */
  lemma ThreeDigits(t: string)
    requires |t| == 3 && forall i :: 0 <= i < 3 ==> IsDigit(t[i])
    ensures DigitsValue(t) == 100 * DigitValue(t[0]) + 10 * DigitValue(t[1]) + DigitValue(t[2])
  {
    assert t[..2][..1] == [t[0]];
    assert DigitsValue([t[0]]) == DigitValue(t[0]);
  }

  lemma DollarRuns(text: string, p: nat, e: nat)
    requires p <= |text| && MatchAt(DollarRange, text, p) == Some(e)
    ensures |DigitRuns(text[p..e])| >= 2
  {
    var t := text[p..e];
    var a := RunEnd(text, p + 1, Amount);
    var g := RunEnd(text, a, Separators);
    assert IsGroupedNumber(text[p + 1..a], true);
    assert text[p + 1..a][0] == text[p + 1];
    assert t[1] == text[p + 1];
    assert t[g - p] == text[g] && t[g + 1 - p] == text[g + 1];
    TwoRuns(t, 1, g - p, g + 1 - p);
  }

  lemma ThousandsRuns(text: string, p: nat, e: nat)
    requires p <= |text| && MatchAt(ThousandsRange, text, p) == Some(e)
    ensures |DigitRuns(text[p..e])| >= 2
  {
    var t := text[p..e];
    var a := RunEnd(text, p, Grouped);
    var b := OptionalLetter(text, a, 'k');
    var g := RunEnd(text, b, Separators);
    assert IsGroupedNumber(text[p..a], false);
    assert text[p..a][0] == text[p];
    var c := RunEnd(text, g, Grouped);
    assert IsGroupedNumber(text[g..c], false);
    assert text[g..c][0] == text[g];
    assert t[0] == text[p];
    assert t[g - 1 - p] == text[g - 1] && t[g - p] == text[g];
    TwoRuns(t, 0, g - 1 - p, g - p);
  }

  /** Two digits with a non-digit between them lie in two different runs. */
  lemma {:induction false} TwoRuns(t: string, i: nat, m: nat, j: nat)
    requires i < m < j < |t| && IsDigit(t[i]) && !IsDigit(t[m]) && IsDigit(t[j])
    ensures |DigitRuns(t)| >= 2
    decreases |t|
  {
    if !IsDigit(t[0]) {
      TwoRuns(t[1..], i - 1, m - 1, j - 1);
    } else {
      var e := RunEnd(t, 0, Digits);
      assert e <= m;
      OneRun(t[e..], j - e);
    }
  }

  /** A digit lies in some run. */
  lemma {:induction false} OneRun(t: string, j: nat)
    requires j < |t| && IsDigit(t[j])
    ensures |DigitRuns(t)| >= 1
    decreases |t|
  {
    if !IsDigit(t[0]) {
      OneRun(t[1..], j - 1);
    }
  }
}
