/** The comprehensive score of src/utils/scoringEngine.ts: five sub-scores, each a sum of fixed bonuses capped at
    100, their weighted mean, a four-band rank, threshold-driven recommendations, a comparison of two versions of
    a résumé, and a prioritised optimisation plan. Importances are in half-points, as everywhere in the model. */
module ScoringEngine {
  import opened Common
  import opened Chars
  import opened Strings
  import opened Regex
  import opened KeywordExtractor
  import opened Requirements
  import opened TextFormatter
  import RA = ResumeAnalyzer

  datatype Breakdown = Breakdown(
    keywordMatch: int,
    technicalSkills: int,
    experience: int,
    formatting: int,
    atsCompatibility: int)

  predicate InRange(b: Breakdown)
  {
    && 0 <= b.keywordMatch <= 100
    && 0 <= b.technicalSkills <= 100
    && 0 <= b.experience <= 100
    && 0 <= b.formatting <= 100
    && 0 <= b.atsCompatibility <= 100
  }

  datatype Rank = Excellent | Good | Fair | Poor

  datatype ScoringResult = ScoringResult(
    overallScore: int,
    breakdown: Breakdown,
    recommendations: seq<string>,
    rank: Rank)

  // ---------------------------------------------------------------- keyword match

  /** `keyword.importance || 1`: an absent importance weighs as much as an importance of 1 (two half-points). */
  function Weight(k: Keyword): (w: nat)
    ensures w >= 1
    ensures k.importance > 0 ==> w == k.importance
  {
    if k.importance == 0 then 2 else k.importance
  }

  function TotalWeight(ks: seq<Keyword>): (t: nat)
    ensures t >= |ks|
  {
    if |ks| == 0 then 0 else Weight(ks[0]) + TotalWeight(ks[1..])
  }

  /** The weight of the keywords whose lower-cased text is among `keys`. */
  function MatchedWeight(ks: seq<Keyword>, keys: set<string>): (w: nat)
    ensures w <= TotalWeight(ks)
    ensures (forall k :: k in ks ==> Key(k) in keys) ==> w == TotalWeight(ks)
    ensures (forall k :: k in ks ==> Key(k) !in keys) ==> w == 0
  {
    if |ks| == 0 then 0
    else (if Key(ks[0]) in keys then Weight(ks[0]) else 0) + MatchedWeight(ks[1..], keys)
  }

  lemma {:induction false} MatchedWeightMonotone(ks: seq<Keyword>, keys1: set<string>, keys2: set<string>)
    requires keys1 <= keys2
    ensures MatchedWeight(ks, keys1) <= MatchedWeight(ks, keys2)
  {
    if |ks| > 0 {
      MatchedWeightMonotone(ks[1..], keys1, keys2);
    }
  }

  /** `calculateKeywordMatchScore`: 100 for a job without keywords, otherwise the rounded percentage of the job's
      keyword weight that the matched keywords cover. */
  function KeywordMatchScore(matched: seq<Keyword>, job: seq<Keyword>): (r: int)
    ensures job == [] ==> r == 100
    ensures job != [] ==> r == Percent(MatchedWeight(job, RA.KeySet(matched)), TotalWeight(job))
    ensures 0 <= r <= 100
  {
    if |job| == 0 then 100 else Percent(MatchedWeight(job, RA.KeySet(matched)), TotalWeight(job))
  }

  /** When every job keyword is matched the score is 100; when none is, it is 0. */
  lemma KeywordMatchExtremes(matched: seq<Keyword>, job: seq<Keyword>)
    ensures (forall k :: k in job ==> exists m :: m in matched && Key(m) == Key(k)) ==> KeywordMatchScore(matched, job) == 100
    ensures job != [] && (forall k, m :: k in job && m in matched ==> Key(m) != Key(k)) ==>
      KeywordMatchScore(matched, job) == 0
  {
  }

  /** Matching more keys never lowers the score. */
  lemma KeywordMatchMonotone(matched1: seq<Keyword>, matched2: seq<Keyword>, job: seq<Keyword>)
    requires RA.KeySet(matched1) <= RA.KeySet(matched2)
    ensures KeywordMatchScore(matched1, job) <= KeywordMatchScore(matched2, job)
  {
    if |job| > 0 {
      MatchedWeightMonotone(job, RA.KeySet(matched1), RA.KeySet(matched2));
      var t := TotalWeight(job);
      RoundDivMonotone(100 * MatchedWeight(job, RA.KeySet(matched1)), 100 * MatchedWeight(job, RA.KeySet(matched2)), t);
    }
  }

  // ---------------------------------------------------------------- technical skills

  /** `(k.importance || 0) > 2`: the keywords above four half-points, in order. */
  function Critical(ks: seq<Keyword>): (r: seq<Keyword>)
    ensures forall k :: k in r <==> k in ks && k.importance > 4
    ensures |r| <= |ks|
  {
    if |ks| == 0 then []
    else (if ks[0].importance > 4 then [ks[0]] else []) + Critical(ks[1..])
  }

  /** The score from the counts: `tm` technical keywords matched out of `tt`, `hm` matched among the `h`
      critical ones. `matchRate * 0.8 + criticalMatchBonus` over the common denominator `tt * h`. */
  function TechnicalPoints(tm: nat, hm: nat, tt: nat, h: nat): (r: int)
    requires tt > 0
    ensures 0 <= r <= 100
  {
    if h > 0 then
      MulMonotone(1, tt, h);
      MulMonotone(0, 80 * tm, h);
      MulMonotone(0, 20 * hm, tt);
      var num := 80 * tm * h + 20 * hm * tt;
      RoundDivAtLeast(num, tt * h, 0);
      Min(100, RoundDiv(num, tt * h))
    else
      RoundDivAtLeast(80 * tm, tt, 0);
      Min(100, RoundDiv(80 * tm, tt))
  }

  /** `calculateTechnicalSkillsScore`: 80% of the technical match rate plus up to 20 points for the share of
      critical technical keywords matched, rounded and capped at 100; 100 for a job without technical keywords. */
  function TechnicalSkillsScore(matched: seq<Keyword>, job: seq<Keyword>): (r: int)
    ensures OfCategory(job, Technical) == [] ==> r == 100
    ensures 0 <= r <= 100
  {
    var tm := OfCategory(matched, Technical);
    var tt := OfCategory(job, Technical);
    if |tt| == 0 then 100
    else
      var high := Critical(tt);
      TechnicalPoints(|tm|, |RA.Having(tm, RA.KeySet(high), true)|, |tt|, |high|)
  }

  /** Full coverage of `h > 0` critical keywords scores 100. */
  lemma TechnicalPointsFull(t: nat, hm: nat, h: nat)
    requires t > 0 && h > 0 && hm >= h
    ensures TechnicalPoints(t, hm, t, h) == 100
  {
    var p := t * h;
    MulMonotone(h, hm, t);
    assert 80 * t * h + 20 * hm * t >= 100 * p;
    MulMonotone(1, t, h);
    RoundDivAtLeast(80 * t * h + 20 * hm * t, p, 100);
  }

  /** Full coverage without critical keywords scores 80. */
  lemma TechnicalPointsNoCritical(t: nat)
    requires t > 0
    ensures TechnicalPoints(t, 0, t, 0) == 80
  {
    RoundDivAtLeast(80 * t, t, 80);
    RoundDivAtMost(80 * t, t, 80);
  }

  /** Matching nothing scores 0. */
  lemma TechnicalPointsNone(tt: nat, h: nat)
    requires tt > 0
    ensures TechnicalPoints(0, 0, tt, h) == 0
  {
    if h > 0 {
      MulMonotone(1, tt, h);
      RoundDivAtMost(0, tt * h, 0);
    } else {
      RoundDivAtMost(0, tt, 0);
    }
  }

  /** A keyword list covers its own critical keywords. */
  lemma {:induction false} CriticalCovered(ks: seq<Keyword>, keys: set<string>)
    requires forall k :: k in ks && k.importance > 4 ==> Key(k) in keys
    ensures |Critical(ks)| <= |RA.Having(ks, keys, true)|
  {
    if |ks| > 0 {
      CriticalCovered(ks[1..], keys);
    }
  }

  /** Matching exactly the job's technical keywords earns 100 when some of them are critical. */
  lemma TechnicalFull(matched: seq<Keyword>, job: seq<Keyword>)
    requires OfCategory(job, Technical) != [] && Critical(OfCategory(job, Technical)) != []
    requires OfCategory(matched, Technical) == OfCategory(job, Technical)
    ensures TechnicalSkillsScore(matched, job) == 100
  {
    var tt := OfCategory(job, Technical);
    var high := Critical(tt);
    CriticalCovered(tt, RA.KeySet(high));
    TechnicalPointsFull(|tt|, |RA.Having(tt, RA.KeySet(high), true)|, |high|);
  }

  /** Matching exactly the job's technical keywords earns only 80 when none of them is critical: the critical
      bonus then stays 0. */
  lemma TechnicalWithoutCritical(matched: seq<Keyword>, job: seq<Keyword>)
    requires OfCategory(job, Technical) != [] && Critical(OfCategory(job, Technical)) == []
    requires OfCategory(matched, Technical) == OfCategory(job, Technical)
    ensures TechnicalSkillsScore(matched, job) == 80
  {
    var tt := OfCategory(job, Technical);
    assert RA.KeySet([]) == {};
    HavingNoKeys(tt);
    TechnicalPointsNoCritical(|tt|);
  }

  /** No keyword has a key in the empty set. */
  lemma {:induction false} HavingNoKeys(ks: seq<Keyword>)
    ensures RA.Having(ks, {}, true) == []
  {
    if |ks| > 0 {
      HavingNoKeys(ks[1..]);
    }
  }

  /** Matching none of the job's technical keywords earns 0. */
  lemma TechnicalNone(matched: seq<Keyword>, job: seq<Keyword>)
    requires OfCategory(job, Technical) != [] && OfCategory(matched, Technical) == []
    ensures TechnicalSkillsScore(matched, job) == 0
  {
    var tt := OfCategory(job, Technical);
    assert RA.Having([], RA.KeySet(Critical(tt)), true) == [];
    TechnicalPointsNone(|tt|, |Critical(tt)|);
  }

  // ---------------------------------------------------------------- experience

  /** The largest number leading a match of `(\d+)\+?\s*years?` (flags `gi`), when there is a match. */
  function MostYears(text: string): (r: Option<nat>)
    ensures r.None? <==> !Test(Years, text)
    ensures r.Some? ==> YearsFromPattern(text, [Years], 0, r.value)
  {
    MatchesIffTest(Years, text);
    YearsFrom(text, [Years])
  }

  /** The bonus for stated years: 30 when the résumé states at least the job's years, 20 at 70% of them or more
      (`jobYears * 0.7`, compared exactly), 10 below that, and nothing unless both texts state years. */
  function YearsBonus(resumeText: string, jobText: string): (b: nat)
    ensures b == 0 <==> MostYears(jobText).None? || MostYears(resumeText).None?
    ensures b == 30 <==> (MostYears(jobText).Some? && MostYears(resumeText).Some?
      && MostYears(resumeText).value >= MostYears(jobText).value)
    ensures b == 20 <==> (MostYears(jobText).Some? && MostYears(resumeText).Some?
      && MostYears(resumeText).value < MostYears(jobText).value
      && 10 * MostYears(resumeText).value >= 7 * MostYears(jobText).value)
    ensures b == 10 <==> (MostYears(jobText).Some? && MostYears(resumeText).Some?
      && 10 * MostYears(resumeText).value < 7 * MostYears(jobText).value)
    ensures b <= 30
  {
    match (MostYears(jobText), MostYears(resumeText))
    case (Some(job), Some(res)) => if res >= job then 30 else if 10 * res >= 7 * job then 20 else 10
    case _ => 0
  }

  function VerbBonus(verbs: nat): (b: nat)
    ensures b <= 15
    ensures b == 15 <==> verbs >= 10
    ensures b == 10 <==> 5 <= verbs < 10
    ensures b == 5 <==> 3 <= verbs < 5
    ensures b == 0 <==> verbs < 3
  {
    if verbs >= 10 then 15 else if verbs >= 5 then 10 else if verbs >= 3 then 5 else 0
  }

  /** `/\d+%|\$\d+|increased|reduced|improved|enhanced/.test(s)`, without the `i` flag: a digit directly before
      '%', a digit directly after '$', or one of the four words in lower case. */
  predicate HasMetrics(s: string)
  {
    || (exists i :: 0 <= i < |s| - 1 && IsDigit(s[i]) && s[i + 1] == '%')
    || (exists i :: 0 <= i < |s| - 1 && s[i] == '$' && IsDigit(s[i + 1]))
    || Contains(s, "increased") || Contains(s, "reduced") || Contains(s, "improved") || Contains(s, "enhanced")
  }

  /** `calculateExperienceScore`: 50 plus the years, action-verb and metrics bonuses, capped at 100. */
  function ExperienceScore(resumeText: string, jobText: string): (r: int)
    ensures 50 <= r <= 100
    ensures r == 100 <==>
      YearsBonus(resumeText, jobText) == 30 && |ExtractActionVerbs(resumeText)| >= 10 && HasMetrics(resumeText)
    ensures r == 50 <==>
      YearsBonus(resumeText, jobText) == 0 && |ExtractActionVerbs(resumeText)| < 3 && !HasMetrics(resumeText)
  {
    var score := 50 + YearsBonus(resumeText, jobText) + VerbBonus(|ExtractActionVerbs(resumeText)|)
      + (if HasMetrics(resumeText) then 5 else 0);
    Min(100, score)
  }

  // ---------------------------------------------------------------- formatting

  const SectionWords: seq<string> := ["experience", "education", "skills", "summary"]

  predicate HasSectionWord(s: string)
  {
    exists w :: w in SectionWords && ContainsCi(s, w)
  }

  /** `[a-z0-9._%+-]` with the `i` flag. */
  predicate IsLocalChar(c: char)
  {
    IsLetter(c) || IsDigit(c) || c == '.' || c == '_' || c == '%' || c == '+' || c == '-'
  }

  /** `[a-z0-9.-]` with the `i` flag. */
  predicate IsDomainChar(c: char)
  {
    IsLetter(c) || IsDigit(c) || c == '.' || c == '-'
  }

  /** `/[a-z0-9._%+-]+@[a-z0-9.-]+\.[a-z]{2,}/i.test(s)`: an '@' at `a` right after a local-part character, and
      a '.' at `d`, with domain characters strictly between them and two letters after it. Backtracking lets
      the domain run end at any of its dots, so this is exactly when the expression finds a match. */
  predicate HasEmail(s: string)
  {
    exists a, d :: 0 < a && a + 1 < d && d + 2 < |s| && EmailAt(s, a, d)
  }

  predicate EmailAt(s: string, a: int, d: int)
    requires 0 < a < d && d + 2 < |s|
  {
    && s[a] == '@' && IsLocalChar(s[a - 1])
    && (forall m :: a < m < d ==> IsDomainChar(s[m]))
    && s[d] == '.' && IsLetter(s[d + 1]) && IsLetter(s[d + 2])
  }

  predicate DigitsAt(s: string, p: int, n: nat)
  {
    0 <= p && p + n <= |s| && forall i :: p <= i < p + n ==> IsDigit(s[i])
  }

  /** `[-.]?` at `q`: skipped (`a == 0`) or a '-' or '.' there (`a == 1`). */
  predicate OptionalSeparator(s: string, q: int, a: nat)
  {
    a == 0 || (a == 1 && 0 <= q < |s| && (s[q] == '-' || s[q] == '.'))
  }

  predicate PhoneWith(s: string, p: int, a: nat, b: nat)
  {
    && DigitsAt(s, p, 3) && OptionalSeparator(s, p + 3, a)
    && DigitsAt(s, p + 3 + a, 3) && OptionalSeparator(s, p + 6 + a, b)
    && DigitsAt(s, p + 6 + a + b, 4)
  }

  /** `/\d{3}[-.]?\d{3}[-.]?\d{4}/.test(s)`: some start and some choice of the two optional separators. */
  predicate HasPhone(s: string)
  {
    exists p :: 0 <= p <= |s| && (PhoneWith(s, p, 0, 0) || PhoneWith(s, p, 0, 1) || PhoneWith(s, p, 1, 0) || PhoneWith(s, p, 1, 1))
  }

  /** `/(  {2,})/g.test(s)`: a space followed by two or more spaces, that is three spaces in a row. */
  predicate HasWideGap(s: string)
  {
    Contains(s, "   ")
  }

  /** The class `[â€¢\-\*]` as the source file spells it: the UTF-8 bytes of '•' read as Windows-1252 give the
      three characters U+00E2, U+20AC and U+00A2, so the class holds those, '-' and '*', and not '•' itself. */
  const BulletChars: set<char> := {'\U{E2}', '\U{20AC}', '\U{A2}', '-', '*'}

  predicate HasBullet(s: string)
  {
    exists i :: 0 <= i < |s| && s[i] in BulletChars
  }

  /** `/[A-Z][a-z]+/.test(s)`. */
  predicate HasCapitalisedWord(s: string)
  {
    exists i :: 0 <= i < |s| - 1 && IsUpper(s[i]) && IsLower(s[i + 1])
  }

  /** The bonus for the word count `split(/\s+/).length`. */
  function LengthBonus(words: nat): (b: nat)
    ensures b <= 20
    ensures b == 20 <==> 300 <= words <= 800
    ensures b == 15 <==> 200 <= words < 300 || 800 < words <= 1000
    ensures b == 10 <==> 100 <= words < 200 || words > 1000
    ensures b == 0 <==> words < 100
  {
    if 300 <= words <= 800 then 20 else if 200 <= words <= 1000 then 15 else if words >= 100 then 10 else 0
  }

  /** `calculateFormattingScore`: six bonuses that add up to exactly 100. */
  function FormattingScore(s: string): (r: int)
    ensures 0 <= r <= 100
    ensures r == 100 <==> (HasSectionWord(s) && (HasEmail(s) || HasPhone(s)) && 300 <= WordCount(s) <= 800
      && !HasWideGap(s) && HasBullet(s) && HasCapitalisedWord(s))
    ensures r == 0 <==> (!HasSectionWord(s) && !HasEmail(s) && !HasPhone(s) && WordCount(s) < 100
      && HasWideGap(s) && !HasBullet(s) && !HasCapitalisedWord(s))
  {
    var score := (if HasSectionWord(s) then 25 else 0)
      + (if HasEmail(s) || HasPhone(s) then 20 else 0)
      + LengthBonus(WordCount(s))
      + (if !HasWideGap(s) then 15 else 0)
      + (if HasBullet(s) then 10 else 0)
      + (if HasCapitalisedWord(s) then 10 else 0);
    Min(100, score)
  }

  // ---------------------------------------------------------------- ATS compatibility

  const HeaderWords: seq<string> := ["EXPERIENCE", "EDUCATION", "SKILLS"]

  const Months: seq<string> := ["Jan", "Feb", "Mar", "Apr", "May", "Jun", "Jul", "Aug", "Sep", "Oct", "Nov", "Dec"]

  /** `/\b(EXPERIENCE|EDUCATION|SKILLS)\b/i.test(s)`. */
  predicate HasHeaderWord(s: string)
  {
    exists w :: w in HeaderWords && HasWord(s, w)
  }

  /** The bonus for the keyword density `matched / (words / 100)`, compared exactly: 25 between 2 and 5, 20
      between 1 and 7, 10 for any positive density. */
  function DensityBonus(matched: nat, words: nat): (b: nat)
    requires words >= 1
    ensures b <= 25
    ensures b == 25 <==> 2 * words <= 100 * matched <= 5 * words
    ensures b == 20 <==> words <= 100 * matched <= 7 * words && !(2 * words <= 100 * matched <= 5 * words)
    ensures b == 10 <==> matched > 0 && (100 * matched < words || 100 * matched > 7 * words)
    ensures b == 0 <==> matched == 0
  {
    if 2 * words <= 100 * matched <= 5 * words then 25
    else if words <= 100 * matched <= 7 * words then 20
    else if matched > 0 then 10
    else 0
  }

  /** `/[^\x00-\x7F]/.test(s)`. */
  predicate HasNonAscii(s: string)
  {
    exists i :: 0 <= i < |s| && s[i] as int > 0x7F
  }

  /** `/\d{4}|Jan|Feb|…|Dec/i.test(s)`. */
  predicate HasDate(s: string)
  {
    (exists p :: 0 <= p <= |s| && DigitsAt(s, p, 4)) || (exists m :: m in Months && ContainsCi(s, m))
  }

  /** `calculateATSCompatibility`: six bonuses that add up to exactly 100. An address counts as at the top
      when it lies in the first 200 characters. */
  function AtsScore(s: string, matched: seq<Keyword>): (r: int)
    ensures 0 <= r <= 100
    ensures r == 100 <==> (HasHeaderWord(s) && 2 * WordCount(s) <= 100 * |matched| <= 5 * WordCount(s)
      && !HasNonAscii(s) && '|' !in s && HasEmail(Take(s, 200)) && HasDate(s))
    ensures r == 0 <==> (!HasHeaderWord(s) && matched == [] && HasNonAscii(s) && '|' in s
      && !HasEmail(Take(s, 200)) && !HasDate(s))
  {
    var score := (if HasHeaderWord(s) then 25 else 0)
      + DensityBonus(|matched|, WordCount(s))
      + (if !HasNonAscii(s) then 15 else 0)
      + (if '|' !in s then 10 else 0)
      + (if HasEmail(Take(s, 200)) then 15 else 0)
      + (if HasDate(s) then 10 else 0);
    Min(100, score)
  }

  // ---------------------------------------------------------------- overall score and rank

  /** The weighted sum with weights 0.30, 0.25, 0.20, 0.10 and 0.15, taken as hundredths, rounded. */
  function Overall(b: Breakdown): (r: int)
    ensures InRange(b) ==> 0 <= r <= 100
  {
    var sum := 30 * b.keywordMatch + 25 * b.technicalSkills + 20 * b.experience + 10 * b.formatting
      + 15 * b.atsCompatibility;
    assert InRange(b) ==> 0 <= RoundDiv(sum, 100) <= 100 by {
      if InRange(b) {
        RoundDivAtLeast(sum, 100, 0);
        RoundDivAtMost(sum, 100, 100);
      }
    }
    RoundDiv(sum, 100)
  }

  /** The weights sum to one, so the overall score lies between the lowest and the highest sub-score. */
  lemma OverallBetween(b: Breakdown, lo: int, hi: int)
    requires lo <= b.keywordMatch <= hi && lo <= b.technicalSkills <= hi && lo <= b.experience <= hi
    requires lo <= b.formatting <= hi && lo <= b.atsCompatibility <= hi
    ensures lo <= Overall(b) <= hi
  {
    var sum := 30 * b.keywordMatch + 25 * b.technicalSkills + 20 * b.experience + 10 * b.formatting
      + 15 * b.atsCompatibility;
    RoundDivAtLeast(sum, 100, lo);
    RoundDivAtMost(sum, 100, hi);
  }

  /** An overall score of 100 needs a keyword match of at least 99 and a technical score of at least 98. */
  lemma PerfectOverall(b: Breakdown)
    requires InRange(b) && Overall(b) == 100
    ensures b.keywordMatch >= 99 && b.technicalSkills >= 98
  {
  }

  /** The experience score never drops below 50, so the overall score never drops below 10. */
  lemma OverallFloor(b: Breakdown)
    requires InRange(b) && b.experience >= 50
    ensures Overall(b) >= 10
  {
    var sum := 30 * b.keywordMatch + 25 * b.technicalSkills + 20 * b.experience + 10 * b.formatting
      + 15 * b.atsCompatibility;
    RoundDivAtLeast(sum, 100, 10);
  }

  /** `determineRank`. */
  function DetermineRank(score: int): (r: Rank)
    ensures r == Excellent <==> score >= 85
    ensures r == Good <==> 70 <= score < 85
    ensures r == Fair <==> 50 <= score < 70
    ensures r == Poor <==> score < 50
  {
    if score >= 85 then Excellent else if score >= 70 then Good else if score >= 50 then Fair else Poor
  }

  function RankOrder(r: Rank): nat
  {
    match r
    case Excellent => 0
    case Good => 1
    case Fair => 2
    case Poor => 3
  }

  /** A higher score never gets a worse rank. */
  lemma RankMonotone(a: int, b: int)
    requires a <= b
    ensures RankOrder(DetermineRank(b)) <= RankOrder(DetermineRank(a))
  {
  }

  // ---------------------------------------------------------------- recommendations

  // The longer lines are written as concatenations of pieces of at most 45 characters each.
  const KeywordLead := "Add these important keywords: "
  const TechnicalAdvice := "Strengthen technical skills section " + "with more relevant technologies and tools"
  const ActionVerbAdvice := "Add more quantifiable achievements " + "and use strong action verbs"
  const MetricsAdvice := "Include specific metrics and " + "results from your experience"
  const ExperienceAdvice: seq<string> := [ActionVerbAdvice, MetricsAdvice]
  const StructureAdvice := "Improve resume structure " + "with clear sections: "
    + "Summary, Experience, Education, Skills"
  const BulletAdvice := "Use bullet points and " + "consistent formatting throughout"
  const FormattingAdvice: seq<string> := [StructureAdvice, BulletAdvice]
  const HeaderAdvice := "Use standard section headers " + "that ATS systems can recognize"
  const DensityAdvice := "Include more keywords " + "naturally in your content"
  const PlainAdvice := "Avoid complex formatting, " + "tables, and special characters"
  const AtsAdvice: seq<string> := [HeaderAdvice, DensityAdvice, PlainAdvice]
  const ExcellentNote := "Your resume is excellent! Consider " + "tailoring the summary for this specific role"

  /** `(k.importance || 0) > 1.5`: the keywords above three half-points, in order. */
  function Important(ks: seq<Keyword>): (r: seq<Keyword>)
    ensures forall k :: k in r <==> k in ks && k.importance > 3
    ensures IsSubsequence(r, ks)
  {
    if |ks| == 0 then []
    else if ks[0].importance > 3 then [ks[0]] + Important(ks[1..])
    else Important(ks[1..])
  }

  /** The first five important missing keywords. */
  function TopMissing(missing: seq<Keyword>): (t: seq<Keyword>)
    ensures |t| == Min(5, |Important(missing)|)
    ensures t == Important(missing)[..|t|]
    ensures forall k :: k in t ==> k in missing && k.importance > 3
  {
    Take(Important(missing), 5)
  }

  /** The line naming the important missing keywords, when the keyword match is below 70 and there are any. */
  function KeywordLine(b: Breakdown, missing: seq<Keyword>): (r: seq<string>)
    ensures |r| <= 1
    ensures forall l :: l in r ==> StartsWith(l, KeywordLead)
    ensures r != [] <==> b.keywordMatch < 70 && Important(missing) != []
    ensures r != [] ==> r[0] == KeywordLead + Join(RA.Texts(TopMissing(missing)), ", ")
  {
    var top := TopMissing(missing);
    if b.keywordMatch < 70 && |top| > 0 then
      var line := KeywordLead + Join(RA.Texts(top), ", ");
      assert line[..|KeywordLead|] == KeywordLead;
      [line]
    else []
  }

  /** The fixed blocks of advice, one for each sub-score below 70. */
  function FixedAdvice(b: Breakdown): (r: seq<string>)
    ensures |r| <= 8
    ensures forall l :: l in r ==> l in FixedLines
  {
    (if b.technicalSkills < 70 then [TechnicalAdvice] else [])
    + (if b.experience < 70 then ExperienceAdvice else [])
    + (if b.formatting < 70 then FormattingAdvice else [])
    + (if b.atsCompatibility < 70 then AtsAdvice else [])
  }

  /** The advice of `generateRecommendations` before its closing note. */
  function Advice(b: Breakdown, missing: seq<Keyword>): (r: seq<string>)
    ensures |r| <= 9
  {
    KeywordLine(b, missing) + FixedAdvice(b)
  }

  /** `generateRecommendations` taking the branch without the recursive call: the advice, and the closing note
      when both the keyword match and the technical score reach 90. */
  function Recommendations(b: Breakdown, missing: seq<Keyword>): (r: seq<string>)
    ensures |r| <= 10
  {
    Advice(b, missing) + (if b.keywordMatch >= 90 && b.technicalSkills >= 90 then [ExcellentNote] else [])
  }

  /** Every line of fixed text, none of which could be taken for the keyword line. */
  const FixedLines: seq<string> := [TechnicalAdvice] + ExperienceAdvice + FormattingAdvice + AtsAdvice + [ExcellentNote]

  lemma FixedLinesApart()
    ensures forall l :: l in FixedLines ==> !StartsWith(l, KeywordLead)
  {
    NotKeywordLine(TechnicalAdvice);
    NotKeywordLine(ActionVerbAdvice);
    NotKeywordLine(MetricsAdvice);
    NotKeywordLine(StructureAdvice);
    NotKeywordLine(BulletAdvice);
    NotKeywordLine(HeaderAdvice);
    NotKeywordLine(DensityAdvice);
    NotKeywordLine(PlainAdvice);
    NotKeywordLine(ExcellentNote);
  }

  /** A line whose fifth character differs from the keyword lead's does not start with it. */
  lemma NotKeywordLine(l: string)
    requires |l| > 4 && l[4] != KeywordLead[4]
    ensures !StartsWith(l, KeywordLead)
  {
    if |KeywordLead| <= |l| {
      assert l[..|KeywordLead|][4] == l[4];
    }
  }

  /** The fixed lines have pairwise different lengths, hence are pairwise different. */
  lemma FixedLineLengths()
    ensures |TechnicalAdvice| == 77 && |ExcellentNote| == 79
    ensures |ActionVerbAdvice| == 62 && |MetricsAdvice| == 57
    ensures |StructureAdvice| == 84 && |BulletAdvice| == 54
    ensures |HeaderAdvice| == 59 && |DensityAdvice| == 47 && |PlainAdvice| == 56
  {
  }

  /** A line is among the fixed advice exactly when its block is. */
  lemma InFixedAdvice(b: Breakdown, l: string)
    ensures l in FixedAdvice(b) <==>
      (l == TechnicalAdvice && b.technicalSkills < 70) || (l in ExperienceAdvice && b.experience < 70)
      || (l in FormattingAdvice && b.formatting < 70) || (l in AtsAdvice && b.atsCompatibility < 70)
  {
  }

  /** A line of fixed text is recommended exactly when it is among the fixed advice or is the closing note. */
  lemma FixedLineIn(b: Breakdown, missing: seq<Keyword>, l: string)
    requires l in FixedLines
    ensures l in Recommendations(b, missing) <==>
      l in FixedAdvice(b) || (l == ExcellentNote && b.keywordMatch >= 90 && b.technicalSkills >= 90)
  {
    FixedLinesApart();
  }

  /** The keyword line appears exactly when the keyword match is below 70 and an important keyword is missing. */
  lemma RecommendationsKeywordLine(b: Breakdown, missing: seq<Keyword>)
    ensures (exists l :: l in Recommendations(b, missing) && StartsWith(l, KeywordLead)) <==>
      b.keywordMatch < 70 && Important(missing) != []
  {
    FixedLinesApart();
    var r := Recommendations(b, missing);
    if exists l :: l in r && StartsWith(l, KeywordLead) {
      var l :| l in r && StartsWith(l, KeywordLead);
      assert l in KeywordLine(b, missing) || l in FixedAdvice(b) || l == ExcellentNote;
    }
    if b.keywordMatch < 70 && Important(missing) != [] {
      assert KeywordLine(b, missing)[0] in r;
    }
  }

  /** The technical advice appears exactly when the technical score is below 70. */
  lemma RecommendationsTechnical(b: Breakdown, missing: seq<Keyword>)
    ensures TechnicalAdvice in Recommendations(b, missing) <==> b.technicalSkills < 70
  {
    FixedLineLengths();
    InFixedAdvice(b, TechnicalAdvice);
    FixedLineIn(b, missing, TechnicalAdvice);
  }

  /** Both experience lines appear exactly when the experience score is below 70. */
  lemma RecommendationsExperience(b: Breakdown, missing: seq<Keyword>)
    ensures ActionVerbAdvice in Recommendations(b, missing) <==> b.experience < 70
    ensures MetricsAdvice in Recommendations(b, missing) <==> b.experience < 70
  {
    FixedLineLengths();
    InFixedAdvice(b, ActionVerbAdvice);
    FixedLineIn(b, missing, ActionVerbAdvice);
    InFixedAdvice(b, MetricsAdvice);
    FixedLineIn(b, missing, MetricsAdvice);
  }

  /** Both formatting lines appear exactly when the formatting score is below 70. */
  lemma RecommendationsFormatting(b: Breakdown, missing: seq<Keyword>)
    ensures StructureAdvice in Recommendations(b, missing) <==> b.formatting < 70
    ensures BulletAdvice in Recommendations(b, missing) <==> b.formatting < 70
  {
    FixedLineLengths();
    InFixedAdvice(b, StructureAdvice);
    FixedLineIn(b, missing, StructureAdvice);
    InFixedAdvice(b, BulletAdvice);
    FixedLineIn(b, missing, BulletAdvice);
  }

  /** The three ATS lines appear exactly when the ATS score is below 70. */
  lemma RecommendationsAts(b: Breakdown, missing: seq<Keyword>)
    ensures HeaderAdvice in Recommendations(b, missing) <==> b.atsCompatibility < 70
    ensures DensityAdvice in Recommendations(b, missing) <==> b.atsCompatibility < 70
    ensures PlainAdvice in Recommendations(b, missing) <==> b.atsCompatibility < 70
  {
    FixedLineLengths();
    InFixedAdvice(b, HeaderAdvice);
    FixedLineIn(b, missing, HeaderAdvice);
    InFixedAdvice(b, DensityAdvice);
    FixedLineIn(b, missing, DensityAdvice);
    InFixedAdvice(b, PlainAdvice);
    FixedLineIn(b, missing, PlainAdvice);
  }

  /** The closing note appears exactly when the keyword and technical scores both reach 90. */
  lemma RecommendationsExcellent(b: Breakdown, missing: seq<Keyword>)
    ensures ExcellentNote in Recommendations(b, missing) <==> b.keywordMatch >= 90 && b.technicalSkills >= 90
  {
    FixedLineLengths();
    InFixedAdvice(b, ExcellentNote);
    FixedLineIn(b, missing, ExcellentNote);
  }

  // ---------------------------------------------------------------- comprehensive score

  function BreakdownOf(resumeText: string, jobText: string, matched: seq<Keyword>, allJobKeywords: seq<Keyword>)
    : (b: Breakdown)
    ensures InRange(b)
    ensures 50 <= b.experience
    ensures b.keywordMatch == KeywordMatchScore(matched, allJobKeywords)
    ensures b.technicalSkills == TechnicalSkillsScore(matched, allJobKeywords)
    ensures b.experience == ExperienceScore(resumeText, jobText)
    ensures b.formatting == FormattingScore(resumeText)
    ensures b.atsCompatibility == AtsScore(resumeText, matched)
  {
    Breakdown(
      KeywordMatchScore(matched, allJobKeywords),
      TechnicalSkillsScore(matched, allJobKeywords),
      ExperienceScore(resumeText, jobText),
      FormattingScore(resumeText),
      AtsScore(resumeText, matched))
  }

  /** `calculateComprehensiveScore`, with the recommendations that `generateRecommendations` evidently intends
      (see `ComprehensiveAsWritten` for the code as written). */
  function ComprehensiveScore(resumeText: string, jobText: string, matched: seq<Keyword>, missing: seq<Keyword>,
                              allJobKeywords: seq<Keyword>): (r: ScoringResult)
    ensures InRange(r.breakdown) && 0 <= r.overallScore <= 100
    ensures r.overallScore >= 10
    ensures r.breakdown == BreakdownOf(resumeText, jobText, matched, allJobKeywords)
    ensures r.overallScore == Overall(r.breakdown)
    ensures r.rank == DetermineRank(r.overallScore)
    ensures r.recommendations == Recommendations(r.breakdown, missing)
  {
    var b := BreakdownOf(resumeText, jobText, matched, allJobKeywords);
    var overall := Overall(b);
    OverallFloor(b);
    ScoringResult(overall, b, Recommendations(b, missing), DetermineRank(overall))
  }

  /** `generateRecommendations` as written, given whether it has all its optional arguments (the texts are
      non-empty; the keyword arrays are always truthy) and the result of the nested `calculateComprehensiveScore`
      it then calls, `None` when that call does not return. */
  function RecommendationsAsWritten(b: Breakdown, missing: seq<Keyword>, hasAllData: bool,
                                    nested: Option<ScoringResult>): (r: Option<seq<string>>)
    ensures !hasAllData ==> r == Some(Recommendations(b, missing))
    ensures hasAllData ==> (r.None? <==> nested.None?)
  {
    if hasAllData then
      match nested
      case None => None
      case Some(result) =>
        var excellent := result.overallScore == 100 || (b.keywordMatch >= 90 && b.technicalSkills >= 90);
        Some(Advice(b, missing) + (if excellent then [ExcellentNote] else []))
    else Some(Recommendations(b, missing))
  }

  /** `calculateComprehensiveScore` as written: with both texts non-empty, `generateRecommendations` calls it
      again on the same arguments. `fuel` is the remaining depth of the call stack, and `None` means it ran out. */
  function ComprehensiveAsWritten(resumeText: string, jobText: string, matched: seq<Keyword>, missing: seq<Keyword>,
                                  allJobKeywords: seq<Keyword>, fuel: nat): (r: Option<ScoringResult>)
    ensures resumeText == "" || jobText == "" ==>
      r == Some(ComprehensiveScore(resumeText, jobText, matched, missing, allJobKeywords))
    decreases fuel
  {
    var hasAllData := resumeText != "" && jobText != "";
    var nested :=
      if hasAllData && fuel > 0 then ComprehensiveAsWritten(resumeText, jobText, matched, missing, allJobKeywords, fuel - 1)
      else None;
    ResultAsWritten(resumeText, jobText, matched, missing, allJobKeywords, nested)
  }

  /** The result `calculateComprehensiveScore` as written builds once the nested call it makes has come back
      with `nested`. */
  function ResultAsWritten(resumeText: string, jobText: string, matched: seq<Keyword>, missing: seq<Keyword>,
                           allJobKeywords: seq<Keyword>, nested: Option<ScoringResult>): (r: Option<ScoringResult>)
    ensures resumeText == "" || jobText == "" ==>
      r == Some(ComprehensiveScore(resumeText, jobText, matched, missing, allJobKeywords))
    ensures resumeText != "" && jobText != "" ==> (r.None? <==> nested.None?)
  {
    var b := BreakdownOf(resumeText, jobText, matched, allJobKeywords);
    var overall := Overall(b);
    match RecommendationsAsWritten(b, missing, resumeText != "" && jobText != "", nested)
    case None => None
    case Some(recs) => Some(ScoringResult(overall, b, recs, DetermineRank(overall)))
  }

  /** With both texts non-empty the code as written never returns, however deep the stack. */
  lemma {:induction false} AsWrittenNeverReturns(resumeText: string, jobText: string, matched: seq<Keyword>,
                                                 missing: seq<Keyword>, allJobKeywords: seq<Keyword>, fuel: nat)
    requires resumeText != "" && jobText != ""
    ensures ComprehensiveAsWritten(resumeText, jobText, matched, missing, allJobKeywords, fuel).None?
    decreases fuel
  {
    if fuel > 0 {
      AsWrittenNeverReturns(resumeText, jobText, matched, missing, allJobKeywords, fuel - 1);
    }
  }

  /** The recursive branch would add the closing note when the overall score is 100 or both the keyword and the
      technical score reach 90. A score of 100 already implies the second condition, so that branch means
      exactly what the non-recursive branch, and `Recommendations`, computes. */
  lemma IntendedRecommendations(b: Breakdown, missing: seq<Keyword>)
    requires InRange(b)
    ensures Advice(b, missing) + (if Overall(b) == 100 || (b.keywordMatch >= 90 && b.technicalSkills >= 90)
      then [ExcellentNote] else []) == Recommendations(b, missing)
  {
    if Overall(b) == 100 {
      PerfectOverall(b);
    }
  }

  // ---------------------------------------------------------------- comparing versions

  /** `ks.map(k => k.text.toLowerCase())`. */
  function Keys(ks: seq<Keyword>): (keys: seq<string>)
    ensures |keys| == |ks|
    ensures forall i :: 0 <= i < |ks| ==> keys[i] == Key(ks[i])
  {
    seq(|ks|, i requires 0 <= i < |ks| => Key(ks[i]))
  }

  /** `new Set(ks.map(k => k.text.toLowerCase()))`, in insertion order. */
  function KeysOf(ks: seq<Keyword>): (r: seq<string>)
    ensures NoDups(r)
    ensures forall x :: x in r <==> exists k :: k in ks && Key(k) == x
    ensures IsSubsequence(r, Keys(ks)) && FirstOccurrenceOrder(r, Keys(ks))
  {
    var keys := Keys(ks);
    assert forall x :: x in keys <==> exists k :: k in ks && Key(k) == x by {
      forall x | x in keys ensures exists k :: k in ks && Key(k) == x {
        var i :| 0 <= i < |keys| && keys[i] == x;
        assert ks[i] in ks;
      }
      forall k | k in ks ensures Key(k) in keys {
        var i :| 0 <= i < |ks| && ks[i] == k;
        assert keys[i] == Key(k);
      }
    }
    Dedup(keys)
  }

  datatype Comparison = Comparison(added: seq<string>, removed: seq<string>, lengthChange: int, scoreChange: int)

  /** `compareResumeVersions`: the lower-cased keywords only the second version has and those only the first
      has, the change in word count, and the change in the number of keywords. */
  function CompareVersions(text1: string, keywords1: seq<Keyword>, text2: string, keywords2: seq<Keyword>)
    : (c: Comparison)
    ensures forall x :: x in c.added <==> x in KeysOf(keywords2) && x !in KeysOf(keywords1)
    ensures forall x :: x in c.removed <==> x in KeysOf(keywords1) && x !in KeysOf(keywords2)
    ensures forall x :: x in c.added ==> x !in c.removed
    ensures NoDups(c.added) && NoDups(c.removed)
    ensures IsSubsequence(c.added, KeysOf(keywords2)) && IsSubsequence(c.removed, KeysOf(keywords1))
    ensures c.lengthChange == WordCount(text2) - WordCount(text1)
    ensures c.scoreChange == |keywords2| - |keywords1|
  {
    var k1, k2 := KeysOf(keywords1), KeysOf(keywords2);
    Comparison(
      Select(k2, set x | x in k1, false),
      Select(k1, set x | x in k2, false),
      WordCount(text2) - WordCount(text1),
      |keywords2| - |keywords1|)
  }

  /** Comparing the versions the other way round swaps what was added and removed and negates both changes. */
  lemma CompareSwapped(text1: string, keywords1: seq<Keyword>, text2: string, keywords2: seq<Keyword>)
    ensures CompareVersions(text2, keywords2, text1, keywords1).added == CompareVersions(text1, keywords1, text2, keywords2).removed
    ensures CompareVersions(text2, keywords2, text1, keywords1).removed == CompareVersions(text1, keywords1, text2, keywords2).added
    ensures CompareVersions(text2, keywords2, text1, keywords1).lengthChange == -CompareVersions(text1, keywords1, text2, keywords2).lengthChange
    ensures CompareVersions(text2, keywords2, text1, keywords1).scoreChange == -CompareVersions(text1, keywords1, text2, keywords2).scoreChange
  {
  }

  /** A version compared with itself adds and removes nothing and changes nothing. */
  lemma CompareSelf(text: string, keywords: seq<Keyword>)
    ensures CompareVersions(text, keywords, text, keywords) == Comparison([], [], 0, 0)
  {
    var c := CompareVersions(text, keywords, text, keywords);
    assert forall i :: 0 <= i < |c.added| ==> c.added[i] in c.added;
    assert forall i :: 0 <= i < |c.removed| ==> c.removed[i] in c.removed;
  }

  // ---------------------------------------------------------------- optimisation plan

  datatype Priority = High | Medium | Low

  function PriorityOrder(p: Priority): nat
  {
    match p
    case High => 0
    case Medium => 1
    case Low => 2
  }

  datatype PlanItem = PlanItem(priority: Priority, action: string, impact: string)

  const TechnicalAction := "Expand technical skills section with project examples"
  const ExperienceAction := "Add quantifiable metrics to your achievements"
  const AtsAction := "Restructure with standard ATS-friendly section headers"
  const FormattingAction := "Improve formatting consistency and add bullet points"

  /** The five steps the plan can hold. The keyword step names the first five missing keywords. */
  function KeywordStep(missing: seq<Keyword>): PlanItem
  {
    PlanItem(High, "Add " + Join(RA.Texts(Take(missing, 5)), ", ") + " to your resume", "+15-20 points")
  }

  const TechnicalStep := PlanItem(High, TechnicalAction, "+10-15 points")
  const ExperienceStep := PlanItem(Medium, ExperienceAction, "+8-12 points")
  const AtsStep := PlanItem(Medium, AtsAction, "+10-15 points")
  const FormattingStep := PlanItem(Low, FormattingAction, "+5-8 points")

  /** The items of priority High, Medium and Low, each in the order the source pushes them. */
  function HighItems(b: Breakdown, missing: seq<Keyword>): (items: seq<PlanItem>)
    ensures |items| <= 2
    ensures forall i :: 0 <= i < |items| ==> items[i].priority == High
  {
    (if b.keywordMatch < 60 then [KeywordStep(missing)] else [])
    + (if b.technicalSkills < 60 then [TechnicalStep] else [])
  }

  function MediumItems(b: Breakdown): (items: seq<PlanItem>)
    ensures |items| <= 2
    ensures forall i :: 0 <= i < |items| ==> items[i].priority == Medium
  {
    (if b.experience < 70 then [ExperienceStep] else [])
    + (if b.atsCompatibility < 70 then [AtsStep] else [])
  }

  function LowItems(b: Breakdown): (items: seq<PlanItem>)
    ensures |items| <= 1
    ensures forall i :: 0 <= i < |items| ==> items[i].priority == Low
  {
    if b.formatting < 70 then [FormattingStep] else []
  }

  predicate SortedByPriority(items: seq<PlanItem>)
  {
    forall i, j :: 0 <= i < j < |items| ==> PriorityOrder(items[i].priority) <= PriorityOrder(items[j].priority)
  }

  /** The items in the order the source pushes them, which is already priority order. */
  function PlanItems(b: Breakdown, missing: seq<Keyword>): (items: seq<PlanItem>)
    ensures |items| <= 5
    ensures SortedByPriority(items)
  {
    var hi, me, lo := HighItems(b, missing), MediumItems(b), LowItems(b);
    var items := hi + me + lo;
    assert forall k :: 0 <= k < |items| ==>
      PriorityOrder(items[k].priority) == (if k < |hi| then 0 else if k < |hi| + |me| then 1 else 2) by {
      forall k | 0 <= k < |items|
        ensures PriorityOrder(items[k].priority) == (if k < |hi| then 0 else if k < |hi| + |me| then 1 else 2)
      {
        if k < |hi| {
          assert items[k] == hi[k];
        } else if k < |hi| + |me| {
          assert items[k] == me[k - |hi|];
        } else {
          assert items[k] == lo[k - |hi| - |me|];
        }
      }
    }
    items
  }

  /** Insertion before the first item of the same or a lower priority, so that `x`, which came first, stays
      ahead of the items that tie with it. */
  function InsertItem(x: PlanItem, sorted: seq<PlanItem>): (r: seq<PlanItem>)
    ensures multiset(r) == multiset(sorted) + multiset{x}
  {
    if |sorted| == 0 || PriorityOrder(x.priority) <= PriorityOrder(sorted[0].priority) then [x] + sorted
    else
      assert sorted == [sorted[0]] + sorted[1..];
      [sorted[0]] + InsertItem(x, sorted[1..])
  }

  lemma {:induction false} InsertItemSorted(x: PlanItem, sorted: seq<PlanItem>)
    requires SortedByPriority(sorted)
    ensures SortedByPriority(InsertItem(x, sorted))
  {
    if |sorted| > 0 && PriorityOrder(x.priority) > PriorityOrder(sorted[0].priority) {
      var rest := InsertItem(x, sorted[1..]);
      InsertItemSorted(x, sorted[1..]);
      InsertItemAtLeast(x, sorted[1..], PriorityOrder(sorted[0].priority));
      var r := [sorted[0]] + rest;
      assert forall j :: 0 < j < |r| ==> r[j] == rest[j - 1];
    }
  }

  /** Inserting an item no more urgent than `floor` into items no more urgent than `floor` keeps them so. */
  lemma {:induction false} InsertItemAtLeast(x: PlanItem, sorted: seq<PlanItem>, floor: int)
    requires PriorityOrder(x.priority) >= floor
    requires forall i :: 0 <= i < |sorted| ==> PriorityOrder(sorted[i].priority) >= floor
    ensures forall i :: 0 <= i < |InsertItem(x, sorted)| ==> PriorityOrder(InsertItem(x, sorted)[i].priority) >= floor
  {
    if |sorted| > 0 && PriorityOrder(x.priority) > PriorityOrder(sorted[0].priority) {
      InsertItemAtLeast(x, sorted[1..], floor);
      var rest := InsertItem(x, sorted[1..]);
      assert forall j :: 0 < j <= |rest| ==> ([sorted[0]] + rest)[j] == rest[j - 1];
    }
  }

  /** `Array.prototype.sort` with the priority comparator, which is stable: an insertion sort. */
  function SortByPriority(items: seq<PlanItem>): (r: seq<PlanItem>)
    ensures multiset(r) == multiset(items)
  {
    if |items| == 0 then []
    else
      assert items == [items[0]] + items[1..];
      InsertItem(items[0], SortByPriority(items[1..]))
  }

  lemma {:induction false} SortByPrioritySorted(items: seq<PlanItem>)
    ensures SortedByPriority(SortByPriority(items))
  {
    if |items| > 0 {
      SortByPrioritySorted(items[1..]);
      InsertItemSorted(items[0], SortByPriority(items[1..]));
    }
  }

  /** Sorting a list that is already in priority order leaves it as it is. */
  lemma {:induction false} SortSortedIdentity(items: seq<PlanItem>)
    requires SortedByPriority(items)
    ensures SortByPriority(items) == items
  {
    if |items| > 0 {
      var rest := items[1..];
      assert SortedByPriority(rest) by {
        assert forall i, j :: 0 <= i < j < |rest| ==> rest[i] == items[i + 1] && rest[j] == items[j + 1];
      }
      SortSortedIdentity(rest);
      assert items == [items[0]] + rest;
    }
  }

  /** `generateOptimizationPlan`: at most five items in priority order. The source pushes them in that order
      already, so its sort changes nothing. */
  function OptimizationPlan(currentScore: int, b: Breakdown, missing: seq<Keyword>): (plan: seq<PlanItem>)
    ensures |plan| <= 5
    ensures SortedByPriority(plan)
    ensures plan == HighItems(b, missing) + MediumItems(b) + LowItems(b)
  {
    var items := PlanItems(b, missing);
    SortSortedIdentity(items);
    SortByPriority(items)
  }

  /** Each step is in the plan exactly when its score is below its threshold: keywords and technical skills
      below 60, experience, ATS compatibility and formatting below 70. */
  lemma PlanSteps(currentScore: int, b: Breakdown, missing: seq<Keyword>)
    ensures KeywordStep(missing) in OptimizationPlan(currentScore, b, missing) <==> b.keywordMatch < 60
    ensures TechnicalStep in OptimizationPlan(currentScore, b, missing) <==> b.technicalSkills < 60
    ensures ExperienceStep in OptimizationPlan(currentScore, b, missing) <==> b.experience < 70
    ensures AtsStep in OptimizationPlan(currentScore, b, missing) <==> b.atsCompatibility < 70
    ensures FormattingStep in OptimizationPlan(currentScore, b, missing) <==> b.formatting < 70
  {
    PlanHigh(currentScore, b, missing, KeywordStep(missing));
    PlanHigh(currentScore, b, missing, TechnicalStep);
    PlanMedium(currentScore, b, missing, ExperienceStep);
    PlanMedium(currentScore, b, missing, AtsStep);
    PlanLow(currentScore, b, missing, FormattingStep);
    PairIn(HighItems(b, missing), KeywordStep(missing), TechnicalStep, b.keywordMatch < 60, b.technicalSkills < 60);
    PairIn(MediumItems(b), ExperienceStep, AtsStep, b.experience < 70, b.atsCompatibility < 70);
  }

  /** The plan holds nothing but the five steps. */
  lemma PlanOnly(currentScore: int, b: Breakdown, missing: seq<Keyword>)
    ensures forall it :: it in OptimizationPlan(currentScore, b, missing) ==>
      it in [KeywordStep(missing), TechnicalStep, ExperienceStep, AtsStep, FormattingStep]
  {
    var hi, me, lo := HighItems(b, missing), MediumItems(b), LowItems(b);
    var steps := [KeywordStep(missing), TechnicalStep, ExperienceStep, AtsStep, FormattingStep];
    assert forall it :: it in hi ==> it in steps;
    assert forall it :: it in me ==> it in steps;
    assert forall it :: it in lo ==> it in steps;
    forall it | it in OptimizationPlan(currentScore, b, missing)
      ensures it in steps
    {
      assert it in hi + me + lo;
    }
  }

  /** A High item is in the plan exactly when it is among the High items; likewise for Medium and Low. */
  lemma PlanHigh(currentScore: int, b: Breakdown, missing: seq<Keyword>, x: PlanItem)
    requires x.priority == High
    ensures x in OptimizationPlan(currentScore, b, missing) <==> x in HighItems(b, missing)
  {
    assert x !in MediumItems(b) + LowItems(b);
  }

  lemma PlanMedium(currentScore: int, b: Breakdown, missing: seq<Keyword>, x: PlanItem)
    requires x.priority == Medium
    ensures x in OptimizationPlan(currentScore, b, missing) <==> x in MediumItems(b)
  {
    assert x !in HighItems(b, missing) && x !in LowItems(b);
  }

  lemma PlanLow(currentScore: int, b: Breakdown, missing: seq<Keyword>, x: PlanItem)
    requires x.priority == Low
    ensures x in OptimizationPlan(currentScore, b, missing) <==> x in LowItems(b)
  {
    assert x !in HighItems(b, missing) + MediumItems(b);
  }

  /** Two different items, each pushed when its condition holds, are each present exactly when it does. */
  lemma PairIn(r: seq<PlanItem>, x: PlanItem, y: PlanItem, cx: bool, cy: bool)
    requires x != y
    requires r == (if cx then [x] else []) + (if cy then [y] else [])
    ensures x in r <==> cx
    ensures y in r <==> cy
  {
  }
}
