/** The match between a résumé and a job description (src/utils/resumeAnalyzer.ts): the job's keywords are split
    into those the résumé also has and those it lacks, the share found becomes a percentage score, and a short
    list of suggestions is derived from the score and the missing keywords. */
module ResumeAnalyzer {
  import opened Common
  import opened Strings
  import opened KeywordExtractor

  datatype ResumeAnalysis = ResumeAnalysis(
    score: int,
    matched: seq<Keyword>,
    missing: seq<Keyword>,
    suggestions: seq<string>)

  /** The lower-cased texts of the résumé's keywords. */
  function KeySet(ks: seq<Keyword>): (keys: set<string>)
    ensures forall k :: k in ks ==> Key(k) in keys
    ensures forall key :: key in keys ==> exists k :: k in ks && Key(k) == key
  {
    set k | k in ks :: Key(k)
  }

  /** The keywords whose key is (`wanted`) or is not (`!wanted`) among `keys`, in order. */
  function Having(ks: seq<Keyword>, keys: set<string>, wanted: bool): seq<Keyword>
  {
    if |ks| == 0 then []
    else (if (Key(ks[0]) in keys) == wanted then [ks[0]] else []) + Having(ks[1..], keys, wanted)
  }

  /** The forEach that files each job keyword under matched or missing. */
  function Partition(job: seq<Keyword>, keys: set<string>): (r: (seq<Keyword>, seq<Keyword>))
    ensures |r.0| + |r.1| == |job|
    decreases |job|
  {
    if |job| == 0 then ([], [])
    else
      var init := job[..|job| - 1];
      var k := job[|job| - 1];
      assert job == init + [k];
      var (m, x) := Partition(init, keys);
      if Key(k) in keys then (m + [k], x) else (m, x + [k])
  }

  lemma {:induction false} HavingAppend(ks: seq<Keyword>, k: Keyword, keys: set<string>, wanted: bool)
    ensures Having(ks + [k], keys, wanted) == Having(ks, keys, wanted) + Having([k], keys, wanted)
    decreases |ks|
  {
    if |ks| == 0 {
      assert ks + [k] == [k];
    } else {
      HavingAppend(ks[1..], k, keys, wanted);
      assert (ks + [k])[0] == ks[0];
      assert (ks + [k])[1..] == ks[1..] + [k];
    }
  }

  /** The partition files every job keyword, in order, by whether the résumé has its key. */
  lemma {:induction false} PartitionFilters(job: seq<Keyword>, keys: set<string>)
    ensures Partition(job, keys).0 == Having(job, keys, true)
    ensures Partition(job, keys).1 == Having(job, keys, false)
    decreases |job|
  {
    if |job| > 0 {
      var init := job[..|job| - 1];
      var k := job[|job| - 1];
      PartitionFilters(init, keys);
      HavingAppend(init, k, keys, true);
      HavingAppend(init, k, keys, false);
      assert Having([k], keys, true) == (if Key(k) in keys then [k] else []) + Having([], keys, true);
      assert Having([k], keys, false) == (if Key(k) in keys then [] else [k]) + Having([], keys, false);
      assert job == init + [k];
    }
  }

  // ---------------------------------------------------------------- suggestions

  // The longer lines are written as concatenations of pieces of at most 45 characters each.
  const LowMatch := "Your resume has significant gaps compared " + "to the job requirements. "
    + "Consider tailoring it more closely."
  const FairMatch := "Good match, " + "but there is room for improvement."
  const StrongMatch := "Excellent match! " + "Your resume aligns well with the job requirements."
  const ActionAdvice := "Use action verbs and " + "quantify achievements where possible."
  const TechnicalLead := "Add technical skills: "
  const SoftLead := "Highlight soft skills: "
  const CertificationLead := "Consider mentioning: "

  /** The headline for a score: below 50, below 75, or otherwise. */
  function Headline(score: int): (h: string)
    ensures h == StrongMatch <==> score >= 75
    ensures h == FairMatch <==> 50 <= score < 75
    ensures h == LowMatch <==> score < 50
  {
    if score < 50 then LowMatch else if score < 75 then FairMatch else StrongMatch
  }

  function Texts(ks: seq<Keyword>): (ts: seq<string>)
    ensures |ts| == |ks|
    ensures forall i :: 0 <= i < |ks| ==> ts[i] == ks[i].text
  {
    seq(|ks|, i requires 0 <= i < |ks| => ks[i].text)
  }

  /** A line naming up to `limit` missing keywords of one category, or nothing when the category has none. */
  function CategoryLine(missing: seq<Keyword>, c: Category, limit: nat, lead: string): (r: seq<string>)
    ensures |r| <= 1
    ensures r != [] <==> exists k :: k in missing && k.category == c
    ensures r != [] ==> r[0] == lead + Join(Texts(Take(OfCategory(missing, c), limit)), ", ")
    requires limit > 0
  {
    OfCategoryEmpty(missing, c);
    var ks := Take(OfCategory(missing, c), limit);
    if |ks| > 0 then [lead + Join(Texts(ks), ", ")] else []
  }

  /** `generateSuggestions`: the banded headline, a line each for missing technical (three named), soft (three)
      and certification (two) keywords, and the general advice when anything is missing. */
  function Suggestions(missing: seq<Keyword>, score: int): (r: seq<string>)
    ensures |r| >= 1 && r[0] == Headline(score)
    ensures |r| == 1 <==> missing == []
    ensures r[|r| - 1] == ActionAdvice <==> missing != []
    ensures |r| <= 5
  {
    var lines := [Headline(score)]
      + CategoryLine(missing, Technical, 3, TechnicalLead)
      + CategoryLine(missing, Soft, 3, SoftLead)
      + CategoryLine(missing, Certification, 2, CertificationLead);
    assert missing == [] ==> lines == [Headline(score)];
    lines + (if |missing| > 0 then [ActionAdvice] else [])
  }

  /** A line whose first character differs from the lead's does not start with it. */
  lemma NotLed(l: string, lead: string)
    requires |l| > 0 && |lead| > 0 && l[0] != lead[0]
    ensures !StartsWith(l, lead)
  {
    if |lead| <= |l| {
      assert l[..|lead|][0] == l[0];
    }
  }

  /** No line starts with two of the three leads, and neither a headline nor the general advice starts with any:
      their first characters all differ. */
  lemma LeadsApart(l: string, score: int)
    ensures StartsWith(l, TechnicalLead) ==> !StartsWith(l, SoftLead) && !StartsWith(l, CertificationLead)
    ensures StartsWith(l, SoftLead) ==> !StartsWith(l, CertificationLead)
    ensures !StartsWith(Headline(score), TechnicalLead) && !StartsWith(ActionAdvice, TechnicalLead)
    ensures !StartsWith(Headline(score), SoftLead) && !StartsWith(ActionAdvice, SoftLead)
    ensures !StartsWith(Headline(score), CertificationLead) && !StartsWith(ActionAdvice, CertificationLead)
  {
    assert TechnicalLead[0] == 'A' && SoftLead[0] == 'H' && CertificationLead[0] == 'C';
    assert Headline(score)[0] in "YGE" && ActionAdvice[0] == 'U';
    if StartsWith(l, TechnicalLead) {
      assert l[0] == l[..|TechnicalLead|][0];
      NotLed(l, SoftLead);
      NotLed(l, CertificationLead);
    }
    if StartsWith(l, SoftLead) {
      assert l[0] == l[..|SoftLead|][0];
      NotLed(l, CertificationLead);
    }
    NotLed(Headline(score), TechnicalLead);
    NotLed(Headline(score), SoftLead);
    NotLed(Headline(score), CertificationLead);
    NotLed(ActionAdvice, TechnicalLead);
    NotLed(ActionAdvice, SoftLead);
    NotLed(ActionAdvice, CertificationLead);
  }

  /** A category line starts with its lead. */
  lemma CategoryLineLed(missing: seq<Keyword>, c: Category, limit: nat, lead: string)
    requires limit > 0
    ensures forall l :: l in CategoryLine(missing, c, limit, lead) ==> StartsWith(l, lead)
  {
    var r := CategoryLine(missing, c, limit, lead);
    if r != [] {
      var names := Join(Texts(Take(OfCategory(missing, c), limit)), ", ");
      assert (lead + names)[..|lead|] == lead;
    }
  }

  /** The pieces `Suggestions` is assembled from. */
  lemma SuggestionsParts(missing: seq<Keyword>, score: int)
    ensures Suggestions(missing, score) == [Headline(score)] + CategoryLine(missing, Technical, 3, TechnicalLead)
      + CategoryLine(missing, Soft, 3, SoftLead) + CategoryLine(missing, Certification, 2, CertificationLead)
      + (if |missing| > 0 then [ActionAdvice] else [])
  {
  }

  lemma PartsOnly(r: seq<string>, h: string, t: seq<string>, so: seq<string>, ce: seq<string>, a: seq<string>)
    requires r == [h] + t + so + ce + a
    requires forall l :: l in t ==> StartsWith(l, TechnicalLead)
    requires forall l :: l in so ==> StartsWith(l, SoftLead)
    requires forall l :: l in ce ==> StartsWith(l, CertificationLead)
    requires forall l :: l in a ==> l == ActionAdvice
    ensures forall l :: l in r ==>
      l == h || l == ActionAdvice || StartsWith(l, TechnicalLead) || StartsWith(l, SoftLead)
      || StartsWith(l, CertificationLead)
  {
  }

  /** Every suggestion is the headline, a category line, or the general advice. */
  lemma SuggestionsOnly(missing: seq<Keyword>, score: int)
    ensures forall l :: l in Suggestions(missing, score) ==>
      l == Headline(score) || l == ActionAdvice
      || StartsWith(l, TechnicalLead) || StartsWith(l, SoftLead) || StartsWith(l, CertificationLead)
  {
    SuggestionsParts(missing, score);
    CategoryLineLed(missing, Technical, 3, TechnicalLead);
    CategoryLineLed(missing, Soft, 3, SoftLead);
    CategoryLineLed(missing, Certification, 2, CertificationLead);
    PartsOnly(Suggestions(missing, score), Headline(score), CategoryLine(missing, Technical, 3, TechnicalLead),
      CategoryLine(missing, Soft, 3, SoftLead), CategoryLine(missing, Certification, 2, CertificationLead),
      if |missing| > 0 then [ActionAdvice] else []);
  }

  /** The technical line is suggested exactly when a technical keyword is missing, and names the first three. */
  lemma SuggestionsTechnical(missing: seq<Keyword>, score: int)
    ensures (exists l :: l in Suggestions(missing, score) && StartsWith(l, TechnicalLead)) <==>
      exists k :: k in missing && k.category == Technical
    ensures forall l :: l in Suggestions(missing, score) && StartsWith(l, TechnicalLead) ==>
      l == TechnicalLead + Join(Texts(Take(OfCategory(missing, Technical), 3)), ", ")
  {
    var h, t := Headline(score), CategoryLine(missing, Technical, 3, TechnicalLead);
    var so, ce := CategoryLine(missing, Soft, 3, SoftLead), CategoryLine(missing, Certification, 2, CertificationLead);
    var a := if |missing| > 0 then [ActionAdvice] else [];
    var r := Suggestions(missing, score);
    FixedUnled(score, TechnicalLead);
    assert Unled(a, TechnicalLead);
    LineUnled(missing, Soft, 3, SoftLead, TechnicalLead);
    LineUnled(missing, Certification, 2, CertificationLead, TechnicalLead);
    CategoryLineLed(missing, Technical, 3, TechnicalLead);
    OnlyLineLed(r, [h], t, so, ce, a, t, TechnicalLead);
    if t != [] {
      assert t[0] in r;
    }
  }

  /** The soft-skills line is suggested exactly when a soft skill is missing, and names the first three. */
  lemma SuggestionsSoft(missing: seq<Keyword>, score: int)
    ensures (exists l :: l in Suggestions(missing, score) && StartsWith(l, SoftLead)) <==>
      exists k :: k in missing && k.category == Soft
    ensures forall l :: l in Suggestions(missing, score) && StartsWith(l, SoftLead) ==>
      l == SoftLead + Join(Texts(Take(OfCategory(missing, Soft), 3)), ", ")
  {
    var h, t := Headline(score), CategoryLine(missing, Technical, 3, TechnicalLead);
    var so, ce := CategoryLine(missing, Soft, 3, SoftLead), CategoryLine(missing, Certification, 2, CertificationLead);
    var a := if |missing| > 0 then [ActionAdvice] else [];
    var r := Suggestions(missing, score);
    FixedUnled(score, SoftLead);
    assert Unled(a, SoftLead);
    LineUnled(missing, Technical, 3, TechnicalLead, SoftLead);
    LineUnled(missing, Certification, 2, CertificationLead, SoftLead);
    CategoryLineLed(missing, Soft, 3, SoftLead);
    OnlyLineLed(r, [h], t, so, ce, a, so, SoftLead);
    if so != [] {
      assert so[0] in r;
    }
  }

  /** The certification line is suggested exactly when a certification is missing, and names the first two. */
  lemma SuggestionsCertification(missing: seq<Keyword>, score: int)
    ensures (exists l :: l in Suggestions(missing, score) && StartsWith(l, CertificationLead)) <==>
      exists k :: k in missing && k.category == Certification
    ensures forall l :: l in Suggestions(missing, score) && StartsWith(l, CertificationLead) ==>
      l == CertificationLead + Join(Texts(Take(OfCategory(missing, Certification), 2)), ", ")
  {
    var h, t := Headline(score), CategoryLine(missing, Technical, 3, TechnicalLead);
    var so, ce := CategoryLine(missing, Soft, 3, SoftLead), CategoryLine(missing, Certification, 2, CertificationLead);
    var a := if |missing| > 0 then [ActionAdvice] else [];
    var r := Suggestions(missing, score);
    FixedUnled(score, CertificationLead);
    assert Unled(a, CertificationLead);
    LineUnled(missing, Technical, 3, TechnicalLead, CertificationLead);
    LineUnled(missing, Soft, 3, SoftLead, CertificationLead);
    CategoryLineLed(missing, Certification, 2, CertificationLead);
    OnlyLineLed(r, [h], t, so, ce, a, ce, CertificationLead);
    if ce != [] {
      assert ce[0] in r;
    }
  }

  /** No line of `xs` starts with `lead`. */
  ghost predicate Unled(xs: seq<string>, lead: string)
  {
    forall l :: l in xs ==> !StartsWith(l, lead)
  }

  /** Neither a headline nor the general advice starts with a lead. */
  lemma FixedUnled(score: int, lead: string)
    requires lead in [TechnicalLead, SoftLead, CertificationLead]
    ensures Unled([Headline(score)], lead) && Unled([ActionAdvice], lead) && Unled([], lead)
  {
    LeadsApart("", score);
  }

  /** A category line does not start with another category's lead. */
  lemma LineUnled(missing: seq<Keyword>, c: Category, limit: nat, lead: string, other: string)
    requires limit > 0
    requires lead in [TechnicalLead, SoftLead, CertificationLead]
    requires other in [TechnicalLead, SoftLead, CertificationLead] && other != lead
    ensures Unled(CategoryLine(missing, c, limit, lead), other)
  {
    CategoryLineLed(missing, c, limit, lead);
    var r := CategoryLine(missing, c, limit, lead);
    if r != [] {
      LeadsApart(r[0], 0);
    }
  }

  /** In a list assembled from five parts, where no part but `line` has a line starting with `lead`, the lines
      starting with `lead` are those of `line`. */
  lemma OnlyLineLed(r: seq<string>, p0: seq<string>, p1: seq<string>, p2: seq<string>, p3: seq<string>,
                    p4: seq<string>, line: seq<string>, lead: string)
    requires r == p0 + p1 + p2 + p3 + p4
    requires line in [p1, p2, p3]
    requires Unled(p0, lead) && Unled(p4, lead)
    requires line != p1 ==> Unled(p1, lead)
    requires line != p2 ==> Unled(p2, lead)
    requires line != p3 ==> Unled(p3, lead)
    ensures forall l :: l in r && StartsWith(l, lead) ==> l in line
    ensures forall l :: l in line ==> l in r
  {
  }

  // ---------------------------------------------------------------- analysis

  /** `analyzeResume`, given the keywords extracted from the job text and from the résumé text. */
  function AnalyzeResume(job: seq<Keyword>, resume: seq<Keyword>): (a: ResumeAnalysis)
    ensures a.matched == Having(job, KeySet(resume), true)
    ensures a.missing == Having(job, KeySet(resume), false)
    ensures |a.matched| + |a.missing| == |job|
    ensures a.score == Percent(|a.matched|, |job|) && 0 <= a.score <= 100
    ensures a.suggestions == Suggestions(a.missing, a.score)
  {
    var keys := KeySet(resume);
    var (matched, missing) := Partition(job, keys);
    PartitionFilters(job, keys);
    var score := Percent(|matched|, |job|);
    ResumeAnalysis(score, matched, missing, Suggestions(missing, score))
  }

  /** A job keyword is reported as matched exactly when the résumé has a keyword with the same lower-cased text,
      and as missing otherwise. */
  lemma MatchedIff(job: seq<Keyword>, resume: seq<Keyword>, k: Keyword)
    requires k in job
    ensures k in AnalyzeResume(job, resume).matched <==> exists r :: r in resume && Key(r) == Key(k)
    ensures k in AnalyzeResume(job, resume).missing <==> !exists r :: r in resume && Key(r) == Key(k)
  {
    var keys := KeySet(resume);
    HavingMember(job, keys, true, k);
    HavingMember(job, keys, false, k);
  }

  lemma {:induction false} HavingMember(ks: seq<Keyword>, keys: set<string>, wanted: bool, k: Keyword)
    ensures k in Having(ks, keys, wanted) <==> k in ks && (Key(k) in keys <==> wanted)
    decreases |ks|
  {
    if |ks| > 0 {
      HavingMember(ks[1..], keys, wanted, k);
      assert k in ks <==> k == ks[0] || k in ks[1..];
    }
  }

  /** When the résumé covers every job keyword, nothing is missing, the score is 100 (0 for a job without
      keywords) and the only suggestion is the excellent-match headline when there are job keywords. */
  lemma FullCoverage(job: seq<Keyword>, resume: seq<Keyword>)
    requires forall k :: k in job ==> exists r :: r in resume && Key(r) == Key(k)
    ensures AnalyzeResume(job, resume).missing == []
    ensures |job| > 0 ==> AnalyzeResume(job, resume).score == 100
    ensures |job| > 0 ==> AnalyzeResume(job, resume).suggestions == [StrongMatch]
  {
    var a := AnalyzeResume(job, resume);
    if a.missing != [] {
      var k := a.missing[0];
      HavingMember(job, KeySet(resume), false, k);
      MatchedIff(job, resume, k);
    }
  }

  /** A résumé without any keyword in common with the job scores 0 and opens with the low-match headline. */
  lemma NoCoverage(job: seq<Keyword>, resume: seq<Keyword>)
    requires forall k, r :: k in job && r in resume ==> Key(r) != Key(k)
    ensures AnalyzeResume(job, resume).matched == []
    ensures AnalyzeResume(job, resume).score == 0
    ensures AnalyzeResume(job, resume).suggestions[0] == LowMatch
  {
    var a := AnalyzeResume(job, resume);
    if a.matched != [] {
      var k := a.matched[0];
      HavingMember(job, KeySet(resume), true, k);
      MatchedIff(job, resume, k);
    }
  }

  // ---------------------------------------------------------------- score display

  /** `getMatchPercentage`. */
  function MatchPercentage(matchedCount: nat, totalCount: nat): (r: int)
    ensures totalCount == 0 ==> r == 0
    ensures matchedCount <= totalCount ==> 0 <= r <= 100
    ensures 0 < totalCount && matchedCount == totalCount ==> r == 100
  {
    Percent(matchedCount, totalCount)
  }

  datatype Band = High | Medium | Low

  function BandOf(score: int): Band
  {
    if score >= 75 then High else if score >= 50 then Medium else Low
  }

  /** `getScoreColor`. */
  function ScoreColor(score: int): (c: string)
    ensures c == "text-emerald-600" <==> score >= 75
    ensures c == "text-amber-600" <==> 50 <= score < 75
    ensures c == "text-rose-600" <==> score < 50
  {
    match BandOf(score)
    case High => "text-emerald-600"
    case Medium => "text-amber-600"
    case Low => "text-rose-600"
  }

  /** `getScoreBgColor`. */
  function ScoreBgColor(score: int): (c: string)
    ensures c == "bg-emerald-100" <==> score >= 75
    ensures c == "bg-amber-100" <==> 50 <= score < 75
    ensures c == "bg-rose-100" <==> score < 50
  {
    match BandOf(score)
    case High => "bg-emerald-100"
    case Medium => "bg-amber-100"
    case Low => "bg-rose-100"
  }

  /** The text colour, the background colour and the suggestion headline all switch at the same two scores. */
  lemma DisplayAgrees(score: int)
    ensures ScoreColor(score) == "text-emerald-600" <==> Headline(score) == StrongMatch
    ensures ScoreColor(score) == "text-amber-600" <==> Headline(score) == FairMatch
    ensures ScoreBgColor(score) == "bg-amber-100" <==> Headline(score) == FairMatch
    ensures ScoreBgColor(score) == "bg-rose-100" <==> Headline(score) == LowMatch
  {
  }
}
