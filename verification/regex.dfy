/** The regular expressions of the analysis pipeline, each written out as an explicit matcher.

    `MatchAt(pat, s, p)` answers what the pattern matches when the engine tries it at position `p`: the end of the
    match or `None`. Every quantifier's backtracking has been resolved by hand; the comment on each case says why
    the greedy choice is the only one that can succeed. `Matches` is the list `String.prototype.match` returns
    with the `g` flag: the leftmost match, then the leftmost one from its end onwards. */
module Regex {
  import opened Chars
  import opened Strings
  import opened Common

  /** `s` holds `k` at `p`, ASCII letters compared without case (the `i` flag). */
  predicate CiAt(s: string, p: int, k: string)
  {
    0 <= p && p + |k| <= |s| && forall i :: 0 <= i < |k| ==> ToLower(s[p + i]) == ToLower(k[i])
  }

  /** `s` holds `k` at `p` character for character (no `i` flag). */
  predicate ExactAt(s: string, p: int, k: string)
  {
    0 <= p && p + |k| <= |s| && s[p..p + |k|] == k
  }

  /** `k` occurs in `s` ignoring case: `new RegExp(k, 'i').test(s)` for a `k` free of metacharacters. */
  predicate ContainsCi(s: string, k: string)
  {
    exists p | 0 <= p <= |s| :: CiAt(s, p, k)
  }

  /** `k` occurs in `s` exactly. */
  predicate Contains(s: string, k: string)
  {
    exists p | 0 <= p <= |s| :: ExactAt(s, p, k)
  }

  predicate WordCharAt(s: string, i: int) { 0 <= i < |s| && IsWordChar(s[i]) }

  /** `\b` holds at position `p`: exactly one of its two neighbours is a word character. */
  predicate BoundaryAt(s: string, p: int) { WordCharAt(s, p - 1) != WordCharAt(s, p) }

  /** `\bk\b` with the `i` flag matches at `p`, `k` escaped so that it stands for itself. */
  predicate WholeWordAt(s: string, p: int, k: string)
  {
    CiAt(s, p, k) && BoundaryAt(s, p) && BoundaryAt(s, p + |k|)
  }

  /** `k` occurs in `s` as a whole word: `new RegExp('\\b' + k + '\\b', 'i').test(s)`. */
  predicate HasWord(s: string, k: string)
  {
    exists p | 0 <= p <= |s| :: WholeWordAt(s, p, k)
  }

  predicate NoLineBreak(s: string, lo: int, hi: int)
    requires 0 <= lo && hi <= |s|
  {
    forall m | lo <= m < hi :: !IsLineTerminator(s[m])
  }

  /** `new RegExp(a + '.*' + b, 'i').test(s)` for literal `a` and `b`: an `a`, then a `b` at or after its end,
      with no line terminator between them, since `.` does not match one. */
  predicate FollowedOnLine(s: string, a: string, b: string)
  {
    exists i, j | 0 <= i <= |s| && 0 <= j <= |s| ::
      i + |a| <= j && CiAt(s, i, a) && CiAt(s, j, b) && NoLineBreak(s, i + |a|, j)
  }

  /** The character classes the patterns repeat. */
  datatype CharClass =
    | Digits      // \d
    | Spaces      // \s
    | Grouped     // the characters of \d{1,3}(?:,\d{3})*
    | Amount      // the characters of \d{1,3}(?:,\d{3})*(?:\.\d{2})?
    | Separators  // [\s-]
    | NotDot      // [^.]

  predicate InClass(c: char, cls: CharClass)
  {
    match cls
    case Digits => IsDigit(c)
    case Spaces => IsSpace(c)
    case Grouped => IsDigit(c) || c == ','
    case Amount => IsDigit(c) || c == ',' || c == '.'
    case Separators => IsSpace(c) || c == '-'
    case NotDot => c != '.'
  }

  /** The end of the longest run of `cls` characters starting at `p`. */
  function RunEnd(s: string, p: nat, cls: CharClass): (e: nat)
    requires p <= |s|
    ensures p <= e <= |s|
    ensures forall i :: p <= i < e ==> InClass(s[i], cls)
    ensures e < |s| ==> !InClass(s[e], cls)
    decreases |s| - p
  {
    if p < |s| && InClass(s[p], cls) then RunEnd(s, p + 1, cls) else p
  }

  /** Decimal value of a run of digits, `parseInt` of it. */
  function DigitsValue(t: string): nat
    requires forall i :: 0 <= i < |t| ==> IsDigit(t[i])
  {
    if |t| == 0 then 0 else 10 * DigitsValue(t[..|t| - 1]) + DigitValue(t[|t| - 1])
  }

  /** The maximal runs of digits in `t`, left to right: `t.match(/\d+/g)`. */
  function DigitRuns(t: string): (runs: seq<string>)
    ensures forall r :: r in runs ==> |r| > 0 && forall i :: 0 <= i < |r| ==> IsDigit(r[i])
    decreases |t|
  {
    if |t| == 0 then []
    else if !IsDigit(t[0]) then DigitRuns(t[1..])
    else
      var e := RunEnd(t, 0, Digits);
      [t[..e]] + DigitRuns(t[e..])
  }

  /** `parseInt(m.match(/\d+/)?.[0] || '0')`: the first number in `t`, or 0. */
  function FirstNumber(t: string): nat
  {
    var runs := DigitRuns(t);
    if |runs| == 0 then 0 else DigitsValue(runs[0])
  }

  /** Membership in \d{1,3}(?:,\d{3})*, optionally followed by (?:\.\d{2}) when `cents` holds. The leading
      digits must be the whole leading run: a fourth digit can be neither ',' nor '.' nor the end. */
  predicate IsGroupedNumber(t: string, cents: bool)
  {
    var h := RunEnd(t, 0, Digits);
    1 <= h <= 3 && GroupsThenEnd(t[h..], cents)
  }

  predicate GroupsThenEnd(t: string, cents: bool)
    decreases |t|
  {
    || |t| == 0
    || (cents && |t| == 3 && t[0] == '.' && IsDigit(t[1]) && IsDigit(t[2]))
    || (|t| >= 4 && t[0] == ',' && IsDigit(t[1]) && IsDigit(t[2]) && IsDigit(t[3]) && GroupsThenEnd(t[4..], cents))
  }

  /** Greedy (?:,\d{3})* from `j`. */
  function GreedyGroups(s: string, j: nat): (e: nat)
    requires j <= |s|
    ensures j <= e <= |s|
    decreases |s| - j
  {
    if j + 3 < |s| && s[j] == ',' && IsDigit(s[j + 1]) && IsDigit(s[j + 2]) && IsDigit(s[j + 3])
    then GreedyGroups(s, j + 4)
    else j
  }

  /** \d{1,3}(?:,\d{3})*(?:\.\d{2})? at the very end of a pattern: nothing after it can fail, so the first,
      greedy, choice of every quantifier is the match. */
  function GreedyAmountAt(s: string, i: nat): (r: Option<nat>)
    requires i <= |s|
    ensures r.Some? ==> i < r.value <= |s|
  {
    var d := RunEnd(s, i, Digits);
    if d == i then None
    else
      var g := GreedyGroups(s, Min(d, i + 3));
      Some(if g + 2 < |s| && s[g] == '.' && IsDigit(s[g + 1]) && IsDigit(s[g + 2]) then g + 3 else g)
  }

  /** An optional letter `c` (either case) at `e`, taken when present. */
  function OptionalLetter(s: string, e: nat, c: char): (r: nat)
    requires e <= |s|
    ensures e <= r <= e + 1 && r <= |s|
  {
    if e < |s| && ToLower(s[e]) == c then e + 1 else e
  }

  /** (?:of\s+)? at `w`: taken when "of" and at least one space follow. Skipping it instead cannot help,
      because what follows it in every pattern starts with a digit or an 'e', never an 'o'. */
  function OptionalOf(s: string, w: nat): (r: nat)
    requires w <= |s|
    ensures w <= r <= |s|
  {
    if CiAt(s, w, "of") && RunEnd(s, w + 2, Spaces) > w + 2 then RunEnd(s, w + 2, Spaces) else w
  }

  /** (\d+)\+?\s*unit at `p`. Each quantifier must take everything it can: giving a digit, the '+' or a space
      back leaves that character where the next item ('+', a space or the unit's first letter) cannot match. */
  function CountThenUnit(s: string, p: nat, unit: string): (r: Option<nat>)
    requires p <= |s|
    ensures r.Some? ==> p < r.value <= |s|
  {
    var d := RunEnd(s, p, Digits);
    if d == p then None
    else
      var q := if d < |s| && s[d] == '+' then d + 1 else d;
      var u := RunEnd(s, q, Spaces);
      if CiAt(s, u, unit) then Some(u + |unit|) else None
  }

  datatype Pattern =
    | Word(k: string)       // \bk\b, flags gi, k escaped
    | YearsOfExperience     // (\d+)\+?\s*years?\s+(?:of\s+)?experience, flags gi
    | ExperienceOfYears     // experience\s+(?:of\s+)?(\d+)\+?\s*years?, flags gi
    | YrsExperience         // (\d+)\+?\s*yrs?\s+experience, flags gi
    | Years                 // (\d+)\+?\s*years?, flags gi
    | Clause(k: string)     // [^.]*k[^.]*, flags gi, for a k without '.'
    | DollarRange           // \$(A)[\s-]+\$(A) with A = \d{1,3}(?:,\d{3})*(?:\.\d{2})?, flag g
    | ThousandsRange        // (B)k?[\s-]+(B)k with B = \d{1,3}(?:,\d{3})*, flags gi

  /** Where an attempt of `pat` at position `p` of `s` ends, if it succeeds. */
  function MatchAt(pat: Pattern, s: string, p: nat): (r: Option<nat>)
    requires p <= |s|
    ensures r.Some? ==> p <= r.value <= |s|
  {
    match pat
    case Word(k) =>
      if WholeWordAt(s, p, k) then Some(p + |k|) else None
    case YearsOfExperience =>
      // After "year", taking the 's' is forced: leaving it, \s+ would face that 's'.
      (match CountThenUnit(s, p, "year")
       case None => None
       case Some(e) =>
         var e1 := OptionalLetter(s, e, 's');
         var w := RunEnd(s, e1, Spaces);
         if w == e1 then None
         else
           var x := OptionalOf(s, w);
           if CiAt(s, x, "experience") then Some(x + 10) else None)
    case ExperienceOfYears =>
      if !CiAt(s, p, "experience") then None
      else
        var w := RunEnd(s, p + 10, Spaces);
        if w == p + 10 then None
        else
          (match CountThenUnit(s, OptionalOf(s, w), "year")
           case None => None
           case Some(e) => Some(OptionalLetter(s, e, 's')))
    case YrsExperience =>
      (match CountThenUnit(s, p, "yr")
       case None => None
       case Some(e) =>
         var e1 := OptionalLetter(s, e, 's');
         var w := RunEnd(s, e1, Spaces);
         if w > e1 && CiAt(s, w, "experience") then Some(w + 10) else None)
    case Years =>
      (match CountThenUnit(s, p, "year")
       case None => None
       case Some(e) => Some(OptionalLetter(s, e, 's')))
    case Clause(k) =>
      // [^.]* runs to the next '.', gives back characters until k fits, and the second [^.]* retakes them.
      var e := RunEnd(s, p, NotDot);
      if ContainsCi(s[p..e], k) then Some(e) else None
    case DollarRange =>
      // The first amount must end exactly where its run of digits, ',' and '.' ends: a separator has to follow.
      if !(p < |s| && s[p] == '$') then None
      else
        var a := RunEnd(s, p + 1, Amount);
        var g := RunEnd(s, a, Separators);
        if !IsGroupedNumber(s[p + 1..a], true) || g == a || g == |s| || s[g] != '$' then None
        else GreedyAmountAt(s, g + 1)
    case ThousandsRange =>
      // Both numbers must end where their runs of digits and ',' end: a 'k' or a separator has to follow.
      var a := RunEnd(s, p, Grouped);
      var b := OptionalLetter(s, a, 'k');
      var g := RunEnd(s, b, Separators);
      if !IsGroupedNumber(s[p..a], false) || g == b then None
      else
        var c := RunEnd(s, g, Grouped);
        if IsGroupedNumber(s[g..c], false) && c < |s| && ToLower(s[c]) == 'k' then Some(c + 1) else None
  }

  datatype Span = Span(start: nat, end: nat)

  /** The matches a global search finds from position `from`: the leftmost attempt that succeeds, then the search
      resumes at its end, or one position further after an empty match. */
  function ScanFrom(pat: Pattern, s: string, from: nat): (ms: seq<Span>)
    requires from <= |s| + 1
    ensures forall i :: 0 <= i < |ms| ==>
      from <= ms[i].start <= ms[i].end <= |s| && MatchAt(pat, s, ms[i].start) == Some(ms[i].end)
    ensures forall i, j :: 0 <= i < j < |ms| ==> ms[i].start < ms[j].start && ms[i].end <= ms[j].start
    ensures |ms| > 0 ==> forall p :: from <= p < ms[0].start ==> MatchAt(pat, s, p).None?
    decreases |s| + 1 - from
  {
    if from > |s| then []
    else
      match MatchAt(pat, s, from)
      case None => ScanFrom(pat, s, from + 1)
      case Some(e) => [Span(from, e)] + ScanFrom(pat, s, if e > from then e else from + 1)
  }

  /** `s.match(pat)` with the `g` flag, as spans (an empty list for `null`). */
  function Matches(pat: Pattern, s: string): seq<Span>
  {
    ScanFrom(pat, s, 0)
  }

  /** `pat.test(s)` on a fresh expression: some attempt succeeds. */
  predicate Test(pat: Pattern, s: string)
  {
    exists p | 0 <= p <= |s| :: MatchAt(pat, s, p).Some?
  }

  /** The scan finds nothing exactly when no attempt from `from` on succeeds. */
  lemma ScanEmptyIff(pat: Pattern, s: string, from: nat)
    requires from <= |s| + 1
    ensures ScanFrom(pat, s, from) == [] <==> forall p :: from <= p <= |s| ==> MatchAt(pat, s, p).None?
  {
    if ScanFrom(pat, s, from) == [] {
      ScanEmptyNone(pat, s, from);
    } else if forall p :: from <= p <= |s| ==> MatchAt(pat, s, p).None? {
      NoneScanEmpty(pat, s, from);
    }
  }

  /** An empty scan means every attempt fails: the scan reports the first success. */
  lemma {:induction false} ScanEmptyNone(pat: Pattern, s: string, from: nat)
    requires from <= |s| + 1 && ScanFrom(pat, s, from) == []
    ensures forall p :: from <= p <= |s| ==> MatchAt(pat, s, p).None?
    decreases |s| + 1 - from
  {
    if from <= |s| {
      ScanStep(pat, s, from);
      ScanEmptyNone(pat, s, from + 1);
      forall p | from <= p <= |s|
        ensures MatchAt(pat, s, p).None?
      {
        if p > from {
          assert from + 1 <= p;
        }
      }
    }
  }

  /** When every attempt fails the scan reports nothing, since what it reports are successful attempts. */
  lemma NoneScanEmpty(pat: Pattern, s: string, from: nat)
    requires from <= |s| + 1
    requires forall p :: from <= p <= |s| ==> MatchAt(pat, s, p).None?
    ensures ScanFrom(pat, s, from) == []
  {
  }

  /** One step of the scan: a match at `from` is reported, and otherwise the scan moves on. */
  lemma ScanStep(pat: Pattern, s: string, from: nat)
    requires from <= |s|
    ensures MatchAt(pat, s, from).Some? ==> ScanFrom(pat, s, from) != []
    ensures MatchAt(pat, s, from).None? ==> ScanFrom(pat, s, from) == ScanFrom(pat, s, from + 1)
  {
  }

  /** A global match list is empty exactly when the expression's `test` fails. */
  lemma MatchesIffTest(pat: Pattern, s: string)
    ensures Matches(pat, s) != [] <==> Test(pat, s)
  {
    ScanEmptyIff(pat, s, 0);
  }

  /** The matches of `\bk\b` exist exactly when `k` occurs as a whole word. */
  lemma WordMatchesIff(s: string, k: string)
    ensures Matches(Word(k), s) != [] <==> HasWord(s, k)
  {
    MatchesIffTest(Word(k), s);
    if HasWord(s, k) {
      var p :| 0 <= p <= |s| && WholeWordAt(s, p, k);
      assert MatchAt(Word(k), s, p).Some?;
    }
  }

  /** Number of whole-word occurrences `s.match(/\bk\b/gi).length` counts (0 for `null`). */
  function CountWord(s: string, k: string): (n: nat)
    ensures n > 0 <==> HasWord(s, k)
  {
    WordMatchesIff(s, k);
    |Matches(Word(k), s)|
  }

  /** The leftmost match, what `s.match(pat)` reports first. */
  function FirstMatch(pat: Pattern, s: string): (r: Option<Span>)
    ensures r.None? <==> forall p :: 0 <= p <= |s| ==> MatchAt(pat, s, p).None?
    ensures r.Some? ==> r.value.start <= r.value.end <= |s| && MatchAt(pat, s, r.value.start) == Some(r.value.end)
    ensures r.Some? ==> forall p :: 0 <= p < r.value.start ==> MatchAt(pat, s, p).None?
  {
    ScanEmptyIff(pat, s, 0);
    var ms := Matches(pat, s);
    if |ms| == 0 then None else Some(ms[0])
  }

  /** The end of the longest run is fixed by the run: an `e` that ends a run of `cls` which cannot be extended
      is `RunEnd`. */
  lemma RunEndIs(s: string, p: nat, cls: CharClass, e: nat)
    requires p <= e <= |s|
    requires forall i :: p <= i < e ==> InClass(s[i], cls)
    requires e < |s| ==> !InClass(s[e], cls)
    ensures RunEnd(s, p, cls) == e
  {
  }

  /** The first digit run is the whole run that begins at the first digit, and the other runs are those of the
      text after it: together with `DigitRunsNone` this makes the runs the maximal ones, left to right. */
  lemma {:induction false} DigitRunsFirst(t: string, i: nat)
    requires i < |t| && IsDigit(t[i])
    requires forall j :: 0 <= j < i ==> !IsDigit(t[j])
    ensures DigitRuns(t) == [t[i..RunEnd(t, i, Digits)]] + DigitRuns(t[RunEnd(t, i, Digits)..])
    decreases i
  {
    if i > 0 {
      var u, e := t[1..], RunEnd(t, i, Digits);
      DigitRunsFirst(u, i - 1);
      RunEndIs(u, i - 1, Digits, e - 1);
      assert u[i - 1..e - 1] == t[i..e];
      assert u[e - 1..] == t[e..];
    }
  }

  /** `DigitRunsFirst` for a run whose end is known. */
  lemma DigitRunsAt(t: string, i: nat, e: nat)
    requires i < e <= |t|
    requires forall j :: 0 <= j < i ==> !IsDigit(t[j])
    requires forall j :: i <= j < e ==> IsDigit(t[j])
    requires e < |t| ==> !IsDigit(t[e])
    ensures DigitRuns(t) == [t[i..e]] + DigitRuns(t[e..])
  {
    RunEndIs(t, i, Digits, e);
    DigitRunsFirst(t, i);
  }

  /** There is no run exactly when there is no digit. */
  lemma {:induction false} DigitRunsNone(t: string)
    ensures DigitRuns(t) == [] <==> forall j :: 0 <= j < |t| ==> !IsDigit(t[j])
    decreases |t|
  {
    if |t| > 0 && !IsDigit(t[0]) {
      DigitRunsNone(t[1..]);
      assert forall j :: 0 < j < |t| ==> t[j] == t[1..][j - 1];
    }
  }
}
