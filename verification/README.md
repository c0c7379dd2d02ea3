# Résumé analysis core, modelled in Dafny

The model covers the analysis core of a browser extension that matches a résumé against a job description. It has four parts:

- **Keyword extraction** (`src/utils/keywordExtractor.ts`). A list of technical, soft-skill, tool and certification terms, plus the caller's custom terms, is searched for as whole words, ignoring case. Each term found gets a record: how many times it occurs, up to three sentences quoting it, and an importance score. The records are merged by lower-cased text and sorted by importance, then by count. The same file also reads years of experience, education requirements, a salary range and keyword density from a text.
- **Résumé analysis** (`src/utils/resumeAnalyzer.ts`). The job's keywords are split into those the résumé has and those it lacks. The share found becomes a percentage and a colour band, and a few suggestions follow from it.
- **Scoring** (`src/utils/scoringEngine.ts`). Five sub-scores are computed: keyword match, technical skills, experience, formatting and ATS compatibility. They combine into a weighted overall score, a four-band rank and threshold-driven recommendations. The file also compares two versions of a résumé and builds a prioritised optimisation plan.
- **Text utilities** (`src/utils/textFormatter.ts`). These are: splitting into named sections, keyword highlighting, the readability level, company information from a posting, a set-based compatibility score, truncation at a word boundary, and action-verb detection.

The model has nine modules:

| module | contents |
|---|---|
| `Common` | An option type and `Math.round` of a quotient. |
| `Chars` | ASCII character classes. |
| `Strings` | Case mapping, `trim`, `split`, `join`, `slice`, set-based de-duplication, and the word count `split(/\s+/).length`. |
| `Regex` | A small regular-expression model: whole-word and case-insensitive search, plus the fixed patterns the source uses. Global matching follows JavaScript: leftmost, non-overlapping, and an empty match advances by one. |
| `KeywordExtractor`, `Requirements` | Together they model `keywordExtractor.ts`. |
| `ResumeAnalyzer` | Models `resumeAnalyzer.ts`. |
| `ScoringEngine` | Models `scoringEngine.ts`. |
| `TextFormatter` | Models `textFormatter.ts`. |

The model holds three conventions:

- **Importance is counted in half-points.** Every importance the source computes is a multiple of 0.5, so the model stores 3.5 as 7. An absent importance is 0, and every reader of the field treats 0 the way the source treats a missing value.
- **Fractional weights are integers.** The weights 0.30, 0.25, … become hundredths, and `Math.round(x / y)` is the exact rounded rational.
- **Characters are Unicode scalar values, with ASCII case folding.**

## Model

| member | source | states |
|---|---|---|
| Common.RoundDiv | src/utils/scoringEngine.ts:77 | `Math.round(num / den)` is the integer nearest the exact quotient, halves rounded up. |
| Common.Percent | src/utils/resumeAnalyzer.ts:31-33 | The rounded percentage is 0 when there is nothing to count or nothing was found, and 100 when everything was found. It stays within 0..100 whenever the part does not exceed the whole. |
| Strings.Trim | src/utils/keywordExtractor.ts:124 | `trim()` keeps one stretch of the text and drops only white space before and after it; what it keeps has no white space at either end, and it keeps nothing exactly when the text is all white space. |
| Strings.JoinSplit | src/utils/textFormatter.ts:23-35 | Splitting a text into lines and joining the lines with line breaks gives the text back, so a section without headers holds the whole text. |
| Strings.Dedup | src/utils/keywordExtractor.ts:232 | `[...new Set(xs)]` has no duplicates and holds exactly the elements of `xs`. They come in the order of their first occurrence in `xs`: the result is a subsequence of `xs`, and an element comes before another exactly when it occurs first. |
| Strings.Select | src/utils/textFormatter.ts:173-175 | Filtering by membership in a set keeps exactly the elements that are in the set (or not), in order, without introducing duplicates. |
| Strings.SelectSplits | src/utils/textFormatter.ts:173-174 | The elements kept and the elements dropped by a set filter together are as many as the input. |
| Strings.WordCount | src/utils/scoringEngine.ts:140 | `split(/\s+/).length` is at least 1 and at most one more than the length of the text. |
| Strings.WordCountRuns | src/utils/scoringEngine.ts:140 | `split(/\s+/).length` is one more than the number of positions where a run of white space starts (white space not preceded by white space), leading and trailing runs included. |
| Strings.WordCountNoSpace | src/utils/scoringEngine.ts:140 | A text without white space, the empty text included, splits into one piece. |
| Regex.CountWord | src/utils/keywordExtractor.ts:128-130 | The number of whole-word, case-insensitive matches is positive exactly when the term occurs as a whole word. |
| Regex.WordMatchesIff | src/utils/keywordExtractor.ts:129-130 | `text.match(regex)` is non-null exactly when the term occurs as a whole word. |
| Regex.FirstMatch | src/utils/textFormatter.ts:118 | A non-global `match` reports the leftmost position where the pattern succeeds, and reports nothing exactly when it succeeds nowhere. |
| KeywordExtractor.EntriesOf | src/utils/keywordExtractor.ts:158-162 | Every technical, soft, tool, certification and custom term is looked for once, in that order: entry i carries the i-th term of the five lists laid end to end, tagged with the category of the list it comes from. |
| KeywordExtractor.CustomComesLast | src/utils/keywordExtractor.ts:158-162 | Custom terms are processed after all four dictionary lists. |
| KeywordExtractor.Importance | src/utils/keywordExtractor.ts:172-191 | The importance is at most 14.5 and never below the category bonus (1 for technical, 1.5 for certification). |
| KeywordExtractor.ImportanceByCategory | src/utils/keywordExtractor.ts:181-182 | For the same term and text, a technical term scores exactly 1 more than a soft-skill term and a certification exactly 1.5 more. Tools, custom and other terms score the same as soft skills. |
| KeywordExtractor.ShortTextNoEarlyMention | src/utils/keywordExtractor.ts:184-188 | A text of fewer than three lines has an empty first third, so it never earns the early-mention bonus. |
| KeywordExtractor.NonBlank | src/utils/keywordExtractor.ts:124 | The sentence filter keeps only pieces of the split that are not blank. |
| KeywordExtractor.SentenceContexts | src/utils/keywordExtractor.ts:134-138 | Each context is cut to at most 100 characters, and there is at most one per sentence. |
| KeywordExtractor.Found | src/utils/keywordExtractor.ts:144-153 | A new record keeps at most three contexts of at most 100 characters each, and a term that occurs has a count of at least 1. |
| KeywordExtractor.IndexOfKey | src/utils/keywordExtractor.ts:140 | The lookup by lower-cased text finds the first record with that key, and finds none exactly when no record has it. |
| KeywordExtractor.Merge | src/utils/keywordExtractor.ts:141-143 | Merging keeps the earlier record's text, category and importance. It adds the counts and unites the contexts, each context once. |
| KeywordExtractor.FindsSpec | src/utils/keywordExtractor.ts:127-130 | A term produces a find exactly when it occurs in the text as a whole word. |
| KeywordExtractor.AbsorbLookup | src/utils/keywordExtractor.ts:140-153 | After one find is absorbed, its key maps to the merged record, or to the find itself if the key was new. Every other key is unchanged. |
| KeywordExtractor.AbsorbUnique | src/utils/keywordExtractor.ts:140-153 | The map never holds two records with the same lower-cased text. |
| KeywordExtractor.KeyCountPositive | src/utils/keywordExtractor.ts:140 | A key is counted among the finds exactly when some find has that key. |
| KeywordExtractor.GatherSummarises | src/utils/keywordExtractor.ts:140-153 | After all finds are absorbed, the map holds one record per key found. The first find with that key supplies its text, category and importance, and its count is the total over all finds with the key. |
| KeywordExtractor.TotalCountZero | src/utils/keywordExtractor.ts:142 | A key with no finds accumulates no count. |
| KeywordExtractor.Insert | src/utils/keywordExtractor.ts:164-169 | Inserting into the ranking adds exactly the one record. |
| KeywordExtractor.InsertRanked | src/utils/keywordExtractor.ts:165-169 | Inserting into a ranked list keeps it ordered by importance, then count, both descending. |
| KeywordExtractor.SortByRank | src/utils/keywordExtractor.ts:164-169 | The sort is a permutation ordered by importance, then count, both descending. |
| KeywordExtractor.SortKeepsTies | src/utils/keywordExtractor.ts:165 | The sort is stable: records with equal importance and count keep their insertion order. |
| KeywordExtractor.SortUnique | src/utils/keywordExtractor.ts:164-165 | Sorting keeps the keys distinct. |
| KeywordExtractor.ExtractKeywords | src/utils/keywordExtractor.ts:94-170 | A blank text yields no keywords. Otherwise the keywords are ranked and no two share a lower-cased text. |
| KeywordExtractor.ExtractKeywordsWith | src/utils/keywordExtractor.ts:36-92 | The asynchronous extractor, given the term lists it obtained, has the same guarantees as the synchronous one. |
| KeywordExtractor.ExtractFrom | src/utils/keywordExtractor.ts:123-169 | The result is a ranked, stable permutation of the merged records, with distinct keys, and is empty for a blank text. |
| KeywordExtractor.ExtractedRecords | src/utils/keywordExtractor.ts:126-164 | Every keyword returned agrees with the finds for its key, and comes from a term that occurs in the text. Conversely, every term that occurs has a keyword with its key. |
| KeywordExtractor.KeyEmitted | src/utils/keywordExtractor.ts:129-153 | A term occurring in a non-blank text always produces a keyword with its key. |
| KeywordExtractor.SingleTermContexts | src/utils/keywordExtractor.ts:151 | A keyword found through a single term carries at most three contexts. |
| KeywordExtractor.OfCategory | src/utils/keywordExtractor.ts:198 | The bucket of a category holds only keywords of that category, taken from the input. |
| KeywordExtractor.Categorize | src/utils/keywordExtractor.ts:193-201 | A category is a key of the grouping exactly when some keyword has it, and its bucket is those keywords in input order. |
| KeywordExtractor.OfCategoryEmpty | src/utils/keywordExtractor.ts:195-198 | A category's bucket is non-empty exactly when some keyword has that category. |
| KeywordExtractor.CategorizeKeepsCount | src/utils/keywordExtractor.ts:193-201 | The buckets together hold as many keywords as the input, so nothing is lost or duplicated. |
| KeywordExtractor.Density | src/utils/keywordExtractor.ts:257-266 | Every keyword text gets a non-negative density and nothing else does. Every density is 0 when the word total is not positive. |
| Requirements.MaxOf | src/utils/keywordExtractor.ts:214 | `Math.max(...numbers)` is one of the numbers and no smaller than any of them. |
| Requirements.LeadingNumbers | src/utils/keywordExtractor.ts:213 | Each match is read as the first run of digits inside it. |
| Requirements.YearsFrom | src/utils/keywordExtractor.ts:210-217 | There is no result exactly when no pattern matches. Otherwise the result is the largest number read from the first pattern that matches. |
| Requirements.ExtractYears | src/utils/keywordExtractor.ts:203-218 | The years are null exactly when none of the three experience patterns occurs. Otherwise they come from the first of them that does. |
| Requirements.TrimmedMatches | src/utils/keywordExtractor.ts:228 | Each match is trimmed. |
| Requirements.EducationRequirements | src/utils/keywordExtractor.ts:220-233 | The distinct matched clauses in the order they were first matched, cut to the first three: at most three, without duplicates, exactly min(3, number of distinct clauses) of them, and a clause left out occurs only after all three kept clauses have occurred. |
| Requirements.EducationShape | src/utils/keywordExtractor.ts:225-228 | Every clause returned is free of periods and mentions one of the education terms, ignoring case. |
| Requirements.ExtractSalary | src/utils/keywordExtractor.ts:235-255 | The salary is null exactly when neither range pattern occurs. The dollar pattern takes precedence, and the currency is always USD. The minimum and maximum are the values of the first two digit runs of the first match of the pattern used. |
| Requirements.SalaryOf | src/utils/keywordExtractor.ts:242-251 | A range is reported exactly when the first match holds at least two digit runs. Its minimum is the value of the first run and its maximum the value of the second. |
| Requirements.SalaryExample | src/utils/keywordExtractor.ts:237-251 | "$100,000 - $150,000" yields a minimum of 100 and a maximum of 0, because the thousands separator splits each amount into two runs. |
| Regex.DigitRunsFirst | src/utils/keywordExtractor.ts:244 | `/\d+/g` reports first the whole run of digits that starts at the first digit, then the runs of the text after that run. |
| Regex.DigitRunsNone | src/utils/keywordExtractor.ts:244 | `/\d+/g` reports no run exactly when the text holds no digit. |
| Requirements.RunsOfFirstCount | src/utils/keywordExtractor.ts:244-245 | For both salary patterns, a match always holds two digit runs, so the `numbers.length >= 2` check never fails. |
| ResumeAnalyzer.KeySet | src/utils/resumeAnalyzer.ts:14-16 | The résumé's key set holds exactly the lower-cased texts of its keywords. |
| ResumeAnalyzer.Partition | src/utils/resumeAnalyzer.ts:21-27 | Every job keyword is filed exactly once, under matched or under missing. |
| ResumeAnalyzer.PartitionFilters | src/utils/resumeAnalyzer.ts:21-27 | Matched holds the job keywords whose key the résumé has, missing holds the rest, both in job order. |
| ResumeAnalyzer.HavingMember | src/utils/resumeAnalyzer.ts:22 | A keyword passes the key filter exactly when it is in the list and its key's membership is the wanted one. |
| ResumeAnalyzer.MatchedIff | src/utils/resumeAnalyzer.ts:21-27 | A job keyword is matched exactly when some résumé keyword has the same lower-cased text, and missing exactly when none has. |
| ResumeAnalyzer.Headline | src/utils/resumeAnalyzer.ts:48-54 | The excellent-match headline exactly from 75 up, the fair-match headline exactly within 50..74, the gaps headline exactly below 50. |
| ResumeAnalyzer.CategoryLine | src/utils/resumeAnalyzer.ts:56-75 | There is a category line exactly when some missing keyword has that category. It names the first few of them, in order. |
| ResumeAnalyzer.Suggestions | src/utils/resumeAnalyzer.ts:45-82 | The headline comes first. The headline is the only suggestion exactly when nothing is missing, and the general advice closes the list exactly when something is. There are never more than five suggestions. |
| ResumeAnalyzer.SuggestionsOnly | src/utils/resumeAnalyzer.ts:45-82 | Every suggestion is the headline, the general advice, or a line led by one of the three category leads; there is no other kind of line. |
| ResumeAnalyzer.SuggestionsTechnical | src/utils/resumeAnalyzer.ts:56-61 | A line led by "Add technical skills: " is present exactly when some missing keyword is technical, and it lists the first three of them, in order. |
| ResumeAnalyzer.SuggestionsSoft | src/utils/resumeAnalyzer.ts:63-68 | A line led by "Highlight soft skills: " is present exactly when some missing keyword is a soft skill, and it lists the first three of them, in order. |
| ResumeAnalyzer.SuggestionsCertification | src/utils/resumeAnalyzer.ts:70-75 | A line led by "Consider mentioning: " is present exactly when some missing keyword is a certification, and it lists the first two of them, in order. |
| ResumeAnalyzer.AnalyzeResume | src/utils/resumeAnalyzer.ts:10-43 | The matched and missing lists split the job keywords between them. The score is the rounded percentage matched, within 0..100, and the suggestions follow from the missing list and the score. |
| ResumeAnalyzer.FullCoverage | src/utils/resumeAnalyzer.ts:29-54 | A résumé covering every job keyword misses nothing. With at least one job keyword, it scores 100, and the excellent-match headline is its only suggestion. |
| ResumeAnalyzer.NoCoverage | src/utils/resumeAnalyzer.ts:29-49 | A résumé sharing no keyword with the job scores 0 and gets the gaps headline. |
| ResumeAnalyzer.MatchPercentage | src/utils/resumeAnalyzer.ts:84-87 | The percentage is 0 for an empty total, within 0..100 when the matches do not exceed the total, and 100 when all match. |
| ResumeAnalyzer.ScoreColor | src/utils/resumeAnalyzer.ts:89-93 | Emerald text exactly from 75 up, amber text exactly within 50..74, rose text exactly below 50. |
| ResumeAnalyzer.ScoreBgColor | src/utils/resumeAnalyzer.ts:95-99 | Emerald background exactly from 75 up, amber background exactly within 50..74, rose background exactly below 50. |
| ResumeAnalyzer.DisplayAgrees | src/utils/resumeAnalyzer.ts:48-99 | The text colour, the background colour and the suggestion headline change band at the same scores. |
| TextFormatter.ExtractActionVerbs | src/utils/textFormatter.ts:202-225 | A verb is reported exactly when it is in the list and occurs as a whole word. The verbs come in list order, each once. |
| TextFormatter.ActionVerbsDistinct | src/utils/textFormatter.ts:203-213 | The 45 listed verbs are pairwise distinct, so at most 45 can be found. |
| TextFormatter.CompatibilityScore | src/utils/textFormatter.ts:161-187 | The common, résumé-only and job-only keywords are exactly the intersection and the two differences of the lower-cased sets, each without duplicates and in the insertion order of its set. Common plus job-only is the size of the job set. The score is the rounded percentage of the job set that is common: within 0..100, 0 without job keywords, 100 when nothing is job-only. |
| TextFormatter.SmartTruncate | src/utils/textFormatter.ts:189-200 | A text within the limit is unchanged. A longer one becomes a prefix of itself, as long as `KeptLength` says, followed by "...". |
| TextFormatter.KeptLength | src/utils/textFormatter.ts:192-199 | At most `maxLength` characters are kept. Fewer are kept exactly when a space lies beyond 80% of `maxLength` and before it, and then the cut falls on the last such space. Exactly `maxLength` are kept when that stretch holds no space. |
| TextFormatter.FirstPrefix | src/utils/textFormatter.ts:29-31 | `find` returns the first header that the line starts with, and nothing exactly when it starts with none. |
| TextFormatter.HeaderOf | src/utils/textFormatter.ts:28-31 | A line announces only one of the listed section headers (`HeaderOfFirst` says which). |
| TextFormatter.HeaderOfFirst | src/utils/textFormatter.ts:28-31 | A line announces nothing exactly when its trimmed, upper-cased form starts with none of the headers. Otherwise it announces the first header in list order that it starts with. |
| TextFormatter.Flush | src/utils/textFormatter.ts:34-36 | Storing adds the current section's name exactly when it has lines, and keeps every earlier name. |
| TextFormatter.ExtractSections | src/utils/textFormatter.ts:15-49 | Every section is named "HEADER" or by a listed header, and no header line ever ends up inside a section's text. A listed name is a key exactly when some header line for it is followed by a non-header line, and its text is the trimmed block of lines after the last such header line, up to the next header line. The "HEADER" text, when present, is the trimmed block of lines before the first header line. |
| TextFormatter.SectionsPreamble | src/utils/textFormatter.ts:24-45 | What is stored under "HEADER" is the trimmed block of the lines before the first header line. |
| TextFormatter.ReadPreambleTracks | src/utils/textFormatter.ts:27-46 | Line after line, nothing is stored under "HEADER" before the first header line, and once something is, it is the lines before that header line. |
| TextFormatter.ReadKeeps | src/utils/textFormatter.ts:27-46 | The reading of the lines keeps that invariant at every step. |
| TextFormatter.ReadTracks | src/utils/textFormatter.ts:27-46 | After any number of lines, the reader holds the section of the last header line, the lines after it, and for every listed name the block of the last header line that opened it, before that last header. |
| TextFormatter.FlushTracks | src/utils/textFormatter.ts:42-44 | Storing the section being read after the last line completes the map: every listed name is stored exactly as `ExtractSections` states. |
| TextFormatter.NoHeadersOneSection | src/utils/textFormatter.ts:23-45 | A text without header lines becomes the single "HEADER" section holding the whole text, trimmed. |
| TextFormatter.PreambleIff | src/utils/textFormatter.ts:24-45 | There is a "HEADER" section exactly when the first line announces no header. |
| TextFormatter.Mark | src/utils/textFormatter.ts:56 | Wrapping each match in `**` adds four characters per match; without matches the text is unchanged (`MarkWraps` says where the markers go). |
| TextFormatter.MarkWraps | src/utils/textFormatter.ts:56 | Each match reappears wrapped in `**`, shifted by four characters per earlier match, and every stretch between matches is kept at the shifted position. |
| TextFormatter.HighlightWord | src/utils/textFormatter.ts:55-56 | Highlighting a keyword lengthens the text by four per whole-word occurrence. Each occurrence reappears wrapped in `**`, shifted by four per earlier occurrence, and the text between occurrences is kept. The text is unchanged exactly when the keyword does not occur. |
| TextFormatter.HighlightKeywords | src/utils/textFormatter.ts:51-60 | The result is never shorter than the text and equals it exactly when none of the keywords occurs as a whole word. The last keyword's occurrences in the text highlighted by the earlier keywords are each wrapped in `**`, and the rest of that text is kept. |
| TextFormatter.ValueAt | src/utils/textFormatter.ts:118-120 | The captured value is a non-empty piece of one line (`ValueAtCapture` says which piece). |
| TextFormatter.ValueAtCapture | src/utils/textFormatter.ts:118-120 | `\s*([^\n]+)` captures nothing exactly when only line breaks follow. Otherwise the capture starts at the first character after the colon that is not white space or, when only white space follows, at the last white-space character that is not a line break; it runs to the end of that line. |
| TextFormatter.FirstLabelled | src/utils/textFormatter.ts:118-126 | The search stops at the leftmost position where a label with a colon and a value occurs; no earlier position has one. |
| TextFormatter.FirstLabelledNone | src/utils/textFormatter.ts:118-126 | The search finds nothing exactly when no position from the start on has a label with a value. |
| TextFormatter.LabelledAtCapture | src/utils/textFormatter.ts:118-126 | A hit at a position is one of the labels, matched ignoring case, followed by a colon and the value captured after it. |
| TextFormatter.FirstFound | src/utils/textFormatter.ts:141-146 | The loop stops at the first job-type pattern that matches, and finds none exactly when none matches. |
| TextFormatter.LabelledValue | src/utils/textFormatter.ts:118-126 | The company and the location are absent exactly when no label with a value occurs. Otherwise they are the trimmed value captured at the leftmost position with a label, a colon and a value, which is one line. |
| TextFormatter.JobTypeOf | src/utils/textFormatter.ts:133-146 | The job type is that of the first listed pattern found, and is absent exactly when none occurs. |
| TextFormatter.ExtractCompanyInfo | src/utils/textFormatter.ts:105-149 | Remote is set exactly when one of the remote words occurs as a whole word. The company and the location are the values `LabelledValue` reads for their labels, and the job type is that of the first matching pattern. |
| TextFormatter.ClampScore | src/utils/textFormatter.ts:86 | The clamp lands in 0..100 and leaves a score already in that range unchanged. |
| TextFormatter.LevelIndex | src/utils/textFormatter.ts:88-95 | A score's level is the number of level thresholds above it. |
| TextFormatter.ReadabilityLevel | src/utils/textFormatter.ts:86-95 | "Very Easy" exactly from 90 up, "Very Difficult" exactly below 30. |
| TextFormatter.HigherIsEasier | src/utils/textFormatter.ts:86-95 | A higher Flesch score never lands in a harder level. |
| ScoringEngine.MatchedWeight | src/utils/scoringEngine.ts:67-75 | The matched importance never exceeds the total. It equals the total when every keyword is matched and is 0 when none is. |
| ScoringEngine.MatchedWeightMonotone | src/utils/scoringEngine.ts:67-75 | Matching more keys never lowers the matched importance. |
| ScoringEngine.KeywordMatchScore | src/utils/scoringEngine.ts:61-78 | 100 without job keywords. Otherwise the importance-weighted percentage matched, with an absent importance counted as 1, within 0..100. |
| ScoringEngine.KeywordMatchExtremes | src/utils/scoringEngine.ts:61-78 | A résumé matching every job keyword scores 100. One matching none of at least one scores 0. |
| ScoringEngine.KeywordMatchMonotone | src/utils/scoringEngine.ts:61-78 | Matching more keys never lowers the keyword score. |
| ScoringEngine.Critical | src/utils/scoringEngine.ts:88 | The high-importance technical keywords are exactly those with importance above 2. |
| ScoringEngine.TechnicalPoints | src/utils/scoringEngine.ts:86-97 | `min(100, round(0.8 * rate + bonus))` lies within 0..100. |
| ScoringEngine.TechnicalSkillsScore | src/utils/scoringEngine.ts:80-98 | 100 when the job names no technical keyword, and always within 0..100. |
| ScoringEngine.TechnicalFull | src/utils/scoringEngine.ts:80-98 | Matching every technical job keyword, including at least one critical one, scores 100. |
| ScoringEngine.TechnicalWithoutCritical | src/utils/scoringEngine.ts:93-97 | Matching every technical job keyword when none is critical scores only 80, because the critical bonus is then 0. |
| ScoringEngine.TechnicalNone | src/utils/scoringEngine.ts:80-98 | Matching no technical keyword scores 0. |
| ScoringEngine.CriticalCovered | src/utils/scoringEngine.ts:89-91 | If every critical keyword is matched, the matched critical keywords are at least as many as the critical ones. |
| ScoringEngine.MostYears | src/utils/scoringEngine.ts:103-108 | The years are absent exactly when the text mentions no number of years. Otherwise they are the largest number read from a mention. |
| ScoringEngine.YearsBonus | src/utils/scoringEngine.ts:106-117 | No bonus exactly when either text lacks years. The full 30 exactly when the résumé's years reach the job's; 20 exactly when they fall short but reach 70% of them; 10 exactly when they stay below 70%. Never more than 30. |
| ScoringEngine.VerbBonus | src/utils/scoringEngine.ts:119-122 | 15 exactly from ten verbs, 10 exactly for five to nine, 5 exactly for three or four, nothing exactly below three. |
| ScoringEngine.ExperienceScore | src/utils/scoringEngine.ts:100-128 | Within 50..100. It is 100 exactly when the years suffice, there are ten action verbs and a metric. It is 50 exactly when there are no years to compare, fewer than three verbs and no metric. |
| ScoringEngine.LengthBonus | src/utils/scoringEngine.ts:140-143 | 20 exactly for 300..800 words; 15 exactly for 200..299 and 801..1000; 10 exactly for 100..199 and above 1000; nothing exactly below 100. |
| ScoringEngine.FormattingScore | src/utils/scoringEngine.ts:130-155 | Within 0..100. It is 100 exactly when the text has a section word, contact details, 300..800 words, no wide gap, a bullet and a capitalised word. It is 0 exactly when all of these fail. |
| ScoringEngine.DensityBonus | src/utils/scoringEngine.ts:163-166 | 25 exactly for 2 to 5 matched keywords per hundred words; 20 exactly for 1 to 7 outside that; 10 exactly for any other positive density; nothing exactly without a matched keyword. |
| ScoringEngine.AtsScore | src/utils/scoringEngine.ts:157-181 | Within 0..100. It is 100 exactly when every ATS criterion holds: a standard header, 2..5% density, ASCII only, no pipe, an e-mail in the first 200 characters and a date. It is 0 exactly when every criterion fails. |
| ScoringEngine.Overall | src/utils/scoringEngine.ts:34-48 | The weighted overall score of sub-scores within 0..100 is itself within 0..100. |
| ScoringEngine.OverallBetween | src/utils/scoringEngine.ts:34-48 | The weights sum to 1, so the overall score lies between the smallest and the largest sub-score. |
| ScoringEngine.PerfectOverall | src/utils/scoringEngine.ts:42-48 | An overall score of 100 needs a keyword score of at least 99 and a technical score of at least 98. |
| ScoringEngine.OverallFloor | src/utils/scoringEngine.ts:42-48 | With experience at its floor of 50, the overall score is at least 10. |
| ScoringEngine.DetermineRank | src/utils/scoringEngine.ts:183-188 | Excellent exactly from 85 up, Good exactly within 70..84, Fair exactly within 50..69, Poor exactly below 50. |
| ScoringEngine.RankMonotone | src/utils/scoringEngine.ts:183-188 | A higher score never gets a worse rank. |
| ScoringEngine.Important | src/utils/scoringEngine.ts:198 | The keywords kept are exactly those with importance above 1.5, in order. |
| ScoringEngine.TopMissing | src/utils/scoringEngine.ts:197-200 | The first five important missing keywords in order, or all of them if fewer. |
| ScoringEngine.KeywordLine | src/utils/scoringEngine.ts:196-204 | The keyword recommendation appears exactly when the keyword score is below 70 and some missing keyword is important. It lists the texts of the top missing keywords, separated by commas. |
| ScoringEngine.FixedAdvice | src/utils/scoringEngine.ts:206-224 | At most eight fixed advice lines, each one of the source's fixed texts. |
| ScoringEngine.Recommendations | src/utils/scoringEngine.ts:190-236 | At most ten recommendations. |
| ScoringEngine.FixedLinesApart | src/utils/scoringEngine.ts:202-232 | No fixed advice line could be mistaken for the keyword line. |
| ScoringEngine.InFixedAdvice | src/utils/scoringEngine.ts:206-224 | A fixed line is given exactly when its sub-score is below 70. |
| ScoringEngine.RecommendationsKeywordLine | src/utils/scoringEngine.ts:196-204 | The recommendations hold a keyword line exactly when the keyword score is below 70 and an important keyword is missing. |
| ScoringEngine.RecommendationsTechnical | src/utils/scoringEngine.ts:206-208 | The technical advice appears exactly when the technical score is below 70. |
| ScoringEngine.RecommendationsExperience | src/utils/scoringEngine.ts:210-213 | Both experience lines appear exactly when the experience score is below 70. |
| ScoringEngine.RecommendationsFormatting | src/utils/scoringEngine.ts:215-218 | Both formatting lines appear exactly when the formatting score is below 70. |
| ScoringEngine.RecommendationsAts | src/utils/scoringEngine.ts:220-224 | All three ATS lines appear exactly when the ATS score is below 70. |
| ScoringEngine.RecommendationsExcellent | src/utils/scoringEngine.ts:231-233 | The excellent note appears exactly when both the keyword and the technical score are at least 90. |
| ScoringEngine.BreakdownOf | src/utils/scoringEngine.ts:26-32 | Each field is its own sub-score: keyword match, technical skills, experience, formatting and ATS. All five lie within 0..100, and experience is at least 50. |
| ScoringEngine.ComprehensiveScore | src/utils/scoringEngine.ts:19-59 | The breakdown is the five sub-scores and the overall score their weighted sum, within 10..100. The rank is that of the overall score, and the recommendations follow from the breakdown and the missing keywords. |
| ScoringEngine.RecommendationsAsWritten | src/utils/scoringEngine.ts:190-236 | Without all the data the recommendations are the ordinary ones. With all the data they exist only if the nested scoring returns. |
| ScoringEngine.ComprehensiveAsWritten | src/utils/scoringEngine.ts:19-59 | With an empty résumé or job text, the scoring as written returns the ordinary result. |
| ScoringEngine.AsWrittenNeverReturns | src/utils/scoringEngine.ts:226-230 | With both texts non-empty, the scoring as written never returns, however deep the recursion is allowed to go. |
| ScoringEngine.IntendedRecommendations | src/utils/scoringEngine.ts:228-233 | The extra test `overallScore === 100` adds nothing: the excellent note is given exactly when both the keyword and the technical score are at least 90. |
| ScoringEngine.KeysOf | src/utils/scoringEngine.ts:247-248 | The set of lower-cased keyword texts, each once, in first-occurrence order. |
| ScoringEngine.CompareVersions | src/utils/scoringEngine.ts:238-263 | Added keys are those of the new version only, removed keys those of the old version only. The two are disjoint and duplicate-free, in set order. The length change is the difference in word counts and the score change the difference in keyword counts. |
| ScoringEngine.CompareSwapped | src/utils/scoringEngine.ts:238-263 | Comparing the other way round swaps added and removed and negates both changes. |
| ScoringEngine.CompareSelf | src/utils/scoringEngine.ts:238-263 | A version compared with itself adds and removes nothing and changes nothing. |
| ScoringEngine.PlanItems | src/utils/scoringEngine.ts:272-310 | At most five steps, and the pushes already come in priority order. |
| ScoringEngine.InsertItem | src/utils/scoringEngine.ts:312-315 | Inserting a step into the sorted plan adds exactly that step. |
| ScoringEngine.InsertItemSorted | src/utils/scoringEngine.ts:312-315 | Inserting a step keeps the plan ordered High, Medium, Low. |
| ScoringEngine.SortByPriority | src/utils/scoringEngine.ts:312-315 | The sort is a permutation of the plan. |
| ScoringEngine.SortByPrioritySorted | src/utils/scoringEngine.ts:312-315 | The sorted plan is ordered High, Medium, Low. |
| ScoringEngine.SortSortedIdentity | src/utils/scoringEngine.ts:312-315 | The stable sort leaves an already ordered plan unchanged. |
| ScoringEngine.OptimizationPlan | src/utils/scoringEngine.ts:265-316 | At most five steps, ordered by priority: the High steps for low keyword and technical scores, then the Medium steps for experience and ATS, then the Low formatting step. |
| ScoringEngine.PlanSteps | src/utils/scoringEngine.ts:272-310 | Each step is in the plan exactly when its score is under its threshold: the keyword step, naming the first five missing keywords, below 60 for keywords; the technical step below 60; the experience and ATS steps below 70; the formatting step below 70. |
| ScoringEngine.PlanOnly | src/utils/scoringEngine.ts:265-316 | The plan holds no step other than those five. |

## Left out

- `extractKeywords` (the asynchronous extractor) calls a language-model service and caches its answer in a module variable. Neither the call nor the cache is modelled. `KeywordExtractor.ExtractKeywordsWith` takes the four term lists as a parameter instead.
- `analyzeResume` calls the asynchronous `extractKeywords` without awaiting it (src/utils/resumeAnalyzer.ts:11-16). `resumeKeywords` is then a promise, which has no `map` method, so `resumeKeywords.map(...)` throws a TypeError and `analyzeResume` never returns a result. `ResumeAnalyzer.AnalyzeResume` is given the extracted keyword lists of the job and the résumé instead, as an awaited call would produce them, and models what the function evidently means to compute.
- `KeywordExtractor.TechnicalSkills` omits 'C++' and 'Node.js'. `calculateImportance` builds its patterns from the unescaped term, so 'C++' makes the pattern throw and 'Node.js' matches other text. Custom terms with regular-expression metacharacters have the same problem in the importance patterns, and the model treats every term literally.
- Character handling:
  - Case-insensitive matching and `toLowerCase`/`toUpperCase` fold ASCII letters only.
  - Strings are sequences of Unicode scalar values, not of UTF-16 code units. Lengths, `slice(0, 100)` and `slice(0, 200)` differ from the source's for text outside the Basic Multilingual Plane.
- Floating point:
  - Scores and weights are exact rationals. `jobYears * 0.7` is compared exactly (`ScoringEngine.YearsBonus` tests `10 * resume >= 7 * job`). The double product can differ from the exact one only by a rounding error far smaller than the gap to the next integer, so for whole years the two comparisons can disagree only when `7 * job` is a multiple of 10 and the product rounds above that integer; the model assumes it does not.
  - `maxLength * 0.8` in `smartTruncate` is compared exactly in the same way.
- `KeywordExtractor.Density` states only the keys of the result and that the values are non-negative and 0 without words. The quotient `occurrences / totalWords * 100` is computed as an exact rational, not as a float.
- `calculateReadabilityScore`: the Flesch formula, syllable counting and the rounded averages are floating-point arithmetic and are left out. `TextFormatter.ReadabilityLevel` takes the rounded Flesch score as its input and models the clamping and the level bands.
- `formatResumeText` is not modelled. It is a chain of regular-expression replacements that no other core function uses.
- `generateResumeFileName` is not modelled. It reads the wall clock.
- `categorizeKeywords` builds a plain object whose keys come in the order each category is first met. `KeywordExtractor.Categorize` returns a map, so that key order is not modelled; each bucket's order is.
- `parseInt` on a digit run yields a double, which loses precision above 2^53. `Requirements.LeadingNumbers` and `ScoringEngine.MostYears` read digit runs as exact integers.
- `smartTruncate`'s `maxLength` is a JavaScript number, which may be fractional or NaN. `TextFormatter.SmartTruncate` and `TextFormatter.KeptLength` take an integer.
- `extractSections` returns a plain object. The model returns a map, so the object's key order is not modelled.
- `extractSalaryRange` reads the first two digit runs of the match, so "$100,000 - $150,000" yields 100 and 0. `Requirements.ExtractSalary` models this as written, and `Requirements.SalaryExample` proves that example.
- `generateOptimizationPlan` never uses its `_currentScore` parameter, and `ScoringEngine.OptimizationPlan` takes the same parameter.
- `ScoringEngine.ComprehensiveAsWritten` bounds the recursion with a fuel parameter. The unbounded recursion of the source overflows the stack; the model says this through `ScoringEngine.AsWrittenNeverReturns`.
- `ScoringEngine.TechnicalPoints`: the contract states only the 0..100 range. The exact value for full, none and critical-free coverage is stated through `TechnicalFull`, `TechnicalNone` and `TechnicalWithoutCritical`.
- `ScoringEngine.Recommendations`: the contract states only the bound of ten lines. Which line appears when is stated through the `Recommendations…` lemmas listed above.

## Findings

| source | as written | input that shows it | evidently intended | confidence | as-written member | corrected member |
|---|---|---|---|---|---|---|
| src/utils/scoringEngine.ts:226-230 | When résumé text, job text and both keyword lists are all present, `generateRecommendations` calls `calculateComprehensiveScore`, which calls `generateRecommendations` again with the same arguments, without end. | Any call of `calculateComprehensiveScore` with a non-empty résumé text and a non-empty job text. | Add the excellent note when both the keyword and the technical score are at least 90; the test `overallScore === 100` adds nothing to this. | not executed; high | ScoringEngine.AsWrittenNeverReturns | ScoringEngine.IntendedRecommendations |
