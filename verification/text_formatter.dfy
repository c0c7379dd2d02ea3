/** The text utilities of src/utils/textFormatter.ts: action-verb detection, the set-based compatibility score,
    truncation at a word boundary, splitting a résumé into sections, keyword highlighting, the company facts of
    a job text, and the banding of a readability score. */
module TextFormatter {
  import opened Common
  import opened Chars
  import opened Strings
  import opened Regex

  // ---------------------------------------------------------------- action verbs

  /** The 45 verbs, five to a row as the source lists them. */
  const ActionVerbs: seq<string> :=
    Verbs1 + (Verbs2 + (Verbs3 + (Verbs4 + (Verbs5 + (Verbs6 + (Verbs7 + (Verbs8 + (Verbs9))))))))

  const Verbs1: seq<string> := ["achieved", "administered", "analyzed", "architected", "automated"]
  const Verbs2: seq<string> := ["built", "collaborated", "completed", "coordinated", "created"]
  const Verbs3: seq<string> := ["delivered", "demonstrated", "designed", "developed", "directed"]
  const Verbs4: seq<string> := ["drove", "enhanced", "established", "executed", "expanded"]
  const Verbs5: seq<string> := ["facilitated", "founded", "generated", "implemented", "improved"]
  const Verbs6: seq<string> := ["increased", "initiated", "integrated", "launched", "led"]
  const Verbs7: seq<string> := ["managed", "mentored", "optimized", "organized", "partnered"]
  const Verbs8: seq<string> := ["performed", "planned", "produced", "reduced", "resolved"]
  const Verbs9: seq<string> := ["scaled", "spearheaded", "streamlined", "supervised", "transformed"]

  /** `extractActionVerbs`: the verbs of the list that occur in `text` as whole words, in list order. */
  function ExtractActionVerbs(text: string): (r: seq<string>)
    ensures forall v :: v in r <==> v in ActionVerbs && HasWord(text, v)
    ensures IsSubsequence(r, ActionVerbs)
    ensures NoDups(r) && |r| <= |ActionVerbs|
  {
    ActionVerbsDistinct();
    var r := Select(ActionVerbs, set v | v in ActionVerbs && HasWord(text, v), true);
    SelectSplits(ActionVerbs, set v | v in ActionVerbs && HasWord(text, v));
    r
  }

  /** The first four characters of a word as a number, enough to order the verb list strictly. */
  function Prefix4(w: string): nat
  {
    ((CodeAt(w, 0) * 0x1_0000 + CodeAt(w, 1)) * 0x1_0000 + CodeAt(w, 2)) * 0x1_0000 + CodeAt(w, 3)
  }

  function CodeAt(w: string, i: nat): nat
  {
    if i < |w| then w[i] as nat else 0
  }

  predicate Ascending(s: seq<string>)
  {
    |s| < 2 || (Prefix4(s[0]) < Prefix4(s[1]) && Ascending(s[1..]))
  }

  lemma {:induction false} AscendingDistinct(s: seq<string>)
    requires Ascending(s)
    ensures forall j :: 0 < j < |s| ==> Prefix4(s[0]) < Prefix4(s[j])
    ensures NoDups(s)
  {
    if |s| > 1 {
      AscendingDistinct(s[1..]);
      forall j | 1 < j < |s| ensures Prefix4(s[0]) < Prefix4(s[j]) {
        assert Prefix4(s[1..][0]) < Prefix4(s[1..][j - 1]);
      }
      forall i, j | 0 <= i < j < |s| ensures s[i] != s[j] {
        if i > 0 {
          assert s[1..][i - 1] != s[1..][j - 1];
        }
      }
    }
  }

  lemma {:induction false} AscendingAppend(a: seq<string>, b: seq<string>)
    requires Ascending(a) && Ascending(b)
    requires |a| > 0 && |b| > 0 && Prefix4(a[|a| - 1]) < Prefix4(b[0])
    ensures Ascending(a + b)
    decreases |a|
  {
    if |a| > 1 {
      AscendingAppend(a[1..], b);
      assert (a + b)[1..] == a[1..] + b;
    } else {
      assert (a + b)[1..] == b;
    }
  }

  lemma AscendingRow(r: seq<string>)
    requires |r| == 5
    requires Prefix4(r[0]) < Prefix4(r[1]) < Prefix4(r[2]) < Prefix4(r[3]) < Prefix4(r[4])
    ensures Ascending(r)
  {
    assert Ascending(r[4..]);
    assert Ascending(r[3..]) by { assert r[3..][1..] == r[4..]; }
    assert Ascending(r[2..]) by { assert r[2..][1..] == r[3..]; }
    assert Ascending(r[1..]) by { assert r[1..][1..] == r[2..]; }
  }

  /** The verb list is in strictly increasing order of its first four letters, so no verb is listed twice. */
  lemma ActionVerbsDistinct()
    ensures NoDups(ActionVerbs)
  {
    RowsAscending();
    RowsMeet();
    AscendingAppend(Verbs8, Verbs9);
    AscendingAppend(Verbs7, Verbs8 + Verbs9);
    AscendingAppend(Verbs6, Verbs7 + (Verbs8 + Verbs9));
    AscendingAppend(Verbs5, Verbs6 + (Verbs7 + (Verbs8 + Verbs9)));
    AscendingAppend(Verbs4, Verbs5 + (Verbs6 + (Verbs7 + (Verbs8 + Verbs9))));
    AscendingAppend(Verbs3, Verbs4 + (Verbs5 + (Verbs6 + (Verbs7 + (Verbs8 + Verbs9)))));
    AscendingAppend(Verbs2, Verbs3 + (Verbs4 + (Verbs5 + (Verbs6 + (Verbs7 + (Verbs8 + Verbs9))))));
    AscendingAppend(Verbs1, Verbs2 + (Verbs3 + (Verbs4 + (Verbs5 + (Verbs6 + (Verbs7 + (Verbs8 + Verbs9)))))));
    AscendingDistinct(ActionVerbs);
  }

  /** Each row separately: the characters of one row at a time keep each proof small. */
  lemma RowsAscending()
    ensures Ascending(Verbs1)
    ensures Ascending(Verbs2)
    ensures Ascending(Verbs3)
    ensures Ascending(Verbs4)
    ensures Ascending(Verbs5)
    ensures Ascending(Verbs6)
    ensures Ascending(Verbs7)
    ensures Ascending(Verbs8)
    ensures Ascending(Verbs9)
  {
    Verbs1Ascending();
    Verbs2Ascending();
    Verbs3Ascending();
    Verbs4Ascending();
    Verbs5Ascending();
    Verbs6Ascending();
    Verbs7Ascending();
    Verbs8Ascending();
    Verbs9Ascending();
  }

  lemma Verbs1Ascending()
    ensures Ascending(Verbs1)
  {
    AscendingRow(Verbs1);
  }

  lemma Verbs2Ascending()
    ensures Ascending(Verbs2)
  {
    AscendingRow(Verbs2);
  }

  lemma Verbs3Ascending()
    ensures Ascending(Verbs3)
  {
    AscendingRow(Verbs3);
  }

  lemma Verbs4Ascending()
    ensures Ascending(Verbs4)
  {
    AscendingRow(Verbs4);
  }

  lemma Verbs5Ascending()
    ensures Ascending(Verbs5)
  {
    AscendingRow(Verbs5);
  }

  lemma Verbs6Ascending()
    ensures Ascending(Verbs6)
  {
    AscendingRow(Verbs6);
  }

  lemma Verbs7Ascending()
    ensures Ascending(Verbs7)
  {
    AscendingRow(Verbs7);
  }

  lemma Verbs8Ascending()
    ensures Ascending(Verbs8)
  {
    AscendingRow(Verbs8);
  }

  lemma Verbs9Ascending()
    ensures Ascending(Verbs9)
  {
    AscendingRow(Verbs9);
  }

  lemma RowsMeet()
    ensures Prefix4(Verbs1[4]) < Prefix4(Verbs2[0])
    ensures Prefix4(Verbs2[4]) < Prefix4(Verbs3[0])
    ensures Prefix4(Verbs3[4]) < Prefix4(Verbs4[0])
    ensures Prefix4(Verbs4[4]) < Prefix4(Verbs5[0])
    ensures Prefix4(Verbs5[4]) < Prefix4(Verbs6[0])
    ensures Prefix4(Verbs6[4]) < Prefix4(Verbs7[0])
    ensures Prefix4(Verbs7[4]) < Prefix4(Verbs8[0])
    ensures Prefix4(Verbs8[4]) < Prefix4(Verbs9[0])
  {
  }

  // ---------------------------------------------------------------- compatibility

  datatype Compatibility = Compatibility(
    score: int,
    common: seq<string>,
    uniqueToResume: seq<string>,
    uniqueToJob: seq<string>)

  /** `calculateCompatibilityScore`: the lower-cased keyword sets of résumé and job, what they share, what only
      one of them has, and the share of the job's set the résumé covers. Each list keeps the insertion order of
      the set it is filtered from. */
  function CompatibilityScore(resumeKeywords: seq<string>, jobKeywords: seq<string>): (c: Compatibility)
    ensures forall k :: k in c.common <==> k in LowerAll(resumeKeywords) && k in LowerAll(jobKeywords)
    ensures forall k :: k in c.uniqueToResume <==> k in LowerAll(resumeKeywords) && k !in LowerAll(jobKeywords)
    ensures forall k :: k in c.uniqueToJob <==> k in LowerAll(jobKeywords) && k !in LowerAll(resumeKeywords)
    ensures NoDups(c.common) && NoDups(c.uniqueToResume) && NoDups(c.uniqueToJob)
    ensures |c.common| + |c.uniqueToResume| == |Dedup(LowerAll(resumeKeywords))|
    ensures |c.common| + |c.uniqueToJob| == |Dedup(LowerAll(jobKeywords))|
    ensures IsSubsequence(c.common, Dedup(LowerAll(resumeKeywords)))
    ensures IsSubsequence(c.uniqueToResume, Dedup(LowerAll(resumeKeywords)))
    ensures IsSubsequence(c.uniqueToJob, Dedup(LowerAll(jobKeywords)))
    ensures c.score == Percent(|c.common|, |Dedup(LowerAll(jobKeywords))|)
    ensures 0 <= c.score <= 100
    ensures jobKeywords == [] ==> c.score == 0
    ensures jobKeywords != [] && c.uniqueToJob == [] ==> c.score == 100
  {
    var resumeSet := Dedup(LowerAll(resumeKeywords));
    var jobSet := Dedup(LowerAll(jobKeywords));
    var jobKeys := set k | k in jobSet;
    var resumeKeys := set k | k in resumeSet;
    var common := Select(resumeSet, jobKeys, true);
    var uniqueToResume := Select(resumeSet, jobKeys, false);
    var uniqueToJob := Select(jobSet, resumeKeys, false);
    SelectSplits(resumeSet, jobKeys);
    DisjointUnionLength(common, uniqueToJob, jobSet);
    assert jobKeywords != [] ==> |jobSet| > 0 by {
      if jobKeywords != [] {
        assert LowerAll(jobKeywords)[0] in jobSet;
      }
    }
    Compatibility(Percent(|common|, |jobSet|), common, uniqueToResume, uniqueToJob)
  }

  // ---------------------------------------------------------------- truncation

  /** `smartTruncate`: a text longer than `maxLength` is cut to `maxLength` characters, or back to its last space
      when that space lies beyond 80% of `maxLength` (`lastSpace > maxLength * 0.8`, compared exactly), and
      "..." is appended. `slice` with a negative bound counts from the end, as `SliceTo` does. */
  function SmartTruncate(text: string, maxLength: int): (r: string)
    ensures |text| <= maxLength ==> r == text
    ensures |text| > maxLength ==>
      |r| >= 3 && r[|r| - 3..] == "..." && |r| - 3 <= |text| && r[..|r| - 3] == text[..|r| - 3]
    ensures |text| > maxLength ==> |r| - 3 == KeptLength(text, maxLength)
  {
    if |text| <= maxLength then text
    else
      var n := KeptLength(text, maxLength);
      var r := text[..n] + "...";
      assert r[..n] == text[..n] && r[n..] == "...";
      r
  }

  /** How many characters of an over-long text `smartTruncate` keeps: `maxLength`, or the position of the last
      space before it when that lies beyond 80% of `maxLength`. */
  function KeptLength(text: string, maxLength: int): (n: nat)
    requires |text| > maxLength
    ensures n <= |text|
    ensures maxLength >= 0 ==> n <= maxLength
    ensures maxLength >= 0 && n < maxLength ==>
      text[n] == ' ' && 4 * maxLength < 5 * n && forall i :: n < i < maxLength ==> text[i] != ' '
    ensures maxLength >= 0 && (forall i :: 4 * maxLength < 5 * i < 5 * maxLength ==> text[i] != ' ') ==>
      n == maxLength
    ensures maxLength >= 0 && (exists i :: 4 * maxLength < 5 * i < 5 * maxLength && text[i] == ' ') ==>
      n < maxLength
  {
    var truncated := SliceTo(text, maxLength);
    assert truncated == text[..|truncated|];
    var lastSpace := LastIndexOf(truncated, ' ');
    if 5 * lastSpace > 4 * maxLength then
      var kept := SliceTo(truncated, lastSpace);
      assert maxLength >= 0 ==> |truncated| == maxLength && |kept| == lastSpace && text[lastSpace] == ' ';
      |kept|
    else
      assert maxLength >= 0 ==> |truncated| == maxLength;
      assert maxLength >= 0 && 0 < maxLength ==> text[maxLength - 1] == truncated[maxLength - 1];
      |truncated|
  }

  // ---------------------------------------------------------------- sections

  const SectionHeaders: seq<string> := [
    "SUMMARY", "OBJECTIVE", "EXPERIENCE", "WORK EXPERIENCE",
    "EDUCATION", "SKILLS", "TECHNICAL SKILLS", "PROJECTS",
    "CERTIFICATIONS", "AWARDS", "LANGUAGES"]

  const Preamble := "HEADER"

  /** The index of the first of `hs` that `t` starts with. Equality with a header is one way of starting with
      it, so the source's `===` test adds nothing to the prefix test. */
  function FirstPrefix(t: string, hs: seq<string>): (r: Option<nat>)
    ensures r.None? <==> forall j :: 0 <= j < |hs| ==> !StartsWith(t, hs[j])
    ensures r.Some? ==> r.value < |hs| && StartsWith(t, hs[r.value])
    ensures r.Some? ==> forall j :: 0 <= j < r.value ==> !StartsWith(t, hs[j])
  {
    if |hs| == 0 then None
    else if StartsWith(t, hs[0]) then Some(0)
    else
      match FirstPrefix(t, hs[1..])
      case None => None
      case Some(i) => Some(i + 1)
  }

  /** The header a line announces: the first listed header its trimmed, upper-cased text starts with. */
  function HeaderOf(line: string): (r: Option<string>)
    ensures r.Some? ==> r.value in SectionHeaders
  {
    match FirstPrefix(Upper(Trim(line)), SectionHeaders)
    case None => None
    case Some(i) => Some(SectionHeaders[i])
  }

  /** A line announces no header exactly when its trimmed, upper-cased text starts with none of them, and
      otherwise the first listed header it starts with. */
  lemma HeaderOfFirst(line: string)
    ensures HeaderOf(line).None? <==>
      forall j :: 0 <= j < |SectionHeaders| ==> !StartsWith(Upper(Trim(line)), SectionHeaders[j])
    ensures HeaderOf(line).Some? ==> exists j :: (0 <= j < |SectionHeaders| && HeaderOf(line).value == SectionHeaders[j]
      && StartsWith(Upper(Trim(line)), SectionHeaders[j])
      && forall i :: 0 <= i < j ==> !StartsWith(Upper(Trim(line)), SectionHeaders[i]))
  {
  }

  /** The state of the `forEach` over the lines: the section being read, its lines so far, and the sections
      already stored. */
  datatype Reader = Reader(current: string, content: seq<string>, done: map<string, string>)

  /** Storing the section being read, if it has any lines; a later section of the same name replaces it. */
  function Flush(st: Reader): (m: map<string, string>)
    ensures m.Keys == st.done.Keys + (if |st.content| > 0 then {st.current} else {})
  {
    if |st.content| > 0 then st.done[st.current := Trim(Join(st.content, "\n"))] else st.done
  }

  /** One line of the `forEach`: a line announcing a header (as `announce` says) stores the section being read
      and starts the announced one; any other line joins the section being read. */
  function Step(st: Reader, line: string, announce: string -> Option<string>): Reader
  {
    match announce(line)
    case Some(h) => Reader(h, [], Flush(st))
    case None => Reader(st.current, st.content + [line], st.done)
  }

  function Read(lines: seq<string>, announce: string -> Option<string>): Reader
  {
    if |lines| == 0 then Reader(Preamble, [], map[])
    else Step(Read(lines[..|lines| - 1], announce), lines[|lines| - 1], announce)
  }

  /** `extractSections`. The source stores the last section when it reaches the last line; as `split` always
      yields at least one line, that is the same as storing it after the loop. Apart from "HEADER", a name is
      stored exactly when some line announces it and is followed by a line that announces nothing, and its
      text is the block of lines after the last such announcement. */
  function ExtractSections(text: string): (r: map<string, string>)
    ensures forall k :: k in r ==> k == Preamble || k in SectionHeaders
    ensures forall k :: k in r ==> BodyText(r[k])
    ensures forall k :: k != Preamble ==> Agrees(r, Split(text, {'\n'}), k, |Split(text, {'\n'})|, HeaderOf)
    ensures Preamble in r ==> r[Preamble] == PreambleBlock(Split(text, {'\n'}), HeaderOf)
  {
    var lines := Split(text, {'\n'});
    var st := Read(lines, HeaderOf);
    ReadKeeps(lines);
    ReadTracks(lines, HeaderOf);
    FlushTracks(lines, HeaderOf, st);
    SectionsPreamble(lines);
    Flush(st)
  }

  /** The text stored under "HEADER": the lines before the first announcement, joined and trimmed. */
  function PreambleBlock(lines: seq<string>, announce: string -> Option<string>): string
  {
    Trim(Join(lines[..BlockEnd(lines, 0, announce)], "\n"))
  }

  /** No line announces "HEADER": it is not one of the listed headers. */
  lemma HeaderOfNotPreamble()
    ensures forall l :: HeaderOf(l) != Some(Preamble)
  {
    assert Preamble !in SectionHeaders;
  }

  /** Before any announcement nothing is stored under "HEADER"; once something is, it is the lines before the
      first announcement. */
  ghost predicate PreambleTracks(lines: seq<string>, st: Reader, announce: string -> Option<string>)
  {
    && (LastHeader(lines, announce) < 0 ==> Preamble !in st.done)
    && (Preamble in st.done ==> st.done[Preamble] == PreambleBlock(lines, announce))
  }

  /** What `Tracks` says of the section being read, without the stored sections. */
  ghost predicate Reading(lines: seq<string>, st: Reader, announce: string -> Option<string>)
  {
    var h := LastHeader(lines, announce);
    && st.current == (if h < 0 then Preamble else announce(lines[h]).value)
    && st.content == lines[h + 1..]
  }

  lemma ReadReading(lines: seq<string>, announce: string -> Option<string>)
    ensures Reading(lines, Read(lines, announce), announce)
  {
    ReadTracks(lines, announce);
  }

  /** The "HEADER" text that `ExtractSections` stores is the lines before the first listed header. */
  lemma SectionsPreamble(lines: seq<string>)
    ensures var r := Flush(Read(lines, HeaderOf)); Preamble in r ==> r[Preamble] == PreambleBlock(lines, HeaderOf)
  {
    HeaderOfNotPreamble();
    ReadPreambleTracks(lines, HeaderOf);
    ReadReading(lines, HeaderOf);
    FlushPreamble(lines, HeaderOf, Read(lines, HeaderOf));
  }

  /** The reader keeps `PreambleTracks` line after line. */
  lemma {:induction false} ReadPreambleTracks(lines: seq<string>, announce: string -> Option<string>)
    requires forall l :: announce(l) != Some(Preamble)
    ensures PreambleTracks(lines, Read(lines, announce), announce)
  {
    if |lines| > 0 {
      var init, l := lines[..|lines| - 1], lines[|lines| - 1];
      assert lines == init + [l];
      ReadPreambleTracks(init, announce);
      ReadReading(init, announce);
      var st := Read(init, announce);
      if announce(l).Some? {
        PreambleHeaderStep(init, l, announce, st);
      } else {
        PreambleBodyStep(init, l, announce, st);
      }
    }
  }

  /** An announcement stores the lines before it under "HEADER" when no announcement came earlier, and leaves
      "HEADER" alone otherwise. */
  lemma PreambleHeaderStep(init: seq<string>, l: string, announce: string -> Option<string>, st: Reader)
    requires forall x :: announce(x) != Some(Preamble)
    requires announce(l).Some?
    requires Reading(init, st, announce) && PreambleTracks(init, st, announce)
    ensures PreambleTracks(init + [l], Step(st, l, announce), announce)
  {
    var lines := init + [l];
    var e := BlockEnd(init, 0, announce);
    assert LastHeader(lines, announce) == |init| by {
      assert lines[..|lines| - 1] == init;
    }
    BlockEndAppend(init, l, 0, announce);
    assert lines[..e] == init[..e];
    if st.current == Preamble && |st.content| > 0 {
      assert LastHeader(init, announce) < 0;
      assert st.content == init[..e];
    }
  }

  /** A line that announces nothing leaves "HEADER" alone; if it is stored, the first announcement lies
      before the line. */
  lemma PreambleBodyStep(init: seq<string>, l: string, announce: string -> Option<string>, st: Reader)
    requires announce(l).None?
    requires Reading(init, st, announce) && PreambleTracks(init, st, announce)
    ensures PreambleTracks(init + [l], Step(st, l, announce), announce)
  {
    var lines := init + [l];
    var h := LastHeader(init, announce);
    var e := BlockEnd(init, 0, announce);
    assert LastHeader(lines, announce) == h by {
      assert lines[..|lines| - 1] == init;
    }
    if Preamble in st.done {
      assert e <= h;
      BlockEndAppend(init, l, 0, announce);
      assert lines[..e] == init[..e];
    }
  }

  /** Storing the section being read after the last line keeps the "HEADER" text the lines before the first
      announcement. */
  lemma FlushPreamble(lines: seq<string>, announce: string -> Option<string>, st: Reader)
    requires forall x :: announce(x) != Some(Preamble)
    requires Reading(lines, st, announce) && PreambleTracks(lines, st, announce)
    ensures Preamble in Flush(st) ==> Flush(st)[Preamble] == PreambleBlock(lines, announce)
  {
    if st.current == Preamble && |st.content| > 0 {
      assert LastHeader(lines, announce) < 0;
      assert st.content == lines[..BlockEnd(lines, 0, announce)];
    }
  }

  /** The first line from `from` on that announces a header, or the number of lines: where the block of
      lines starting at `from` ends. */
  function BlockEnd(lines: seq<string>, from: nat, announce: string -> Option<string>): (e: nat)
    requires from <= |lines|
    ensures from <= e <= |lines|
    ensures forall m :: from <= m < e ==> announce(lines[m]).None?
    ensures e < |lines| ==> announce(lines[e]).Some?
    decreases |lines| - from
  {
    if from == |lines| || announce(lines[from]).Some? then from else BlockEnd(lines, from + 1, announce)
  }

  /** The text stored for the section announced at line `i`: the lines up to the next announcement, joined
      and trimmed. */
  function Block(lines: seq<string>, i: nat, announce: string -> Option<string>): string
    requires i < |lines|
  {
    Trim(Join(lines[i + 1..BlockEnd(lines, i + 1, announce)], "\n"))
  }

  /** Line `i` announces `k`, and the line after it announces nothing, so the section has lines. */
  ghost predicate Opens(lines: seq<string>, i: int, k: string, announce: string -> Option<string>)
  {
    0 <= i < |lines| - 1 && announce(lines[i]) == Some(k) && announce(lines[i + 1]).None?
  }

  /** Line `i`, before `bound`, opens a section named `k`, and no later line before `bound` does. */
  ghost predicate LastOpens(lines: seq<string>, i: int, k: string, bound: int, announce: string -> Option<string>)
  {
    0 <= i < bound && Opens(lines, i, k, announce) && forall j :: i < j < bound ==> !Opens(lines, j, k, announce)
  }

  /** Among the lines before `bound`, `k` is stored in `m` exactly when some line opens a section named `k`,
      and its text is the block of the last such line. */
  ghost predicate Agrees(m: map<string, string>, lines: seq<string>, k: string, bound: int,
                         announce: string -> Option<string>)
  {
    && (k in m <==> exists i :: 0 <= i < bound && Opens(lines, i, k, announce))
    && (k in m ==> exists i :: LastOpens(lines, i, k, bound, announce) && m[k] == Block(lines, i, announce))
  }

  /** The last line announcing a header, or -1 when none does. */
  function LastHeader(lines: seq<string>, announce: string -> Option<string>): (h: int)
    ensures -1 <= h < |lines|
    ensures h >= 0 ==> announce(lines[h]).Some?
    ensures forall j :: h < j < |lines| ==> announce(lines[j]).None?
  {
    if |lines| == 0 then -1
    else if announce(lines[|lines| - 1]).Some? then |lines| - 1
    else LastHeader(lines[..|lines| - 1], announce)
  }

  /** What the reader holds after `lines`: the section of the last announcement and the lines after it, and,
      for every other name, the sections completed before that last announcement. */
  ghost predicate Tracks(lines: seq<string>, st: Reader, announce: string -> Option<string>)
  {
    var h := LastHeader(lines, announce);
    && st.current == (if h < 0 then Preamble else announce(lines[h]).value)
    && st.content == lines[h + 1..]
    && forall k :: k != Preamble ==> Agrees(st.done, lines, k, h, announce)
  }

  /** Appending a line changes neither the announcements nor the block of a line `i` whose block was already
      closed, or is closed by the new line. */
  lemma AppendKeepsBlock(lines: seq<string>, l: string, i: nat, announce: string -> Option<string>)
    requires i < |lines| - 1 || (i == |lines| - 1 && announce(l).Some?)
    requires BlockEnd(lines, i + 1, announce) < |lines| || announce(l).Some?
    ensures forall k :: Opens(lines + [l], i, k, announce) <==> Opens(lines, i, k, announce)
    ensures BlockEnd(lines + [l], i + 1, announce) == BlockEnd(lines, i + 1, announce)
    ensures Block(lines + [l], i, announce) == Block(lines, i, announce)
  {
    var ls := lines + [l];
    BlockEndAppend(lines, l, i + 1, announce);
    var e := BlockEnd(lines, i + 1, announce);
    assert ls[i + 1..e] == lines[i + 1..e];
  }

  /** The next announcement from `from` on stays where it was when a line is appended, provided it was found
      among the old lines or the new line announces. */
  lemma {:induction false} BlockEndAppend(lines: seq<string>, l: string, from: nat,
                                          announce: string -> Option<string>)
    requires from <= |lines|
    requires BlockEnd(lines, from, announce) < |lines| || announce(l).Some?
    ensures BlockEnd(lines + [l], from, announce) == BlockEnd(lines, from, announce)
    decreases |lines| - from
  {
    var ls := lines + [l];
    if from < |lines| {
      assert ls[from] == lines[from];
      if announce(lines[from]).None? {
        BlockEndAppend(lines, l, from + 1, announce);
      }
    } else {
      assert ls[from] == l;
    }
  }

  /** `Agrees` carries over to a longer list of lines that opens the same sections, with the same blocks,
      before `bound`. */
  lemma AgreesAppend(m: map<string, string>, lines: seq<string>, l: string, k: string, bound: int,
                     announce: string -> Option<string>)
    requires bound <= |lines|
    requires forall i :: 0 <= i < bound ==> (Opens(lines + [l], i, k, announce) <==> Opens(lines, i, k, announce))
    requires forall i :: 0 <= i < bound ==> Block(lines + [l], i, announce) == Block(lines, i, announce)
    requires Agrees(m, lines, k, bound, announce)
    ensures Agrees(m, lines + [l], k, bound, announce)
  {
    if k in m {
      var i :| LastOpens(lines, i, k, bound, announce) && m[k] == Block(lines, i, announce);
      assert LastOpens(lines + [l], i, k, bound, announce);
    }
    if exists i :: 0 <= i < bound && Opens(lines + [l], i, k, announce) {
      var i :| 0 <= i < bound && Opens(lines + [l], i, k, announce);
      assert Opens(lines, i, k, announce);
    }
  }

  /** The reader keeps `Tracks` line after line. */
  lemma {:induction false} ReadTracks(lines: seq<string>, announce: string -> Option<string>)
    ensures Tracks(lines, Read(lines, announce), announce)
  {
    if |lines| > 0 {
      var init, l := lines[..|lines| - 1], lines[|lines| - 1];
      assert lines == init + [l];
      ReadTracks(init, announce);
      var st := Read(init, announce);
      if announce(l).Some? {
        StepHeaderTracks(init, l, announce, st);
      } else {
        StepBodyTracks(init, l, announce, st);
      }
    }
  }

  /** A line announcing a header closes every section before it. */
  lemma StepHeaderTracks(init: seq<string>, l: string, announce: string -> Option<string>, st: Reader)
    requires announce(l).Some?
    requires Tracks(init, st, announce)
    ensures Tracks(init + [l], Step(st, l, announce), announce)
  {
    var lines := init + [l];
    FlushTracks(init, announce, st);
    assert LastHeader(lines, announce) == |init| by {
      assert lines[..|lines| - 1] == init;
    }
    forall i | 0 <= i < |init|
      ensures Block(lines, i, announce) == Block(init, i, announce)
      ensures forall k :: Opens(lines, i, k, announce) <==> Opens(init, i, k, announce)
    {
      AppendKeepsBlock(init, l, i, announce);
    }
    forall k | k != Preamble ensures Agrees(Flush(st), lines, k, |init|, announce) {
      AgreesAppend(Flush(st), init, l, k, |init|, announce);
    }
  }

  /** A line announcing nothing joins the section being read and closes no section. */
  lemma StepBodyTracks(init: seq<string>, l: string, announce: string -> Option<string>, st: Reader)
    requires announce(l).None?
    requires Tracks(init, st, announce)
    ensures Tracks(init + [l], Step(st, l, announce), announce)
  {
    var lines := init + [l];
    var h := LastHeader(init, announce);
    assert LastHeader(lines, announce) == h by {
      assert lines[..|lines| - 1] == init;
    }
    assert lines[h + 1..] == init[h + 1..] + [l];
    forall i | 0 <= i < h
      ensures Block(lines, i, announce) == Block(init, i, announce)
      ensures forall k :: Opens(lines, i, k, announce) <==> Opens(init, i, k, announce)
    {
      assert BlockEnd(init, i + 1, announce) <= h;
      AppendKeepsBlock(init, l, i, announce);
    }
    forall k | k != Preamble ensures Agrees(st.done, lines, k, h, announce) {
      AgreesAppend(st.done, init, l, k, h, announce);
    }
  }

  /** Storing the last section completes the sections of all the lines. */
  lemma FlushTracks(lines: seq<string>, announce: string -> Option<string>, st: Reader)
    requires Tracks(lines, st, announce)
    ensures forall k :: k != Preamble ==> Agrees(Flush(st), lines, k, |lines|, announce)
  {
    var h := LastHeader(lines, announce);
    assert Pending(lines, h, st, announce);
    forall k | k != Preamble ensures Agrees(Flush(st), lines, k, |lines|, announce) {
      FlushKey(lines, announce, h, st, k);
    }
  }

  /** The reader's state after the lines: `h` is the last announcement (or -1), `st.current` the section it
      announced, and `st.content` the lines after it. */
  ghost predicate Pending(lines: seq<string>, h: int, st: Reader, announce: string -> Option<string>)
  {
    && -1 <= h < |lines|
    && (forall j :: h < j < |lines| ==> announce(lines[j]).None?)
    && (h < 0 ==> st.current == Preamble)
    && (h >= 0 ==> announce(lines[h]) == Some(st.current))
    && st.content == lines[h + 1..]
  }

  lemma {:induction false} FlushKey(lines: seq<string>, announce: string -> Option<string>, h: int, st: Reader,
                                    k: string)
    requires Pending(lines, h, st, announce)
    requires k != Preamble
    requires Agrees(st.done, lines, k, h, announce)
    ensures Agrees(Flush(st), lines, k, |lines|, announce)
  {
    if |st.content| > 0 && k == st.current {
      FlushCurrent(lines, announce, h, st);
    } else {
      FlushOther(lines, announce, h, st, k);
    }
  }

  /** The section being read is the one opened by the last announcement. */
  lemma FlushCurrent(lines: seq<string>, announce: string -> Option<string>, h: int, st: Reader)
    requires Pending(lines, h, st, announce)
    requires |st.content| > 0 && st.current != Preamble
    ensures Agrees(Flush(st), lines, st.current, |lines|, announce)
  {
    assert 0 <= h < |lines| - 1;
    assert Opens(lines, h, st.current, announce);
    assert LastOpens(lines, h, st.current, |lines|, announce);
    assert BlockEnd(lines, h + 1, announce) == |lines|;
    assert lines[h + 1..|lines|] == st.content;
  }

  /** Any other name is stored as before, and no line from the last announcement on opens it. */
  lemma {:induction false} FlushOther(lines: seq<string>, announce: string -> Option<string>, h: int, st: Reader,
                                      k: string)
    requires Pending(lines, h, st, announce)
    requires !(|st.content| > 0 && k == st.current)
    requires Agrees(st.done, lines, k, h, announce)
    ensures Agrees(Flush(st), lines, k, |lines|, announce)
  {
    FlushKeeps(st, k);
    NoOpensAfter(lines, h, st, k, announce);
    AgreesExtend(Flush(st), st.done, lines, k, h, |lines|, announce);
  }

  /** Storing the section being read leaves every other name as it was. */
  lemma FlushKeeps(st: Reader, k: string)
    requires !(|st.content| > 0 && k == st.current)
    ensures k in Flush(st) <==> k in st.done
    ensures k in Flush(st) ==> Flush(st)[k] == st.done[k]
  {
  }

  /** No line from the last announcement on opens a section named `k` other than the one being read: a later
      line announces nothing, and the last announcement itself opens the section being read, if any. */
  lemma NoOpensAfter(lines: seq<string>, h: int, st: Reader, k: string, announce: string -> Option<string>)
    requires Pending(lines, h, st, announce)
    requires !(|st.content| > 0 && k == st.current)
    ensures forall j :: h <= j < |lines| ==> !Opens(lines, j, k, announce)
  {
    assert |st.content| == |lines| - h - 1;
  }

  /** `Agrees` moves on to a later bound when no line in between opens `k` and `k` is stored as before. */
  lemma AgreesExtend(m: map<string, string>, m0: map<string, string>, lines: seq<string>, k: string,
                     h: int, bound: int, announce: string -> Option<string>)
    requires h <= bound <= |lines|
    requires forall j :: h <= j < bound ==> !Opens(lines, j, k, announce)
    requires (k in m <==> k in m0) && (k in m ==> m[k] == m0[k])
    requires Agrees(m0, lines, k, h, announce)
    ensures Agrees(m, lines, k, bound, announce)
  {
    if i :| 0 <= i < bound && Opens(lines, i, k, announce) {
      assert i < h;
    }
    if k in m {
      var i :| LastOpens(lines, i, k, h, announce) && m0[k] == Block(lines, i, announce);
      assert LastOpens(lines, i, k, bound, announce);
    }
  }

  /** Text assembled from lines none of which announces a header. */
  ghost predicate BodyText(v: string)
  {
    exists ls: seq<string> :: (forall l :: l in ls ==> HeaderOf(l).None?) && v == Trim(Join(ls, "\n"))
  }

  ghost predicate Sound(st: Reader)
  {
    && (st.current == Preamble || st.current in SectionHeaders)
    && (forall l :: l in st.content ==> HeaderOf(l).None?)
    && (forall k :: k in st.done ==> (k == Preamble || k in SectionHeaders) && BodyText(st.done[k]))
  }

  lemma FlushSound(st: Reader)
    requires Sound(st)
    ensures forall k :: k in Flush(st) ==> (k == Preamble || k in SectionHeaders) && BodyText(Flush(st)[k])
  {
    if |st.content| > 0 {
      assert BodyText(Trim(Join(st.content, "\n")));
    }
  }

  /** Every stored section is named by the preamble or a listed header, and no header line is stored inside a
      section. */
  lemma {:induction false} ReadKeeps(lines: seq<string>)
    ensures Sound(Read(lines, HeaderOf))
    ensures forall k :: k in Flush(Read(lines, HeaderOf)) ==> (k == Preamble || k in SectionHeaders) && BodyText(Flush(Read(lines, HeaderOf))[k])
  {
    if |lines| > 0 {
      var st := Read(lines[..|lines| - 1], HeaderOf);
      ReadKeeps(lines[..|lines| - 1]);
      FlushSound(st);
    }
    FlushSound(Read(lines, HeaderOf));
  }

  /** A text without header lines is a single preamble section holding the whole text, trimmed. */
  lemma NoHeadersOneSection(text: string)
    requires forall l :: l in Split(text, {'\n'}) ==> HeaderOf(l).None?
    ensures ExtractSections(text) == map[Preamble := Trim(text)]
  {
    var lines := Split(text, {'\n'});
    ReadPlain(lines);
    JoinSplit(text, '\n');
  }

  lemma {:induction false} ReadPlain(lines: seq<string>)
    requires forall l :: l in lines ==> HeaderOf(l).None?
    ensures Read(lines, HeaderOf) == Reader(Preamble, lines, map[])
  {
    if |lines| > 0 {
      var init, last := lines[..|lines| - 1], lines[|lines| - 1];
      assert lines == init + [last];
      ReadPlain(init);
      StepPlain(Reader(Preamble, init, map[]), last);
    }
  }

  lemma StepPlain(st: Reader, line: string)
    requires HeaderOf(line).None?
    ensures Step(st, line, HeaderOf) == Reader(st.current, st.content + [line], st.done)
  {
  }

  /** The preamble is stored exactly when the first line announces no header: lines before the first header
      belong to it, and no header line is ever named after it. */
  lemma PreambleIff(text: string)
    ensures Preamble in ExtractSections(text) <==> HeaderOf(Split(text, {'\n'})[0]).None?
  {
    ReadPreamble(Split(text, {'\n'}));
  }

  lemma {:induction false} ReadPreamble(lines: seq<string>)
    requires |lines| > 0
    ensures HeaderOf(lines[0]).None? ==>
      Preamble in Read(lines, HeaderOf).done || (Read(lines, HeaderOf).current == Preamble && |Read(lines, HeaderOf).content| > 0)
    ensures HeaderOf(lines[0]).Some? ==> Preamble !in Read(lines, HeaderOf).done && Read(lines, HeaderOf).current != Preamble
  {
    assert Preamble !in SectionHeaders;
    var init := lines[..|lines| - 1];
    if |init| > 0 {
      ReadPreamble(init);
      assert init[0] == lines[0];
    }
  }

  // ---------------------------------------------------------------- highlighting

  /** Spans, in order and apart, lying in the text from position `pos` on. */
  predicate Spans(s: string, ms: seq<Span>, pos: nat)
  {
    && pos <= |s|
    && (forall i :: 0 <= i < |ms| ==> pos <= ms[i].start <= ms[i].end <= |s|)
    && (forall i, j :: 0 <= i < j < |ms| ==> ms[i].end <= ms[j].start)
  }

  /** The text rebuilt from position `pos` with every span of `ms` wrapped in "**". */
  function Mark(s: string, ms: seq<Span>, pos: nat): (r: string)
    requires Spans(s, ms, pos)
    ensures |r| == |s| - pos + 4 * |ms|
    ensures ms == [] ==> r == s[pos..]
    decreases |ms|
  {
    if |ms| == 0 then s[pos..]
    else
      var m := ms[0];
      s[pos..m.start] + "**" + s[m.start..m.end] + "**" + Mark(s, ms[1..], m.end)
  }

  /** Where the `i`-th stretch of text outside the spans begins: at `pos`, or where the span before it ends. */
  function GapStart(ms: seq<Span>, i: nat, pos: nat): nat
    requires i <= |ms|
  {
    if i == 0 then pos else ms[i - 1].end
  }

  /** Where the `i`-th stretch of text outside the spans ends: where the next span starts, or at the end. */
  function GapEnd(s: string, ms: seq<Span>, i: nat): nat
    requires i <= |ms|
  {
    if i < |ms| then ms[i].start else |s|
  }

  /** `r` is the text from `pos` on with the spans wrapped: every span appears in `r` between "**" and "**",
      shifted by the four characters added for each span before it, and every stretch between the spans
      appears unchanged, shifted the same way. */
  ghost predicate Wrapped(r: string, s: string, ms: seq<Span>, pos: nat)
    requires Spans(s, ms, pos) && |r| == |s| - pos + 4 * |ms|
  {
    SpansWrapped(r, s, ms, pos) && GapsKept(r, s, ms, pos)
  }

  ghost predicate SpansWrapped(r: string, s: string, ms: seq<Span>, pos: nat)
    requires Spans(s, ms, pos) && |r| == |s| - pos + 4 * |ms|
  {
    forall i :: 0 <= i < |ms| ==>
      r[ms[i].start - pos + 4 * i..ms[i].end - pos + 4 * i + 4] == "**" + s[ms[i].start..ms[i].end] + "**"
  }

  ghost predicate GapsKept(r: string, s: string, ms: seq<Span>, pos: nat)
    requires Spans(s, ms, pos) && |r| == |s| - pos + 4 * |ms|
  {
    forall i :: 0 <= i <= |ms| ==>
      GapStart(ms, i, pos) <= GapEnd(s, ms, i)
      && r[GapStart(ms, i, pos) - pos + 4 * i..GapEnd(s, ms, i) - pos + 4 * i]
         == s[GapStart(ms, i, pos)..GapEnd(s, ms, i)]
  }

  /** Marking wraps each span in "**" and keeps the text between the spans. */
  lemma {:induction false} MarkWraps(s: string, ms: seq<Span>, pos: nat)
    requires Spans(s, ms, pos)
    ensures Wrapped(Mark(s, ms, pos), s, ms, pos)
    decreases |ms|
  {
    if |ms| == 0 {
      WrapNone(s, ms, pos);
    } else {
      MarkWraps(s, ms[1..], ms[0].end);
      WrapFirst(s, ms, pos);
    }
  }

  lemma WrapNone(s: string, ms: seq<Span>, pos: nat)
    requires Spans(s, ms, pos) && ms == []
    ensures Wrapped(Mark(s, ms, pos), s, ms, pos)
  {
    var r := Mark(s, ms, pos);
    assert r == s[pos..];
    assert GapStart(ms, 0, pos) == pos && GapEnd(s, ms, 0) == |s|;
    assert r[0..|s| - pos] == s[pos..|s|];
    assert SpansWrapped(r, s, ms, pos);
  }

  /** Wrapping the first span in front of the other spans, already wrapped. */
  lemma WrapFirst(s: string, ms: seq<Span>, pos: nat)
    requires Spans(s, ms, pos) && |ms| > 0
    requires Wrapped(Mark(s, ms[1..], ms[0].end), s, ms[1..], ms[0].end)
    ensures Wrapped(Mark(s, ms, pos), s, ms, pos)
  {
    var m := ms[0];
    var rest := Mark(s, ms[1..], m.end);
    assert Mark(s, ms, pos) == s[pos..m.start] + "**" + s[m.start..m.end] + "**" + rest;
    WrapFirstSpan(s, ms, pos, rest);
    WrapFirstGap(s, ms, pos, rest);
  }

  lemma WrapFirstSpan(s: string, ms: seq<Span>, pos: nat, rest: string)
    requires Spans(s, ms, pos) && |ms| > 0
    requires |rest| == |s| - ms[0].end + 4 * (|ms| - 1)
    requires SpansWrapped(rest, s, ms[1..], ms[0].end)
    ensures SpansWrapped(s[pos..ms[0].start] + "**" + s[ms[0].start..ms[0].end] + "**" + rest, s, ms, pos)
  {
    var m := ms[0];
    var head := s[pos..m.start] + "**" + s[m.start..m.end] + "**";
    var r := head + rest;
    forall i | 1 <= i < |ms|
      ensures r[ms[i].start - pos + 4 * i..ms[i].end - pos + 4 * i + 4] == "**" + s[ms[i].start..ms[i].end] + "**"
    {
      var j := i - 1;
      assert ms[1..][j] == ms[i];
      SliceAfter(head, rest, ms[i].start - m.end + 4 * j, ms[i].end - m.end + 4 * j + 4);
    }
    assert r[m.start - pos..m.end - pos + 4] == "**" + s[m.start..m.end] + "**";
  }

  lemma WrapFirstGap(s: string, ms: seq<Span>, pos: nat, rest: string)
    requires Spans(s, ms, pos) && |ms| > 0
    requires |rest| == |s| - ms[0].end + 4 * (|ms| - 1)
    requires GapsKept(rest, s, ms[1..], ms[0].end)
    ensures GapsKept(s[pos..ms[0].start] + "**" + s[ms[0].start..ms[0].end] + "**" + rest, s, ms, pos)
  {
    var m := ms[0];
    var head := s[pos..m.start] + "**" + s[m.start..m.end] + "**";
    var r := head + rest;
    forall i | 1 <= i <= |ms|
      ensures GapStart(ms, i, pos) <= GapEnd(s, ms, i)
      ensures r[GapStart(ms, i, pos) - pos + 4 * i..GapEnd(s, ms, i) - pos + 4 * i]
        == s[GapStart(ms, i, pos)..GapEnd(s, ms, i)]
    {
      var j := i - 1;
      assert GapStart(ms, i, pos) == GapStart(ms[1..], j, m.end);
      assert GapEnd(s, ms, i) == GapEnd(s, ms[1..], j);
      SliceAfter(head, rest, GapStart(ms[1..], j, m.end) - m.end + 4 * j, GapEnd(s, ms[1..], j) - m.end + 4 * j);
    }
    assert r[0..m.start - pos] == s[pos..m.start];
  }

  /** A slice lying in the second part of a concatenation. */
  lemma SliceAfter(a: string, b: string, x: nat, y: nat)
    requires x <= y <= |b|
    ensures (a + b)[|a| + x..|a| + y] == b[x..y]
  {
  }

  /** `text.replace(new RegExp('\\b' + k + '\\b', 'gi'), m => '**' + m + '**')`, with `k` escaped: every
      whole-word occurrence is wrapped in "**", the rest of the text is kept, and the text is unchanged exactly
      when there is no occurrence. */
  function HighlightWord(s: string, k: string): (r: string)
    ensures |r| == |s| + 4 * CountWord(s, k)
    ensures Wrapped(r, s, Matches(Word(k), s), 0)
    ensures r == s <==> !HasWord(s, k)
  {
    MarkWraps(s, Matches(Word(k), s), 0);
    Mark(s, Matches(Word(k), s), 0)
  }

  /** `highlightKeywords`: each keyword in turn highlighted in the result of the previous ones. The text comes
      back unchanged exactly when none of the keywords occurs in it as a whole word; otherwise the last keyword's
      whole-word occurrences in the text highlighted by the others are each wrapped in `**`, and everything
      between them is kept. */
  function HighlightKeywords(text: string, keywords: seq<string>): (r: string)
    ensures |r| >= |text|
    ensures r == text || |r| > |text|
    ensures r == text <==> forall k :: k in keywords ==> !HasWord(text, k)
    ensures keywords == [] ==> r == text
    ensures |keywords| > 0 ==>
      var prev, k := HighlightKeywords(text, keywords[..|keywords| - 1]), keywords[|keywords| - 1];
      |r| == |prev| + 4 * CountWord(prev, k) && Wrapped(r, prev, Matches(Word(k), prev), 0)
  {
    if |keywords| == 0 then text
    else
      var init := keywords[..|keywords| - 1];
      var last := keywords[|keywords| - 1];
      assert forall k :: k in keywords <==> k in init || k == last by {
        assert keywords == init + [last];
      }
      HighlightWord(HighlightKeywords(text, init), last)
  }

  // ---------------------------------------------------------------- company facts

  /** Where the rest of the line starting at `k` ends: the next '\n', or the end of the text. */
  function LineEnd(s: string, k: nat): (e: nat)
    requires k <= |s|
    ensures k <= e <= |s|
    ensures forall i :: k <= i < e ==> s[i] != '\n'
    ensures e < |s| ==> s[e] == '\n'
    decreases |s| - k
  {
    if k < |s| && s[k] != '\n' then LineEnd(s, k + 1) else k
  }

  /** The last position in `[lo, hi)` not holding '\n'. */
  function LastNonBreak(s: string, lo: nat, hi: nat): (r: Option<nat>)
    requires lo <= hi <= |s|
    ensures r.Some? ==> lo <= r.value < hi && s[r.value] != '\n'
    ensures r.Some? ==> forall i :: r.value < i < hi ==> s[i] == '\n'
    ensures r.None? ==> forall i :: lo <= i < hi ==> s[i] == '\n'
    decreases hi - lo
  {
    if hi == lo then None
    else if s[hi - 1] != '\n' then Some(hi - 1)
    else LastNonBreak(s, lo, hi - 1)
  }

  /** The capture of `\s*([^\n]+)` tried at `q`. `\s*` takes all the white space, line breaks included; it
      gives characters back only when it has reached the end of the text, until `[^\n]+` finds one that is not a
      line break. The capture then runs to the end of that line. */
  function ValueAt(s: string, q: nat): (r: Option<string>)
    requires q <= |s|
    ensures r.Some? ==> |r.value| > 0 && forall i :: 0 <= i < |r.value| ==> r.value[i] != '\n'
  {
    var e := RunEnd(s, q, Spaces);
    assert e < |s| ==> s[e] != '\n' by {
      assert IsSpace('\n');
    }
    var k := if e < |s| then Some(e) else LastNonBreak(s, q, e);
    match k
    case None => None
    case Some(k) => Some(s[k..LineEnd(s, k)])
  }

  /** `(?:l1|l2|...):\s*([^\n]+)` with the `i` flag tried at `p`: the labels in order, each followed by a colon. */
  function LabelledAt(s: string, p: nat, labels: seq<string>): (r: Option<string>)
    requires p <= |s|
    ensures r.Some? ==> |r.value| > 0 && forall i :: 0 <= i < |r.value| ==> r.value[i] != '\n'
  {
    if |labels| == 0 then None
    else
      var q := p + |labels[0]|;
      var v := if CiAt(s, p, labels[0]) && q < |s| && s[q] == ':' then ValueAt(s, q + 1) else None;
      if v.Some? then v else LabelledAt(s, p, labels[1..])
  }

  /** The capture tried at `q` is absent exactly when nothing but line breaks follows. Otherwise it is the rest
      of the line from the first character that is not white space, or, when only white space follows, from
      the last character that is not a line break. */
  lemma ValueAtCapture(s: string, q: nat)
    requires q <= |s|
    ensures ValueAt(s, q).None? <==> forall i :: q <= i < |s| ==> s[i] == '\n'
    ensures ValueAt(s, q).Some? ==> exists k :: (q <= k < |s| && (forall i :: q <= i < k ==> IsSpace(s[i]))
      && s[k] != '\n' && (!IsSpace(s[k]) || forall i :: k < i < |s| ==> s[i] == '\n')
      && ValueAt(s, q).value == s[k..LineEnd(s, k)])
  {
  }

  /** An attempt at `p` that succeeds has matched one of the labels there, followed by a colon, and captured
      what follows the colon. */
  lemma {:induction false} LabelledAtCapture(s: string, p: nat, labels: seq<string>)
    requires p <= |s|
    ensures LabelledAt(s, p, labels).Some? ==> exists j :: 0 <= j < |labels| && LabelHit(s, p, labels[j], LabelledAt(s, p, labels))
  {
    if |labels| > 0 && LabelledAt(s, p, labels).Some? {
      if LabelHit(s, p, labels[0], LabelledAt(s, p, labels)) {
        assert 0 < |labels|;
      } else {
        assert LabelledAt(s, p, labels) == LabelledAt(s, p, labels[1..]);
        LabelledAtCapture(s, p, labels[1..]);
        var j :| 0 <= j < |labels[1..]| && LabelHit(s, p, labels[1..][j], LabelledAt(s, p, labels));
        assert labels[1..][j] == labels[j + 1];
      }
    }
  }

  /** The label `name` matches at `p`, ignoring case, a colon follows it, and `v` is what the attempt after
      the colon captures. */
  predicate LabelHit(s: string, p: nat, name: string, v: Option<string>)
  {
    p + |name| < |s| && CiAt(s, p, name) && s[p + |name|] == ':' && v == ValueAt(s, p + |name| + 1)
  }

  /** No attempt from `from` on succeeds. */
  predicate NoLabelFrom(s: string, labels: seq<string>, from: nat)
  {
    forall p :: from <= p <= |s| ==> LabelledAt(s, p, labels).None?
  }

  /** Where `s.match(re)` succeeds for that expression: the leftmost position from `from` on whose attempt
      yields a capture. */
  function FirstLabelled(s: string, labels: seq<string>, from: nat): (r: Option<nat>)
    requires from <= |s| + 1
    ensures r.Some? ==> from <= r.value <= |s| && LabelledAt(s, r.value, labels).Some?
    ensures r.Some? ==> forall q :: from <= q < r.value ==> LabelledAt(s, q, labels).None?
    decreases |s| + 1 - from
  {
    if from > |s| then None
    else if LabelledAt(s, from, labels).Some? then Some(from)
    else FirstLabelled(s, labels, from + 1)
  }

  /** The search finds nothing exactly when no attempt from `from` on succeeds. */
  lemma {:induction false} FirstLabelledNone(s: string, labels: seq<string>, from: nat)
    requires from <= |s| + 1
    ensures FirstLabelled(s, labels, from).None? <==> NoLabelFrom(s, labels, from)
    decreases |s| + 1 - from
  {
    if from <= |s| && LabelledAt(s, from, labels).None? {
      FirstLabelledNone(s, labels, from + 1);
      NoLabelStep(s, labels, from);
    }
  }

  /** When the attempt at `from` fails, no attempt from `from` succeeds exactly when none from `from + 1` does. */
  lemma NoLabelStep(s: string, labels: seq<string>, from: nat)
    requires from <= |s| && LabelledAt(s, from, labels).None?
    ensures NoLabelFrom(s, labels, from) <==> NoLabelFrom(s, labels, from + 1)
  {
    if NoLabelFrom(s, labels, from + 1) {
      forall p | from <= p <= |s| ensures LabelledAt(s, p, labels).None? {
        if p > from {
          assert from + 1 <= p;
        }
      }
    }
  }

  const CompanyLabels: seq<string> := ["company", "employer"]
  const LocationLabels: seq<string> := ["location", "based in"]
  const RemoteWords: seq<string> := ["remote", "work from home", "wfh", "distributed"]

  /** One job-type pattern: `\b(full[- ]?time)\b` matches where one of "full-time", "full time" and "fulltime"
      stands as a whole word, and `\b(contract|contractor)\b` where one of its two words does. */
  datatype JobPattern = JobPattern(words: seq<string>, jobType: string)

  const JobPatterns: seq<JobPattern> := [
    JobPattern(["full-time", "full time", "fulltime"], "Full-time"),
    JobPattern(["part-time", "part time", "parttime"], "Part-time"),
    JobPattern(["contract", "contractor"], "Contract"),
    JobPattern(["internship", "intern"], "Internship"),
    JobPattern(["temporary", "temp"], "Temporary")]

  predicate AnyWord(s: string, words: seq<string>)
  {
    exists w :: w in words && HasWord(s, w)
  }

  /** The index of the first pattern with a match. */
  function FirstFound(s: string, pats: seq<JobPattern>): (r: Option<nat>)
    ensures r.None? <==> forall j :: 0 <= j < |pats| ==> !AnyWord(s, pats[j].words)
    ensures r.Some? ==> r.value < |pats| && AnyWord(s, pats[r.value].words)
    ensures r.Some? ==> forall j :: 0 <= j < r.value ==> !AnyWord(s, pats[j].words)
  {
    if |pats| == 0 then None
    else if AnyWord(s, pats[0].words) then Some(0)
    else
      match FirstFound(s, pats[1..])
      case None => None
      case Some(i) => Some(i + 1)
  }

  datatype CompanyInfo = CompanyInfo(
    company: Option<string>,
    location: Option<string>,
    jobType: Option<string>,
    remote: bool)

  /** The trimmed capture after the leftmost of `labels`, if any label with a value occurs. */
  function LabelledValue(jobText: string, labels: seq<string>): (r: Option<string>)
    ensures r.None? <==> NoLabelFrom(jobText, labels, 0)
    ensures r.Some? ==> OneTrimmedLine(r.value)
    ensures r.Some? ==> exists p :: (0 <= p <= |jobText| && LabelledAt(jobText, p, labels).Some?
      && (forall q :: 0 <= q < p ==> LabelledAt(jobText, q, labels).None?)
      && r.value == Trim(LabelledAt(jobText, p, labels).value))
  {
    FirstLabelledNone(jobText, labels, 0);
    match FirstLabelled(jobText, labels, 0)
    case None => None
    case Some(p) => Some(Trim(LabelledAt(jobText, p, labels).value))
  }

  /** The job type of the first pattern, in the listed order, that matches. */
  function JobTypeOf(jobText: string): (r: Option<string>)
    ensures r.None? <==> forall j :: 0 <= j < |JobPatterns| ==> !AnyWord(jobText, JobPatterns[j].words)
    ensures r.Some? ==> exists j :: (0 <= j < |JobPatterns| && r.value == JobPatterns[j].jobType
      && AnyWord(jobText, JobPatterns[j].words) && forall i :: 0 <= i < j ==> !AnyWord(jobText, JobPatterns[i].words))
  {
    var j := FirstFound(jobText, JobPatterns);
    if j.Some? then Some(JobPatterns[j.value].jobType) else None
  }

  /** `extractCompanyInfo`: the company and the location are the trimmed rest of the line after the leftmost
      "company:"/"employer:" and "location:"/"based in:" label, `remote` says whether a remote-work phrase occurs
      as a whole word, and the job type is that of the first pattern that matches. */
  function ExtractCompanyInfo(jobText: string): (info: CompanyInfo)
    ensures info.company == LabelledValue(jobText, CompanyLabels)
    ensures info.location == LabelledValue(jobText, LocationLabels)
    ensures info.remote <==> AnyWord(jobText, RemoteWords)
    ensures info.jobType == JobTypeOf(jobText)
  {
    CompanyInfo(
      LabelledValue(jobText, CompanyLabels),
      LabelledValue(jobText, LocationLabels),
      JobTypeOf(jobText),
      AnyWord(jobText, RemoteWords))
  }

  /** No line break, and no white space at either end. */
  predicate OneTrimmedLine(v: string)
  {
    && (forall i :: 0 <= i < |v| ==> v[i] != '\n')
    && (|v| > 0 ==> !IsSpace(v[0]) && !IsSpace(v[|v| - 1]))
  }

  // ---------------------------------------------------------------- readability

  const Levels: seq<string> :=
    ["Very Easy", "Easy", "Fairly Easy", "Standard", "Fairly Difficult", "Difficult", "Very Difficult"]

  /** The lower bounds of the first six levels. */
  const Thresholds: seq<int> := [90, 80, 70, 60, 50, 30]

  /** `Math.max(0, Math.min(100, score))`. */
  function ClampScore(score: int): (r: int)
    ensures 0 <= r <= 100
    ensures 0 <= score <= 100 ==> r == score
    ensures score < 0 ==> r == 0
    ensures score > 100 ==> r == 100
  {
    Max(0, Min(100, score))
  }

  /** The band of a score: how many of the thresholds lie above it. */
  function LevelIndex(score: int): (i: nat)
    ensures i < |Levels|
    ensures forall j :: 0 <= j < |Thresholds| ==> (j < i <==> score < Thresholds[j])
  {
    if score >= 90 then 0
    else if score >= 80 then 1
    else if score >= 70 then 2
    else if score >= 60 then 3
    else if score >= 50 then 4
    else if score >= 30 then 5
    else 6
  }

  /** The level of `calculateReadabilityScore`, given the rounded Flesch score. */
  function ReadabilityLevel(roundedFlesch: int): (level: string)
    ensures level == Levels[LevelIndex(ClampScore(roundedFlesch))]
    ensures level == "Very Easy" <==> roundedFlesch >= 90
    ensures level == "Very Difficult" <==> roundedFlesch < 30
  {
    Levels[LevelIndex(ClampScore(roundedFlesch))]
  }

  /** A higher score never lands in a harder level. */
  lemma HigherIsEasier(a: int, b: int)
    requires a <= b
    ensures LevelIndex(ClampScore(b)) <= LevelIndex(ClampScore(a))
  {
  }
}
