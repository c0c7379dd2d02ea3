/** Keyword extraction (`extractKeywordsSync` and `calculateImportance` of src/utils/keywordExtractor.ts).

    Every dictionary term, and then every custom term, is searched for as a whole word without case. A term found
    at least once yields a record with its number of occurrences, up to three sentences that contain it, and an
    importance score. Records are keyed by the lower-cased term: a later term with the same key adds its count and
    contexts to the earlier record. The records are finally sorted by importance, then count, both descending. */
module KeywordExtractor {
  import opened Common
  import opened Chars
  import opened Strings
  import opened Regex

  datatype Category = Technical | Soft | Tool | Certification | Custom | Other

  /** A detected term. `importance` counts half-points (7 stands for 3.5); every score the source computes is a
      multiple of 0.5. An absent importance is 0, which every reader of the field treats like a missing one. */
  datatype Keyword = Keyword(text: string, category: Category, count: nat, importance: nat, context: seq<string>)

  /** The built-in technical terms. 'C++' and 'Node.js' are not part of the model: their regular-expression
      metacharacters make the unescaped importance patterns throw or match other text. */
  const TechnicalSkills: seq<string> := [
    "JavaScript", "TypeScript", "Python", "Java", "C#", "Ruby", "PHP", "Swift", "Kotlin", "Go", "Rust",
    "React", "Angular", "Vue", "Express", "Django", "Flask", "Spring",
    "HTML", "CSS", "Tailwind", "Bootstrap",
    "SQL", "MongoDB", "PostgreSQL", "MySQL", "Redis",
    "AWS", "Azure", "GCP", "Docker", "Kubernetes",
    "Git", "GitHub", "CI/CD",
    "REST", "API", "GraphQL"
  ]

  const SoftSkills: seq<string> := [
    "Leadership", "Communication", "Teamwork", "Problem Solving",
    "Time Management", "Collaboration", "Adaptability"
  ]

  const Tools: seq<string> := ["VS Code", "IntelliJ", "Figma", "Slack", "Jira", "Postman"]

  const Certifications: seq<string> := [
    "AWS Certified", "Azure Certified", "PMP", "Scrum Master",
    "Bachelor's", "Master's", "MBA", "PhD"
  ]

  /** One term to look for, with the category a match is filed under. */
  datatype Entry = Entry(term: string, category: Category)

  function Tagged(terms: seq<string>, c: Category): (es: seq<Entry>)
    ensures |es| == |terms|
    ensures forall i :: 0 <= i < |terms| ==> es[i] == Entry(terms[i], c)
  {
    seq(|terms|, i requires 0 <= i < |terms| => Entry(terms[i], c))
  }

  /** The four term lists: the built-in dictionary, or the lists the asynchronous extractor obtains from the
      language model service and caches. */
  datatype TermLists = TermLists(technical: seq<string>, soft: seq<string>, tools: seq<string>,
                                 certifications: seq<string>)

  const Dictionary: TermLists := TermLists(TechnicalSkills, SoftSkills, Tools, Certifications)

  /** The terms in processing order: technical, soft, tool, certification, then the caller's custom terms. */
  function EntriesOf(lists: TermLists, custom: seq<string>): (es: seq<Entry>)
    ensures |es| == |lists.technical| + |lists.soft| + |lists.tools| + |lists.certifications| + |custom|
    ensures var terms := lists.technical + lists.soft + lists.tools + lists.certifications + custom;
      forall i :: 0 <= i < |es| ==> es[i].term == terms[i]
    ensures var n1 := |lists.technical|;
      var n2 := n1 + |lists.soft|;
      var n3 := n2 + |lists.tools|;
      var n4 := n3 + |lists.certifications|;
      forall i :: 0 <= i < |es| ==>
        (es[i].category == if i < n1 then Technical else if i < n2 then Soft else if i < n3 then Tool
         else if i < n4 then Certification else Custom)
  {
    Tagged(lists.technical, Technical) + Tagged(lists.soft, Soft) + Tagged(lists.tools, Tool)
    + Tagged(lists.certifications, Certification) + Tagged(custom, Custom)
  }

  /** The custom terms come last, so a custom term only adds to a dictionary term of the same key. */
  lemma CustomComesLast(lists: TermLists, custom: seq<string>)
    ensures var es := EntriesOf(lists, custom);
      forall i :: 0 <= i < |es| ==> (es[i].category == Custom <==> i >= |es| - |custom|)
  {
  }

  // ---------------------------------------------------------------- importance

  function Lines(text: string): seq<string> { Split(text, {'\n'}) }

  /** The first `floor(lines / 3)` lines joined with spaces, where the early-mention bonus looks. */
  function FirstThird(text: string): string
  {
    var lines := Lines(text);
    Join(lines[..|lines| / 3], " ")
  }

  predicate MentionedEarly(term: string, text: string) { HasWord(FirstThird(text), term) }

  function CategoryBonus(c: Category): nat
  {
    match c
    case Technical => 2
    case Certification => 3
    case _ => 0
  }

  /** `calculateImportance`, in half-points: +3 for "required … term", +3 for "must have … term",
      +2 for "term … experience", +2 for "proficient … term", +2 for "expert … term" (each pair on one line),
      +1 for a technical and +1.5 for a certification term, and +1 for a whole-word mention in the first third. */
  function Importance(term: string, text: string, category: Category): (r: nat)
    ensures r <= 29
    ensures r >= CategoryBonus(category)
  {
    (if FollowedOnLine(text, "required", term) then 6 else 0)
    + (if FollowedOnLine(text, "must have", term) then 6 else 0)
    + (if FollowedOnLine(text, term, "experience") then 4 else 0)
    + (if FollowedOnLine(text, "proficient", term) then 4 else 0)
    + (if FollowedOnLine(text, "expert", term) then 4 else 0)
    + CategoryBonus(category)
    + (if MentionedEarly(term, text) then 2 else 0)
  }

  /** The category changes the importance by a fixed amount: +1 for technical, +1.5 for certification, and
      nothing for the other categories. */
  lemma ImportanceByCategory(term: string, text: string)
    ensures Importance(term, text, Technical) == Importance(term, text, Soft) + 2
    ensures Importance(term, text, Certification) == Importance(term, text, Soft) + 3
    ensures Importance(term, text, Tool) == Importance(term, text, Soft)
    ensures Importance(term, text, Custom) == Importance(term, text, Soft)
    ensures Importance(term, text, Other) == Importance(term, text, Soft)
  {
  }

  /** A text of fewer than three lines has an empty first third, so it never earns the early-mention bonus. */
  lemma ShortTextNoEarlyMention(term: string, text: string)
    requires Occurrences(text, '\n') < 2
    ensures !MentionedEarly(term, text)
  {
    SplitLength(text, '\n');
    assert FirstThird(text) == "";
  }

  // ---------------------------------------------------------------- one term's record

  /** The sentences: pieces between runs of '.', '!', '?' and newlines that are not blank. Splitting on single
      separators instead of runs only adds empty pieces, which the filter drops. */
  function Sentences(text: string): seq<string>
  {
    NonBlank(Split(text, {'.', '!', '?', '\n'}))
  }

  function NonBlank(parts: seq<string>): (r: seq<string>)
    ensures forall s :: s in r ==> s in parts && !IsBlank(s)
  {
    if |parts| == 0 then []
    else (if IsBlank(parts[0]) then [] else [parts[0]]) + NonBlank(parts[1..])
  }

  /** Each sentence holding the term as a whole word, trimmed and cut to 100 characters. */
  function SentenceContexts(sentences: seq<string>, term: string): (cs: seq<string>)
    ensures forall c :: c in cs ==> |c| <= 100
    ensures |cs| <= |sentences|
  {
    if |sentences| == 0 then []
    else
      (if HasWord(sentences[0], term) then [Take(Trim(sentences[0]), 100)] else [])
      + SentenceContexts(sentences[1..], term)
  }

  function Key(k: Keyword): string { Lower(k.text) }

  function KeyOf(e: Entry): string { Lower(e.term) }

  /** The term occurs in the text as a whole word, so `text.match` is not null. */
  predicate Hit(text: string, e: Entry) { CountWord(text, e.term) > 0 }

  /** The record a term creates when its key is new: at most three contexts of at most 100 characters. */
  function Found(text: string, e: Entry): (k: Keyword)
    ensures |k.context| <= 3 && forall c :: c in k.context ==> |c| <= 100
    ensures Hit(text, e) ==> k.count >= 1
  {
    Keyword(e.term, e.category, CountWord(text, e.term), Importance(e.term, text, e.category),
            Take(SentenceContexts(Sentences(text), e.term), 3))
  }

  // ---------------------------------------------------------------- the keyword map

  /** The first position holding `key`, as `Map.get` finds it. */
  function IndexOfKey(rs: seq<Keyword>, key: string): (r: Option<nat>)
    ensures r.Some? ==> r.value < |rs| && Key(rs[r.value]) == key
    ensures r.Some? ==> forall i :: 0 <= i < r.value ==> Key(rs[i]) != key
    ensures r.None? ==> forall i :: 0 <= i < |rs| ==> Key(rs[i]) != key
  {
    if |rs| == 0 then None
    else if Key(rs[0]) == key then Some(0)
    else
      match IndexOfKey(rs[1..], key)
      case None => None
      case Some(i) => Some(i + 1)
  }

  function Lookup(rs: seq<Keyword>, key: string): Option<Keyword>
  {
    match IndexOfKey(rs, key)
    case None => None
    case Some(i) => Some(rs[i])
  }

  /** A later term with an existing key: its count is added and its contexts are appended, duplicates dropped;
      the text, category and importance of the first record stay. */
  function Merge(existing: Keyword, f: Keyword): (r: Keyword)
    ensures r.text == existing.text && r.category == existing.category && r.importance == existing.importance
    ensures r.count == existing.count + f.count
    ensures forall c :: c in r.context <==> c in existing.context || c in f.context
    ensures |r.context| <= |existing.context| + |f.context|
    ensures NoDups(r.context)
  {
    existing.(count := existing.count + f.count, context := Dedup(existing.context + f.context))
  }

  /** Storing a found record: merged into the record with the same key, or appended under a new key. */
  function Absorb(rs: seq<Keyword>, f: Keyword): seq<Keyword>
  {
    match IndexOfKey(rs, Key(f))
    case Some(i) => rs[i := Merge(rs[i], f)]
    case None => rs + [f]
  }

  /** The records the terms that occur would create on their own, in processing order. */
  function Finds(text: string, entries: seq<Entry>): (fs: seq<Keyword>)
    ensures |fs| <= |entries|
    decreases |entries|
  {
    if |entries| == 0 then []
    else
      var e := entries[|entries| - 1];
      Finds(text, entries[..|entries| - 1]) + (if Hit(text, e) then [Found(text, e)] else [])
  }

  /** The map's values, in insertion order, after storing each found record in turn. */
  function Gather(fs: seq<Keyword>): seq<Keyword>
    decreases |fs|
  {
    if |fs| == 0 then [] else Absorb(Gather(fs[..|fs| - 1]), fs[|fs| - 1])
  }

  /** The keyword map after processing `entries` in order. */
  function Collect(text: string, entries: seq<Entry>): seq<Keyword>
  {
    Gather(Finds(text, entries))
  }

  /** A found record is stored only when its term occurs; its key is its term's. */
  lemma {:induction false} FindsSpec(text: string, entries: seq<Entry>)
    ensures forall f :: f in Finds(text, entries) <==>
      exists e :: e in entries && Hit(text, e) && f == Found(text, e)
    decreases |entries|
  {
    if |entries| > 0 {
      var init := entries[..|entries| - 1];
      var e := entries[|entries| - 1];
      FindsSpec(text, init);
      assert entries == init + [e];
    }
  }

  /** Absorbing behaves like a map update at the found record's key. */
  lemma AbsorbLookup(rs: seq<Keyword>, f: Keyword, key: string)
    ensures Lookup(Absorb(rs, f), key) ==
      if key != Key(f) then Lookup(rs, key)
      else match Lookup(rs, key) case Some(r) => Some(Merge(r, f)) case None => Some(f)
  {
    var a := Absorb(rs, f);
    match IndexOfKey(rs, Key(f)) {
      case Some(i) =>
        assert forall m :: 0 <= m < |rs| ==> Key(a[m]) == Key(rs[m]);
        assert forall m :: 0 <= m < |rs| ==> a[m] == if m == i then Merge(rs[i], f) else rs[m];
        match IndexOfKey(rs, key) {
          case Some(j) => IndexOfKeyUnique(a, key, j);
          case None =>
        }
      case None =>
        assert forall m :: 0 <= m < |rs| ==> a[m] == rs[m];
        match IndexOfKey(rs, key) {
          case Some(j) => IndexOfKeyUnique(a, key, j);
          case None =>
            if key == Key(f) {
              IndexOfKeyUnique(a, key, |rs|);
            }
        }
    }
  }

  /** The first position holding a key is the one `IndexOfKey` reports. */
  lemma IndexOfKeyUnique(rs: seq<Keyword>, key: string, j: nat)
    requires j < |rs| && Key(rs[j]) == key
    requires forall i :: 0 <= i < j ==> Key(rs[i]) != key
    ensures IndexOfKey(rs, key) == Some(j)
  {
    match IndexOfKey(rs, key)
    case None =>
    case Some(i) =>
  }

  ghost predicate UniqueKeys(rs: seq<Keyword>)
  {
    forall i, j :: 0 <= i < j < |rs| ==> Key(rs[i]) != Key(rs[j])
  }

  lemma AbsorbUnique(rs: seq<Keyword>, f: Keyword)
    requires UniqueKeys(rs)
    ensures UniqueKeys(Absorb(rs, f))
  {
    var a := Absorb(rs, f);
    match IndexOfKey(rs, Key(f))
    case Some(i) =>
      assert forall m :: 0 <= m < |rs| ==> Key(a[m]) == Key(rs[m]);
    case None =>
  }

  /** Sum of the counts of the found records with key `key`. */
  ghost function TotalCount(fs: seq<Keyword>, key: string): nat
    decreases |fs|
  {
    if |fs| == 0 then 0
    else TotalCount(fs[..|fs| - 1], key) + (if Key(fs[|fs| - 1]) == key then fs[|fs| - 1].count else 0)
  }

  /** Number of found records with key `key`. */
  ghost function KeyCount(fs: seq<Keyword>, key: string): nat
    decreases |fs|
  {
    if |fs| == 0 then 0
    else KeyCount(fs[..|fs| - 1], key) + (if Key(fs[|fs| - 1]) == key then 1 else 0)
  }

  lemma {:induction false} KeyCountPositive(fs: seq<Keyword>, key: string)
    ensures KeyCount(fs, key) > 0 <==> exists j :: 0 <= j < |fs| && Key(fs[j]) == key
    decreases |fs|
  {
    if |fs| > 0 {
      var init := fs[..|fs| - 1];
      KeyCountPositive(init, key);
      assert forall j :: 0 <= j < |init| ==> init[j] == fs[j];
    }
  }

  /** A record as `Found` creates it for an occurring term. */
  ghost predicate WellFormed(f: Keyword)
  {
    f.count >= 1 && |f.context| <= 3 && forall c :: c in f.context ==> |c| <= 100
  }

  /** `fs[j]` is the first found record of its key. */
  ghost predicate FirstOfKey(fs: seq<Keyword>, j: int)
  {
    0 <= j < |fs| && forall i :: 0 <= i < j ==> Key(fs[i]) != Key(fs[j])
  }

  /** What the stored record of `key` holds once `fs` is absorbed: the summed count, at most three contexts of
      at most 100 characters per record of the key, and the text, category and importance of the key's first
      record. */
  ghost predicate Agrees(fs: seq<Keyword>, key: string, r: Keyword)
  {
    && Key(r) == key
    && r.count == TotalCount(fs, key)
    && r.count >= 1
    && |r.context| <= 3 * KeyCount(fs, key)
    && (forall c :: c in r.context ==> |c| <= 100)
    && exists j :: FirstOfKey(fs, j) && r.text == fs[j].text && r.category == fs[j].category
                && r.importance == fs[j].importance
  }

  /** The map summarises `fs`: one record per key that occurs in `fs`, agreeing with its records. */
  ghost predicate Summarises(fs: seq<Keyword>, rs: seq<Keyword>)
  {
    && UniqueKeys(rs)
    && (forall key :: Lookup(rs, key).Some? <==> KeyCount(fs, key) > 0)
    && (forall key :: Lookup(rs, key).Some? ==> Agrees(fs, key, Lookup(rs, key).value))
  }

  lemma {:induction false} GatherSummarises(fs: seq<Keyword>)
    requires forall f :: f in fs ==> WellFormed(f)
    ensures Summarises(fs, Gather(fs))
    decreases |fs|
  {
    if |fs| > 0 {
      var init := fs[..|fs| - 1];
      assert forall f :: f in init ==> f in fs;
      GatherSummarises(init);
      GatherStep(fs, Gather(init));
    }
  }

  lemma GatherStep(fs: seq<Keyword>, prev: seq<Keyword>)
    requires |fs| > 0 && WellFormed(fs[|fs| - 1])
    requires Summarises(fs[..|fs| - 1], prev)
    ensures Summarises(fs, Absorb(prev, fs[|fs| - 1]))
  {
    var init := fs[..|fs| - 1];
    var f := fs[|fs| - 1];
    var rs := Absorb(prev, f);
    AbsorbUnique(prev, f);
    assert forall j :: FirstOfKey(init, j) ==> FirstOfKey(fs, j) && fs[j] == init[j];
    forall key
      ensures Lookup(rs, key).Some? <==> KeyCount(fs, key) > 0
      ensures Lookup(rs, key).Some? ==> Agrees(fs, key, Lookup(rs, key).value)
    {
      AbsorbLookup(prev, f, key);
      if key == Key(f) {
        match Lookup(prev, key)
        case Some(r) =>
          assert Agrees(init, key, r);
        case None =>
          KeyCountPositive(init, key);
          assert FirstOfKey(fs, |fs| - 1);
          TotalCountZero(init, key);
      } else if Lookup(prev, key).Some? {
        assert Agrees(init, key, Lookup(prev, key).value);
      }
    }
  }

  /** A key without records has a zero total. */
  lemma {:induction false} TotalCountZero(fs: seq<Keyword>, key: string)
    requires KeyCount(fs, key) == 0
    ensures TotalCount(fs, key) == 0
    decreases |fs|
  {
    if |fs| > 0 {
      TotalCountZero(fs[..|fs| - 1], key);
    }
  }

  // ---------------------------------------------------------------- ordering

  /** `a` sorts strictly before `b`: higher importance, or equal importance and a higher count. */
  predicate Outranks(a: Keyword, b: Keyword)
  {
    a.importance > b.importance || (a.importance == b.importance && a.count > b.count)
  }

  /** Importance never increases along the list, and among equal importances count never increases. */
  predicate Ranked(s: seq<Keyword>)
  {
    forall i, j :: 0 <= i < j < |s| ==> !Outranks(s[j], s[i])
  }

  /** The elements of `s` that tie with `x` on both importance and count, in order. */
  function Ties(s: seq<Keyword>, importance: nat, count: nat): seq<Keyword>
  {
    if |s| == 0 then []
    else
      (if s[0].importance == importance && s[0].count == count then [s[0]] else [])
      + Ties(s[1..], importance, count)
  }

  lemma {:induction false} TiesAppend(a: seq<Keyword>, b: seq<Keyword>, importance: nat, count: nat)
    ensures Ties(a + b, importance, count) == Ties(a, importance, count) + Ties(b, importance, count)
    decreases |a|
  {
    if |a| > 0 {
      TiesAppend(a[1..], b, importance, count);
      assert (a + b)[0] == a[0];
      assert (a + b)[1..] == a[1..] + b;
    } else {
      assert a + b == b;
    }
  }

  lemma {:induction false} NoTies(s: seq<Keyword>, importance: nat, count: nat)
    requires forall k :: k in s ==> !(k.importance == importance && k.count == count)
    ensures Ties(s, importance, count) == []
    decreases |s|
  {
    if |s| > 0 {
      NoTies(s[1..], importance, count);
    }
  }

  /** Inserting `x` before the first element it outranks, so after all its equals: a stable insertion. */
  function Insert(x: Keyword, s: seq<Keyword>): (r: seq<Keyword>)
    ensures multiset(r) == multiset(s) + multiset{x}
  {
    if |s| == 0 then [x]
    else if Outranks(x, s[0]) then [x] + s
    else
      assert s == [s[0]] + s[1..];
      [s[0]] + Insert(x, s[1..])
  }

  lemma {:induction false} InsertRanked(x: Keyword, s: seq<Keyword>)
    requires Ranked(s)
    ensures Ranked(Insert(x, s))
    decreases |s|
  {
    if |s| > 0 && !Outranks(x, s[0]) {
      var rest := Insert(x, s[1..]);
      InsertRanked(x, s[1..]);
      forall k | k in rest
        ensures !Outranks(k, s[0])
      {
        assert k in multiset(rest);
        if k != x {
          var j :| 0 <= j < |s[1..]| && s[1..][j] == k;
          assert s[j + 1] == k;
        }
      }
      var r := [s[0]] + rest;
      forall i, j | 0 <= i < j < |r|
        ensures !Outranks(r[j], r[i])
      {
        if i > 0 {
          assert r[i] == rest[i - 1] && r[j] == rest[j - 1];
        } else {
          assert r[j] in rest;
        }
      }
    }
  }

  /** Insertion into a ranked list keeps the relative order of ties and puts `x` after its equals. */
  function TieOf(x: Keyword, importance: nat, count: nat): seq<Keyword>
  {
    if x.importance == importance && x.count == count then [x] else []
  }

  lemma {:induction false} InsertTies(x: Keyword, s: seq<Keyword>, importance: nat, count: nat)
    requires Ranked(s)
    ensures Ties(Insert(x, s), importance, count) == Ties(s, importance, count) + TieOf(x, importance, count)
    decreases |s|
  {
    if |s| == 0 {
      assert Ties([x], importance, count) == TieOf(x, importance, count) + Ties([], importance, count);
    } else if Outranks(x, s[0]) {
      InsertFrontTies(x, s, importance, count);
    } else {
      var tail := s[1..];
      assert Ranked(tail) by {
        forall i, j | 0 <= i < j < |tail| ensures !Outranks(tail[j], tail[i]) {
          assert tail[j] == s[j + 1] && tail[i] == s[i + 1];
        }
      }
      InsertTies(x, tail, importance, count);
      TiesAppend([s[0]], Insert(x, tail), importance, count);
      TiesAppend([s[0]], tail, importance, count);
      assert s == [s[0]] + tail;
    }
  }

  lemma InsertFrontTies(x: Keyword, s: seq<Keyword>, importance: nat, count: nat)
    requires Ranked(s) && |s| > 0 && Outranks(x, s[0])
    ensures Ties([x] + s, importance, count) == Ties(s, importance, count) + TieOf(x, importance, count)
  {
    TiesAppend([x], s, importance, count);
    assert Ties([x], importance, count) == TieOf(x, importance, count) + Ties([], importance, count);
    if x.importance == importance && x.count == count {
      forall k | k in s
        ensures !(k.importance == importance && k.count == count)
      {
        var j :| 0 <= j < |s| && s[j] == k;
        if j > 0 {
          assert !Outranks(s[j], s[0]);
        }
      }
      NoTies(s, importance, count);
    }
  }

  /** The array sort of the source: a stable sort on importance, then count, both descending. */
  function SortByRank(s: seq<Keyword>): (r: seq<Keyword>)
    ensures multiset(r) == multiset(s)
    ensures Ranked(r)
    decreases |s|
  {
    if |s| == 0 then []
    else
      assert s == s[..|s| - 1] + [s[|s| - 1]];
      var sorted := SortByRank(s[..|s| - 1]);
      InsertRanked(s[|s| - 1], sorted);
      Insert(s[|s| - 1], sorted)
  }

  /** Stability: the entries that tie on importance and count keep their original relative order. */
  lemma {:induction false} SortKeepsTies(s: seq<Keyword>, importance: nat, count: nat)
    ensures Ties(SortByRank(s), importance, count) == Ties(s, importance, count)
    decreases |s|
  {
    if |s| > 0 {
      var init := s[..|s| - 1];
      var x := s[|s| - 1];
      var sorted := SortByRank(init);
      calc {
        Ties(SortByRank(s), importance, count);
        Ties(Insert(x, sorted), importance, count);
        { InsertTies(x, sorted, importance, count); }
        Ties(sorted, importance, count) + TieOf(x, importance, count);
        { SortKeepsTies(init, importance, count); }
        Ties(init, importance, count) + TieOf(x, importance, count);
        { assert Ties([x], importance, count) == TieOf(x, importance, count) + Ties([], importance, count);
          TiesAppend(init, [x], importance, count); }
        Ties(init + [x], importance, count);
        { assert s == init + [x]; }
        Ties(s, importance, count);
      }
    }
  }

  lemma {:induction false} InsertUnique(x: Keyword, s: seq<Keyword>)
    requires UniqueKeys(s)
    requires forall k :: k in s ==> Key(k) != Key(x)
    ensures UniqueKeys(Insert(x, s))
    decreases |s|
  {
    if |s| > 0 && !Outranks(x, s[0]) {
      InsertUnique(x, s[1..]);
      var rest := Insert(x, s[1..]);
      assert forall k :: k in rest ==> k in multiset(rest);
      assert forall k :: k in rest ==> Key(k) != Key(s[0]);
    }
  }

  lemma {:induction false} SortUnique(s: seq<Keyword>)
    requires UniqueKeys(s)
    ensures UniqueKeys(SortByRank(s))
    decreases |s|
  {
    if |s| > 0 {
      var init := s[..|s| - 1];
      var x := s[|s| - 1];
      SortUnique(init);
      var sorted := SortByRank(init);
      assert forall k :: k in sorted ==> k in init by {
        assert forall k :: k in sorted ==> k in multiset(sorted);
      }
      InsertUnique(x, sorted);
    }
  }

  // ---------------------------------------------------------------- extraction

  /** `extractKeywordsSync(text, custom)`: the extraction over the dictionary followed by the custom terms. */
  function ExtractKeywords(text: string, custom: seq<string>): (ks: seq<Keyword>)
    ensures IsBlank(text) ==> ks == []
    ensures Ranked(ks) && UniqueKeys(ks)
  {
    ExtractFrom(text, EntriesOf(Dictionary, custom))
  }

  /** `extractKeywords(text, custom)`, the asynchronous extractor, given the term lists the service returned
      (or the cached ones). */
  function ExtractKeywordsWith(text: string, lists: TermLists, custom: seq<string>): (ks: seq<Keyword>)
    ensures IsBlank(text) ==> ks == []
    ensures Ranked(ks) && UniqueKeys(ks)
  {
    ExtractFrom(text, EntriesOf(lists, custom))
  }

  /** Extraction over a list of terms: nothing for a blank text, otherwise the map's records ranked by
      importance, then count, with ties in insertion order. */
  function ExtractFrom(text: string, entries: seq<Entry>): (ks: seq<Keyword>)
    ensures IsBlank(text) ==> ks == []
    ensures !IsBlank(text) ==> multiset(ks) == multiset(Collect(text, entries))
    ensures !IsBlank(text) ==> forall importance: nat, count: nat ::
      Ties(ks, importance, count) == Ties(Collect(text, entries), importance, count)
    ensures Ranked(ks)
    ensures UniqueKeys(ks)
  {
    if IsBlank(text) then []
    else
      var rs := Collect(text, entries);
      FindsWellFormed(text, entries);
      GatherSummarises(Finds(text, entries));
      SortUnique(rs);
      forall importance: nat, count: nat
        ensures Ties(SortByRank(rs), importance, count) == Ties(rs, importance, count)
      {
        SortKeepsTies(rs, importance, count);
      }
      SortByRank(rs)
  }

  lemma FindsWellFormed(text: string, entries: seq<Entry>)
    ensures forall f :: f in Finds(text, entries) ==> WellFormed(f)
  {
    FindsSpec(text, entries);
  }

  /** Every emitted record agrees with the records its key's occurring terms create: the summed count, the text,
      category and importance of the first of them, contexts of at most 100 characters and at most three per
      term. A key is emitted exactly when one of its terms occurs as a whole word. */
  lemma ExtractedRecords(text: string, entries: seq<Entry>)
    ensures forall k :: k in ExtractFrom(text, entries) ==> Agrees(Finds(text, entries), Key(k), k)
    ensures forall k :: k in ExtractFrom(text, entries) ==>
      exists e :: e in entries && Hit(text, e) && KeyOf(e) == Key(k)
    ensures !IsBlank(text) ==> forall e :: e in entries && Hit(text, e) ==>
      exists k :: k in ExtractFrom(text, entries) && Key(k) == KeyOf(e)
  {
    forall k | k in ExtractFrom(text, entries)
      ensures Agrees(Finds(text, entries), Key(k), k)
      ensures exists e :: e in entries && Hit(text, e) && KeyOf(e) == Key(k)
    {
      RecordAgrees(text, entries, k);
    }
    if !IsBlank(text) {
      forall e | e in entries && Hit(text, e)
        ensures exists k :: k in ExtractFrom(text, entries) && Key(k) == KeyOf(e)
      {
        KeyEmitted(text, entries, e);
      }
    }
  }

  lemma RecordAgrees(text: string, entries: seq<Entry>, k: Keyword)
    requires k in ExtractFrom(text, entries)
    ensures Agrees(Finds(text, entries), Key(k), k)
    ensures exists e :: e in entries && Hit(text, e) && KeyOf(e) == Key(k)
  {
    var fs := Finds(text, entries);
    var rs := Gather(fs);
    FindsWellFormed(text, entries);
    GatherSummarises(fs);
    assert k in multiset(rs);
    var i :| 0 <= i < |rs| && rs[i] == k;
    IndexOfKeyUnique(rs, Key(k), i);
    assert Lookup(rs, Key(k)) == Some(k);
    assert Agrees(fs, Key(k), k);
    var j :| FirstOfKey(fs, j) && k.text == fs[j].text && k.category == fs[j].category
             && k.importance == fs[j].importance;
    assert fs[j] in fs;
    FindsSpec(text, entries);
  }

  lemma KeyEmitted(text: string, entries: seq<Entry>, e: Entry)
    requires !IsBlank(text) && e in entries && Hit(text, e)
    ensures exists k :: k in ExtractFrom(text, entries) && Key(k) == KeyOf(e)
  {
    var fs := Finds(text, entries);
    var rs := Gather(fs);
    FindsWellFormed(text, entries);
    FindsSpec(text, entries);
    GatherSummarises(fs);
    var f := Found(text, e);
    assert f in fs;
    var j :| 0 <= j < |fs| && fs[j] == f;
    KeyCountPositive(fs, KeyOf(e));
    var r := Lookup(rs, KeyOf(e)).value;
    assert r in rs;
    assert r in multiset(ExtractFrom(text, entries));
  }

  /** A key with a single occurring term keeps at most three contexts; merged records are not cut back. */
  lemma SingleTermContexts(text: string, entries: seq<Entry>, k: Keyword)
    requires k in ExtractFrom(text, entries)
    requires KeyCount(Finds(text, entries), Key(k)) == 1
    ensures |k.context| <= 3
  {
    RecordAgrees(text, entries, k);
  }

  // ---------------------------------------------------------------- categorize and density

  /** The keywords of one category, in input order. */
  function OfCategory(ks: seq<Keyword>, c: Category): (r: seq<Keyword>)
    ensures forall k :: k in r ==> k in ks && k.category == c
    ensures |r| <= |ks|
  {
    if |ks| == 0 then []
    else (if ks[0].category == c then [ks[0]] else []) + OfCategory(ks[1..], c)
  }

  lemma {:induction false} OfCategoryAppend(ks: seq<Keyword>, k: Keyword, c: Category)
    ensures OfCategory(ks + [k], c) == OfCategory(ks, c) + (if k.category == c then [k] else [])
    decreases |ks|
  {
    if |ks| > 0 {
      OfCategoryAppend(ks[1..], k, c);
      assert (ks + [k])[1..] == ks[1..] + [k];
    }
  }

  /** `categorizeKeywords`: a bucket per category that occurs, holding exactly that category's keywords in order. */
  function Categorize(ks: seq<Keyword>): (m: map<Category, seq<Keyword>>)
    ensures forall c :: c in m <==> OfCategory(ks, c) != []
    ensures forall c :: c in m ==> m[c] == OfCategory(ks, c)
    decreases |ks|
  {
    if |ks| == 0 then map[]
    else
      var init := ks[..|ks| - 1];
      var k := ks[|ks| - 1];
      assert ks == init + [k];
      OfCategoryAppend(init, k, k.category);
      var m := Categorize(init);
      assert forall c :: c != k.category ==> OfCategory(ks, c) == OfCategory(init, c) by {
        forall c | c != k.category ensures OfCategory(ks, c) == OfCategory(init, c) {
          OfCategoryAppend(init, k, c);
        }
      }
      m[k.category := (if k.category in m then m[k.category] else []) + [k]]
  }

  /** A category has a bucket exactly when some keyword carries it. */
  lemma {:induction false} OfCategoryEmpty(ks: seq<Keyword>, c: Category)
    ensures OfCategory(ks, c) != [] <==> exists k :: k in ks && k.category == c
    decreases |ks|
  {
    if |ks| > 0 {
      OfCategoryEmpty(ks[1..], c);
      assert forall k :: k in ks <==> k == ks[0] || k in ks[1..];
    }
  }

  function BucketTotal(ks: seq<Keyword>): nat
  {
    |OfCategory(ks, Technical)| + |OfCategory(ks, Soft)| + |OfCategory(ks, Tool)|
    + |OfCategory(ks, Certification)| + |OfCategory(ks, Custom)| + |OfCategory(ks, Other)|
  }

  /** Every keyword lands in exactly one bucket, so the buckets hold as many keywords as the input. */
  lemma {:induction false} CategorizeKeepsCount(ks: seq<Keyword>)
    ensures BucketTotal(ks) == |ks|
    decreases |ks|
  {
    if |ks| > 0 {
      CategorizeKeepsCount(ks[1..]);
    }
  }

  /** `calculateKeywordDensity`: for each keyword text, occurrences times words of the term per 100 words of text
      (0 when the total is not positive); a later keyword with the same text overwrites the value. */
  function Density(ks: seq<Keyword>, totalWords: int): (m: map<string, real>)
    ensures forall t :: t in m <==> exists k :: k in ks && k.text == t
    ensures forall t :: t in m ==> m[t] >= 0.0
    ensures totalWords <= 0 ==> forall t :: t in m ==> m[t] == 0.0
    decreases |ks|
  {
    if |ks| == 0 then map[]
    else
      var init := ks[..|ks| - 1];
      var k := ks[|ks| - 1];
      assert ks == init + [k];
      Density(init, totalWords)[k.text := Share(k.count * WordCount(k.text), totalWords)]
  }

  /** `occurrences / totalWords * 100`, or 0 when the total is not positive. */
  function Share(occurrences: nat, totalWords: int): (d: real)
    ensures d >= 0.0
    ensures totalWords <= 0 ==> d == 0.0
  {
    if totalWords > 0 then (occurrences as real / totalWords as real) * 100.0 else 0.0
  }
}
