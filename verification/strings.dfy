/** The string methods the source relies on: case mapping, `trim`, `split`, `join`, `slice`, `lastIndexOf`,
    de-duplication through a `Set`, and the word count `split(/\s+/).length`. */
module Strings {
  import opened Chars
  import opened Common

  /** `toLowerCase()`, on ASCII letters. */
  function Lower(s: string): (r: string)
    ensures |r| == |s|
    ensures forall i :: 0 <= i < |s| ==> r[i] == ToLower(s[i])
  {
    seq(|s|, i requires 0 <= i < |s| => ToLower(s[i]))
  }

  /** `toUpperCase()`, on ASCII letters. */
  function Upper(s: string): (r: string)
    ensures |r| == |s|
    ensures forall i :: 0 <= i < |s| ==> r[i] == ToUpper(s[i])
  {
    seq(|s|, i requires 0 <= i < |s| => ToUpper(s[i]))
  }

  predicate IsBlank(s: string) { forall i :: 0 <= i < |s| ==> IsSpace(s[i]) }

  /** Where the text that `trim()` keeps begins: the first position from `i` on that is not white space. */
  function TrimOffset(s: string, i: nat := 0): (a: nat)
    requires i <= |s|
    ensures i <= a <= |s|
    ensures forall j :: i <= j < a ==> IsSpace(s[j])
    ensures a < |s| ==> !IsSpace(s[a])
    decreases |s| - i
  {
    if i < |s| && IsSpace(s[i]) then TrimOffset(s, i + 1) else i
  }

  /** Where the text that `trim()` keeps ends: the last position down to `a` after a character that is not white space. */
  function TrimLimit(s: string, a: nat, e: nat): (b: nat)
    requires a <= e <= |s|
    ensures a <= b <= e
    ensures forall j :: b <= j < e ==> IsSpace(s[j])
    ensures b > a ==> !IsSpace(s[b - 1])
  {
    if e > a && IsSpace(s[e - 1]) then TrimLimit(s, a, e - 1) else e
  }

  /** `trim()`: the text without leading and trailing white space. */
  function Trim(s: string): (r: string)
    ensures TrimOffset(s) + |r| <= |s| && r == s[TrimOffset(s)..TrimOffset(s) + |r|]
    ensures forall j :: 0 <= j < TrimOffset(s) ==> IsSpace(s[j])
    ensures forall j :: TrimOffset(s) + |r| <= j < |s| ==> IsSpace(s[j])
    ensures |r| > 0 ==> !IsSpace(r[0]) && !IsSpace(r[|r| - 1])
    ensures r == [] <==> IsBlank(s)
  {
    var a := TrimOffset(s);
    var b := TrimLimit(s, a, |s|);
    assert IsBlank(s) ==> a == |s|;
    s[a..b]
  }

  /** `s.slice(0, end)`, where a negative `end` counts back from the end of `s`. */
  function SliceTo(s: string, end: int): (r: string)
    ensures |r| <= |s| && r == s[..|r|]
    ensures 0 <= end ==> |r| == Min(end, |s|)
  {
    if end < 0 then s[..Max(|s| + end, 0)] else s[..Min(end, |s|)]
  }

  /** The first `n` elements, `slice(0, n)` for a non-negative `n`. */
  function Take<T>(s: seq<T>, n: nat): (r: seq<T>)
    ensures |r| == Min(n, |s|) && r == s[..|r|]
  {
    if |s| <= n then s else s[..n]
  }

  function StartsWith(s: string, prefix: string): bool
  {
    |prefix| <= |s| && s[..|prefix|] == prefix
  }

  /** `lastIndexOf(c)`: the last index holding `c`, or -1. */
  function LastIndexOf(s: string, c: char): (r: int)
    ensures -1 <= r < |s|
    ensures r >= 0 ==> s[r] == c
    ensures forall i :: r < i < |s| ==> s[i] != c
  {
    if |s| == 0 then -1
    else if s[|s| - 1] == c then |s| - 1
    else LastIndexOf(s[..|s| - 1], c)
  }

  /** `split` on every single character of `seps`; `split(sep).length` is one more than the number of separators. */
  function Split(s: string, seps: set<char>): (parts: seq<string>)
    ensures |parts| >= 1
    ensures forall i, j :: 0 <= i < |parts| && 0 <= j < |parts[i]| ==> parts[i][j] !in seps
  {
    if |s| == 0 then [""]
    else
      var rest := Split(s[1..], seps);
      if s[0] in seps then [""] + rest
      else [[s[0]] + rest[0]] + rest[1..]
  }

  /** `join(glue)`. */
  function Join(parts: seq<string>, glue: string): string
  {
    if |parts| == 0 then ""
    else if |parts| == 1 then parts[0]
    else parts[0] + glue + Join(parts[1..], glue)
  }

  /** Splitting on one character and joining with it gives the text back. */
  lemma {:induction false} JoinSplit(s: string, c: char)
    ensures Join(Split(s, {c}), [c]) == s
  {
    if |s| > 0 {
      JoinSplit(s[1..], c);
      var rest := Split(s[1..], {c});
      if s[0] == c {
        assert Split(s, {c}) == [""] + rest;
        assert Join([""] + rest, [c]) == "" + [c] + Join(rest, [c]);
        assert s == [s[0]] + s[1..];
      } else {
        var parts := Split(s, {c});
        assert parts == [[s[0]] + rest[0]] + rest[1..];
        if |rest| == 1 {
          assert Join(parts, [c]) == [s[0]] + rest[0];
          assert s == [s[0]] + s[1..];
        } else {
          assert parts[1..] == rest[1..];
          assert Join(rest, [c]) == rest[0] + [c] + Join(rest[1..], [c]);
          assert Join(parts, [c]) == ([s[0]] + rest[0]) + [c] + Join(rest[1..], [c]);
          assert s == [s[0]] + s[1..];
        }
      }
    }
  }

  /** The number of pieces `split` on `c` produces: one more than the occurrences of `c`. */
  function Occurrences(s: string, c: char): nat
  {
    if |s| == 0 then 0 else (if s[0] == c then 1 else 0) + Occurrences(s[1..], c)
  }

  lemma {:induction false} SplitLength(s: string, c: char)
    ensures |Split(s, {c})| == Occurrences(s, c) + 1
  {
    if |s| > 0 {
      SplitLength(s[1..], c);
    }
  }

  predicate NoDups<T(==)>(s: seq<T>)
  {
    forall i, j :: 0 <= i < j < |s| ==> s[i] != s[j]
  }

  /** Every element of `r` occurs in `s` before any occurrence of the elements `r` lists after it: `r` keeps
      the order of first occurrences in `s`. */
  predicate FirstOccurrenceOrder<T(==)>(r: seq<T>, s: seq<T>)
  {
    forall i, j, k :: 0 <= i < j < |r| && 0 <= k < |s| && s[k] == r[j] ==> r[i] in s[..k]
  }

  /** `[...new Set(s)]`: the first occurrence of every element, in order. */
  function Dedup(s: seq<string>): (r: seq<string>)
    ensures NoDups(r)
    ensures forall x :: x in r <==> x in s
    ensures |r| <= |s|
    ensures IsSubsequence(r, s)
    ensures FirstOccurrenceOrder(r, s)
  {
    if |s| == 0 then []
    else
      var init, x := s[..|s| - 1], s[|s| - 1];
      var d := Dedup(init);
      assert s == init + [x];
      assert forall y :: y in s <==> y in init || y == x;
      SubsequenceAppend(d, init, x);
      FirstOccurrenceStep(d, init, x);
      if x in d then d else d + [x]
  }

  /** One more element keeps the order of first occurrences: a repeat adds nothing, a new element goes last. */
  lemma FirstOccurrenceStep(d: seq<string>, init: seq<string>, x: string)
    requires forall y :: y in d <==> y in init
    requires FirstOccurrenceOrder(d, init)
    ensures x in d ==> FirstOccurrenceOrder(d, init + [x])
    ensures x !in d ==> FirstOccurrenceOrder(d + [x], init + [x])
  {
    var s := init + [x];
    if x in d {
      forall i, j, k | 0 <= i < j < |d| && 0 <= k < |s| && s[k] == d[j] ensures d[i] in s[..k] {
        if k < |init| {
          assert init[k] == d[j] && init[..k] == s[..k];
        } else {
          var k' :| 0 <= k' < |init| && init[k'] == d[j];
          assert d[i] in init[..k'];
          assert s[..k] == init && init[..k'] <= init;
        }
      }
    } else {
      var r := d + [x];
      forall i, j, k | 0 <= i < j < |r| && 0 <= k < |s| && s[k] == r[j] ensures r[i] in s[..k] {
        if j < |d| {
          assert k < |init| && init[k] == d[j];
          assert d[i] in init[..k] && init[..k] == s[..k];
        } else {
          assert k == |init|;
          assert d[i] in init && s[..k] == init;
        }
      }
    }
  }

  /** A prefix of a subsequence is a subsequence, and keeps the order of first occurrences. */
  lemma SubsequencePrefix<T>(a: seq<T>, b: seq<T>, n: nat)
    requires n <= |a| && IsSubsequence(a, b) && FirstOccurrenceOrder(a, b)
    ensures IsSubsequence(a[..n], b) && FirstOccurrenceOrder(a[..n], b)
  {
    SubsequenceOnly(a, b, n);
  }

  lemma SubsequenceOnly<T>(a: seq<T>, b: seq<T>, n: nat)
    requires n <= |a| && IsSubsequence(a, b)
    ensures IsSubsequence(a[..n], b)
    decreases |b|
  {
    if n > 0 && |b| > 0 {
      assert a[..n][1..] == a[1..][..n - 1];
      if a[0] == b[0] && IsSubsequence(a[1..], b[1..]) {
        SubsequenceOnly(a[1..], b[1..], n - 1);
      } else {
        SubsequenceOnly(a, b[1..], n);
      }
    }
  }

  /** Appending the same element to both sides keeps a subsequence, and so does appending to the longer side. */
  lemma SubsequenceAppend<T>(a: seq<T>, b: seq<T>, x: T)
    requires IsSubsequence(a, b)
    ensures IsSubsequence(a + [x], b + [x]) && IsSubsequence(a, b + [x])
    decreases |b|
  {
    if |a| == 0 {
      if |b| > 0 {
        SubsequenceAppend(a, b[1..], x);
        assert (b + [x])[1..] == b[1..] + [x];
      } else {
        assert (a + [x])[1..] == [];
      }
    } else {
      assert (b + [x])[1..] == b[1..] + [x];
      assert (a + [x])[1..] == a[1..] + [x];
      if a[0] == b[0] && IsSubsequence(a[1..], b[1..]) {
        SubsequenceAppend(a[1..], b[1..], x);
      } else {
        SubsequenceAppend(a, b[1..], x);
      }
    }
  }

  /** A duplicate-free sequence has as many distinct elements as positions. */
  lemma {:induction false} NoDupsCardinality<T>(s: seq<T>)
    requires NoDups(s)
    ensures |set x | x in s| == |s|
  {
    if |s| > 0 {
      var init := s[..|s| - 1];
      NoDupsCardinality(init);
      assert (set x | x in s) == (set x | x in init) + {s[|s| - 1]} by {
        assert s == init + [s[|s| - 1]];
      }
      assert s[|s| - 1] !in init;
    }
  }

  /** A duplicate-free sequence drawn from a set has at most as many elements as the set. */
  lemma SubsetLength<T>(s: seq<T>, t: seq<T>)
    requires NoDups(s) && NoDups(t)
    requires forall x :: x in s ==> x in t
    ensures |s| <= |t|
  {
    NoDupsCardinality(s);
    NoDupsCardinality(t);
    var a := set x | x in s;
    var b := set x | x in t;
    assert a <= b;
    SubsetCardinality(a, b);
  }

  lemma SubsetCardinality<T>(a: set<T>, b: set<T>)
    requires a <= b
    ensures |a| <= |b|
  {
    assert b == a + (b - a);
  }

  /** `xs.map(k => k.toLowerCase())`. */
  function LowerAll(xs: seq<string>): (r: seq<string>)
    ensures |r| == |xs|
    ensures forall i :: 0 <= i < |xs| ==> r[i] == Lower(xs[i])
  {
    seq(|xs|, i requires 0 <= i < |xs| => Lower(xs[i]))
  }

  /** `a` can be obtained from `b` by deleting elements: it keeps `b`'s order. */
  predicate IsSubsequence<T(==)>(a: seq<T>, b: seq<T>)
    decreases |b|
  {
    || |a| == 0
    || (|b| > 0 && ((a[0] == b[0] && IsSubsequence(a[1..], b[1..])) || IsSubsequence(a, b[1..])))
  }

  /** `xs.filter(x => keys.has(x) === wanted)`. */
  function Select(xs: seq<string>, keys: set<string>, wanted: bool): (r: seq<string>)
    ensures forall x :: x in r <==> x in xs && (x in keys <==> wanted)
    ensures NoDups(xs) ==> NoDups(r)
    ensures IsSubsequence(r, xs)
  {
    if |xs| == 0 then []
    else
      var rest := Select(xs[1..], keys, wanted);
      assert NoDups(xs) ==> NoDups(xs[1..]) && xs[0] !in xs[1..];
      if (xs[0] in keys) == wanted then [xs[0]] + rest else rest
  }

  /** The kept and the dropped elements together are as many as the input. */
  lemma {:induction false} SelectSplits(xs: seq<string>, keys: set<string>)
    ensures |Select(xs, keys, true)| + |Select(xs, keys, false)| == |xs|
  {
    if |xs| > 0 {
      SelectSplits(xs[1..], keys);
    }
  }

  /** Two duplicate-free sequences with the same elements have the same length. */
  lemma SameElementsLength<T>(a: seq<T>, b: seq<T>)
    requires NoDups(a) && NoDups(b)
    requires forall x :: x in a <==> x in b
    ensures |a| == |b|
  {
    NoDupsCardinality(a);
    NoDupsCardinality(b);
    assert (set x | x in a) == (set x | x in b);
  }

  /** Duplicate-free `a` and `b` that split the elements of duplicate-free `c` between them are as long as `c`. */
  lemma DisjointUnionLength<T>(a: seq<T>, b: seq<T>, c: seq<T>)
    requires NoDups(a) && NoDups(b) && NoDups(c)
    requires forall x :: x in c <==> x in a || x in b
    requires forall x :: x in a ==> x !in b
    ensures |a| + |b| == |c|
  {
    NoDupsCardinality(a);
    NoDupsCardinality(b);
    NoDupsCardinality(c);
    var sa, sb := set x | x in a, set x | x in b;
    assert (set x | x in c) == sa + sb;
    assert sa !! sb;
  }

  /** Number of maximal runs of white space. */
  function SpaceRuns(s: string): (n: nat)
    ensures n <= |s|
  {
    if |s| == 0 then 0
    else
      var last := s[|s| - 1];
      SpaceRuns(s[..|s| - 1]) + (if IsSpace(last) && (|s| == 1 || !IsSpace(s[|s| - 2])) then 1 else 0)
  }

  /** `s.split(/\s+/).length`: every maximal run of white space separates two pieces, even at either end,
      and the empty text is one (empty) piece. */
  function WordCount(s: string): (n: nat)
    ensures 1 <= n <= |s| + 1
  {
    1 + SpaceRuns(s)
  }

  /** A run of white space starts at `i`: white space not preceded by white space. */
  predicate RunStartAt(s: string, i: nat)
  {
    i < |s| && IsSpace(s[i]) && (i == 0 || !IsSpace(s[i - 1]))
  }

  /** The positions where a run of white space starts. */
  ghost function RunStarts(s: string): set<nat>
  {
    set i: nat | i < |s| && RunStartAt(s, i)
  }

  /** The piece count is one more than the number of places where a run of white space starts. */
  lemma {:induction false} WordCountRuns(s: string)
    ensures WordCount(s) == 1 + |RunStarts(s)|
    decreases |s|
  {
    if |s| > 0 {
      var init := s[..|s| - 1];
      WordCountRuns(init);
      RunStartsStep(s);
    }
  }

  /** The last character adds its position to the run starts of the rest, or nothing. */
  lemma RunStartsStep(s: string)
    requires |s| > 0
    ensures var k := |s| - 1;
      RunStarts(s) == RunStarts(s[..k]) + (if RunStartAt(s, k) then {k} else {}) && k !in RunStarts(s[..k])
  {
    var k := |s| - 1;
    forall i: nat | i < k
      ensures RunStartAt(s, i) == RunStartAt(s[..k], i)
    {
      RunStartKept(s, k, i);
    }
  }

  lemma RunStartKept(s: string, k: nat, i: nat)
    requires i < k <= |s|
    ensures RunStartAt(s, i) == RunStartAt(s[..k], i)
  {
    assert s[i] == s[..k][i];
    if i > 0 {
      assert s[i - 1] == s[..k][i - 1];
    }
  }

  /** A text without white space is one piece. */
  lemma WordCountNoSpace(s: string)
    requires forall i :: 0 <= i < |s| ==> !IsSpace(s[i])
    ensures WordCount(s) == 1
  {
    WordCountRuns(s);
    assert RunStarts(s) == {};
  }
}
