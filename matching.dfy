/**
 * The approximate matcher: the bigram set of a string, the similarity of two
 * strings (the Jaccard similarity of their bigram sets), and the sliding
 * window of words that `Match` compares against the needle.
 */
module Matching {
  import opened GoStrings
  import opened Bigrams
  import opened IndexSets

  /**
   * `LastBigram()` is not part of this model.  It is taken to be the last
   * bigram in index order, "zz", whose index 676 is the capacity `bigramsOf`
   * asks for.
   */
  const LastBigram: Bigram := Bigram('z', 'z')

  // ---------------------------------------------------------------------
  // Bigram sets
  // ---------------------------------------------------------------------

  /**
   * Every adjacent pair of runes passes `validate`, so `newBigram` does not
   * panic: a string of two or more runes has every rune in some pair.
   */
  predicate AllPairsValid(s: string) {
    |s| < 2 || AllValid(s)
  }

  /** The index of the bigram of runes `i` and `i + 1`. */
  function PairIdx(s: string, i: nat): nat
    requires i + 1 < |s|
  {
    Bigram(s[i], s[i + 1]).Idx()
  }

  /** The indices of the bigrams of adjacent runes. */
  ghost function BigramSet(s: string): set<nat> {
    set i | 0 <= i < |s| - 1 :: PairIdx(s, i)
  }

  /** A string has no bigrams exactly when it is shorter than two runes. */
  lemma BigramSetEmptyIff(s: string)
    ensures BigramSet(s) == {} <==> |s| < 2
  {
    if |s| >= 2 {
      assert PairIdx(s, 0) in BigramSet(s);
    }
  }

  /** Canonical text has only valid pairs, so the panics in `bigramsOf` cannot happen on it. */
  lemma CleanPairsValid(s: string)
    requires IsClean(s)
    ensures AllPairsValid(s)
    ensures forall x :: x in BigramSet(s) ==> x <= 676
  {
  }

  /**
   * `bigramsOf(s)`: a set of capacity `LastBigram().Idx()` (rounded up to
   * 704), with the index of every adjacent pair placed in it.
   */
  method BigramsOf(s: string) returns (bigrams: IndexSet)
    requires AllPairsValid(s)
    ensures fresh(bigrams) && fresh(bigrams.words) && bigrams.Valid()
    ensures bigrams.Capacity() == 704
    ensures bigrams.Elements() == BigramSet(s)
  {
    var possibleBigrams := LastBigram.Idx();
    bigrams := new IndexSet(possibleBigrams);
    var i := 0;
    while i < |s| - 1
      invariant 0 <= i <= if |s| > 0 then |s| - 1 else 0
      invariant fresh(bigrams.words) && bigrams.Valid() && bigrams.Capacity() == 704
      invariant bigrams.Elements() == set j | 0 <= j < i :: PairIdx(s, j)
    {
      var bg := New([s[i], s[i + 1]]);
      bigrams.Place(bg.value.Idx());
      assert (set j | 0 <= j < i + 1 :: PairIdx(s, j)) == (set j | 0 <= j < i :: PairIdx(s, j)) + {PairIdx(s, i)};
      i := i + 1;
    }
  }

  /** The Jaccard similarity of the bigram sets of two strings. */
  ghost function SimilarityOf(a: string, b: string): real {
    JaccardOf(BigramSet(a), BigramSet(b))
  }

  /** `similarity(a, b)`. */
  method Similarity(a: string, b: string) returns (r: real)
    requires AllPairsValid(a) && AllPairsValid(b)
    ensures r == SimilarityOf(a, b)
  {
    var bigramsA := BigramsOf(a);
    var bigramsB := BigramsOf(b);
    r := Jaccard(bigramsA, bigramsB);
  }

  /** Similarity lies in [0, 1], is symmetric, and is 1 exactly between strings with the same bigrams. */
  lemma SimilarityProperties(a: string, b: string)
    ensures 0.0 <= SimilarityOf(a, b) <= 1.0
    ensures SimilarityOf(a, b) == SimilarityOf(b, a)
    ensures SimilarityOf(a, b) == 1.0 <==> BigramSet(a) == BigramSet(b)
    ensures SimilarityOf(a, a) == 1.0
  {
    JaccardSymmetric(BigramSet(a), BigramSet(b));
    JaccardOneIff(BigramSet(a), BigramSet(b));
    JaccardOneIff(BigramSet(a), BigramSet(a));
  }

  // ---------------------------------------------------------------------
  // Windows of words
  // ---------------------------------------------------------------------

  /** The `k` words starting at word `i`, joined by single spaces. */
  function Window(words: seq<string>, i: nat, k: nat): string
    requires 1 <= k && i + k <= |words|
  {
    Join(words[i..i + k], ' ')
  }

  lemma {:induction false} SplitKeepsValid(s: string, sep: char)
    requires AllValid(s)
    ensures forall k :: 0 <= k < |Split(s, sep)| ==> AllValid(Split(s, sep)[k])
  {
    if |s| > 0 {
      SplitKeepsValid(s[1..], sep);
      var rest := Split(s[1..], sep);
      assert forall j :: 0 <= j < |s[1..]| ==> Validate(s[1..][j]);
      if s[0] != sep {
        var first := [s[0]] + rest[0];
        assert forall j :: 0 <= j < |first| ==> Validate(first[j]) by {
          forall j | 0 <= j < |first|
            ensures Validate(first[j])
          {
            if j > 0 {
              assert first[j] == rest[0][j - 1];
            }
          }
        }
      }
    }
  }

  lemma {:induction false} JoinKeepsValid(parts: seq<string>, sep: char)
    requires Validate(sep)
    requires forall k :: 0 <= k < |parts| ==> AllValid(parts[k])
    ensures AllValid(Join(parts, sep))
  {
    if |parts| > 1 {
      JoinKeepsValid(parts[1..], sep);
      var tail := Join(parts[1..], sep);
      var s := parts[0] + [sep] + tail;
      forall j | 0 <= j < |s|
        ensures Validate(s[j])
      {
        if j < |parts[0]| {
          assert s[j] == parts[0][j];
        } else if j > |parts[0]| {
          assert s[j] == tail[j - |parts[0]| - 1];
        }
      }
    }
  }

  /** A window of words that pass `validate` passes it throughout. */
  lemma WindowValid(words: seq<string>, i: nat, k: nat)
    requires forall j :: 0 <= j < |words| ==> AllValid(words[j])
    requires 1 <= k && i + k <= |words|
    ensures AllValid(Window(words, i, k))
  {
    var window := words[i..i + k];
    forall m | 0 <= m < |window|
      ensures AllValid(window[m])
    {
      assert window[m] == words[i + m];
    }
    JoinKeepsValid(window, ' ');
  }

  /** The windows starting before `n` that `keep` accepts, in order of their start. */
  ghost function Scan(keep: string -> bool, words: seq<string>, k: nat, n: nat): seq<string>
    requires 1 <= k && (n == 0 || n + k <= |words| + 1)
  {
    if n == 0 then []
    else
      var candidate := Window(words, n - 1, k);
      Scan(keep, words, k, n - 1) + (if keep(candidate) then [candidate] else [])
  }

  /** The start positions of the windows that `Scan` keeps. */
  ghost function Starts(keep: string -> bool, words: seq<string>, k: nat, n: nat): (starts: seq<nat>)
    requires 1 <= k && (n == 0 || n + k <= |words| + 1)
    ensures forall j :: 0 <= j < |starts| ==> starts[j] < n
    ensures forall j, l :: 0 <= j < l < |starts| ==> starts[j] < starts[l]
    ensures forall i :: 0 <= i < n ==> (i in starts <==> keep(Window(words, i, k)))
  {
    if n == 0 then []
    else Starts(keep, words, k, n - 1) + (if keep(Window(words, n - 1, k)) then [n - 1] else [])
  }

  /**
   * `Scan` keeps exactly the windows at the start positions `Starts` lists,
   * in that (increasing) order.
   */
  lemma {:induction false} ScanAtStarts(keep: string -> bool, words: seq<string>, k: nat, n: nat)
    requires 1 <= k && (n == 0 || n + k <= |words| + 1)
    ensures var starts := Starts(keep, words, k, n);
      |Scan(keep, words, k, n)| == |starts| &&
      forall j :: 0 <= j < |starts| ==>
        starts[j] + k <= |words| && Scan(keep, words, k, n)[j] == Window(words, starts[j], k)
  {
    if n > 0 {
      ScanAtStarts(keep, words, k, n - 1);
      var starts, scan := Starts(keep, words, k, n - 1), Scan(keep, words, k, n - 1);
      var candidate := Window(words, n - 1, k);
      if keep(candidate) {
        assert Starts(keep, words, k, n) == starts + [n - 1];
        assert Scan(keep, words, k, n) == scan + [candidate];
      } else {
        assert Starts(keep, words, k, n) == starts;
        assert Scan(keep, words, k, n) == scan;
      }
    }
  }

  /** The elements of `xs` that `keep` accepts, keeping their order. */
  ghost function Filter(keep: string -> bool, xs: seq<string>): seq<string> {
    if |xs| == 0 then []
    else Filter(keep, xs[..|xs| - 1]) + (if keep(xs[|xs| - 1]) then [xs[|xs| - 1]] else [])
  }

  /** A stricter `keep` selects, from what a looser one selects, exactly what it accepts. */
  lemma {:induction false} ScanNarrows(loose: string -> bool, strict: string -> bool, words: seq<string>, k: nat, n: nat)
    requires 1 <= k && (n == 0 || n + k <= |words| + 1)
    requires forall c :: strict(c) ==> loose(c)
    ensures Scan(strict, words, k, n) == Filter(strict, Scan(loose, words, k, n))
  {
    if n > 0 {
      ScanNarrows(loose, strict, words, k, n - 1);
      var candidate := Window(words, n - 1, k);
      var before := Scan(loose, words, k, n - 1);
      if loose(candidate) {
        assert (before + [candidate])[..|before|] == before;
      } else {
        assert before + [] == before;
      }
    }
  }

  /** What `Filter` keeps is no longer than its input, and every kept element comes from the input and passes the test. */
  lemma {:induction false} FilterDrawsFromInput(keep: string -> bool, xs: seq<string>)
    ensures |Filter(keep, xs)| <= |xs|
    ensures forall x :: x in Filter(keep, xs) ==> x in xs && keep(x)
  {
    if |xs| > 0 {
      FilterDrawsFromInput(keep, xs[..|xs| - 1]);
    }
  }

  /** `Match`'s inner loop: `candidate := words[i]`, then `candidate += " " + words[i+j]`. */
  method BuildCandidate(words: seq<string>, i: nat, wordCount: nat) returns (candidate: string)
    requires 1 <= wordCount && i + wordCount <= |words|
    ensures candidate == Window(words, i, wordCount)
  {
    candidate := words[i];
    assert words[i..i + 1] == [words[i]];
    for j := 1 to wordCount
      invariant candidate == Window(words, i, j)
    {
      assert words[i..i + j + 1] == words[i..i + j] + [words[i + j]];
      JoinSnoc(words[i..i + j], words[i + j], ' ');
      candidate := candidate + " " + words[i + j];
    }
  }

  /** Whether a candidate is similar enough to the needle. */
  ghost function Similar(needle: string, threshold: real): string -> bool {
    c => SimilarityOf(needle, c) >= threshold
  }

  /** `Similar` is the threshold test on `SimilarityOf`. */
  lemma SimilarIs(needle: string, threshold: real)
    ensures forall c {:trigger SimilarityOf(needle, c)} ::
      Similar(needle, threshold)(c) <==> SimilarityOf(needle, c) >= threshold
  {
  }

  /** `similarity(needle, candidate) >= threshold`. */
  method IsSimilar(needle: string, candidate: string, threshold: real) returns (kept: bool)
    requires AllPairsValid(needle) && AllPairsValid(candidate)
    ensures kept <==> SimilarityOf(needle, candidate) >= threshold
  {
    var sim := Similarity(needle, candidate);
    kept := sim >= threshold;
  }

  /** One more start position: `Scan` appends the window there if `keep` accepts it. */
  lemma ScanStep(keep: string -> bool, words: seq<string>, k: nat, i: nat, candidate: string, kept: bool)
    requires 1 <= k && i + k <= |words|
    requires candidate == Window(words, i, k) && kept == keep(candidate)
    ensures Scan(keep, words, k, i + 1) == Scan(keep, words, k, i) + if kept then [candidate] else []
  {
  }

  /**
   * `Match`'s outer loop over the start positions below `limit`: build each
   * window and keep it if it is similar enough.  `keep` names that test.
   */
  method ScanWindows(needle: string, words: seq<string>, wordCount: nat, threshold: real, limit: nat,
                     ghost keep: string -> bool)
    returns (matches: seq<string>)
    requires AllPairsValid(needle)
    requires forall j :: 0 <= j < |words| ==> AllValid(words[j])
    requires 1 <= wordCount && (limit == 0 || limit + wordCount <= |words| + 1)
    requires forall c {:trigger SimilarityOf(needle, c)} :: keep(c) <==> SimilarityOf(needle, c) >= threshold
    ensures matches == Scan(keep, words, wordCount, limit)
  {
    matches := [];
    for i := 0 to limit
      invariant matches == Scan(keep, words, wordCount, i)
    {
      var candidate := BuildCandidate(words, i, wordCount);
      WindowValid(words, i, wordCount);
      var kept := IsSimilar(needle, candidate, threshold);
      ScanStep(keep, words, wordCount, i, candidate, kept);
      if kept {
        matches := matches + [candidate];
      }
    }
  }

  // ---------------------------------------------------------------------
  // Match
  // ---------------------------------------------------------------------

  /** The words of the cleaned haystack. */
  ghost function Words(haystack: string): (words: seq<string>)
    ensures |words| >= 1
  {
    Split(Cleaned(haystack), ' ')
  }

  /** The number of words of the cleaned needle: the window width. */
  ghost function WordCount(needle: string): (k: nat)
    ensures k >= 1
  {
    |Split(Cleaned(needle), ' ')|
  }

  /** The start positions `Match` examines: `0 <= i < len(words) - wordCount`. */
  ghost function Examined(needle: string, haystack: string): nat {
    if |Words(haystack)| > WordCount(needle) then |Words(haystack)| - WordCount(needle) else 0
  }

  /** What `Match` returns: the similar windows among the examined start positions. */
  ghost function MatchSpec(needle: string, haystack: string, threshold: real): seq<string> {
    Scan(Similar(Cleaned(needle), threshold), Words(haystack), WordCount(needle), Examined(needle, haystack))
  }

  /** `Match(needle, haystack, threshold)`, with the loop bound as written. */
  method Match(needle: string, haystack: string, threshold: real) returns (matches: seq<string>)
    ensures matches == MatchSpec(needle, haystack, threshold)
  {
    var cleanHaystack := Clean(haystack);
    var cleanNeedle := Clean(needle);
    var words := Split(cleanHaystack, ' ');
    var wordCount := |Split(cleanNeedle, ' ')|;
    SplitKeepsValid(cleanHaystack, ' ');
    var limit := if |words| > wordCount then |words| - wordCount else 0;
    assert words == Words(haystack) && wordCount == WordCount(needle) && limit == Examined(needle, haystack);
    ghost var keep := Similar(cleanNeedle, threshold);
    SimilarIs(cleanNeedle, threshold);
    matches := ScanWindows(cleanNeedle, words, wordCount, threshold, limit, keep);
  }

  /**
   * The matches of `Match` are windows of the cleaned haystack similar enough
   * to the cleaned needle, at increasing start positions `i` with
   * `i + wordCount < len(words)`; every such window is among them.
   */
  lemma MatchSelects(needle: string, haystack: string, threshold: real)
    ensures var words, k := Words(haystack), WordCount(needle);
      var keep := Similar(Cleaned(needle), threshold);
      var starts := Starts(keep, words, k, Examined(needle, haystack));
      |MatchSpec(needle, haystack, threshold)| == |starts| &&
      (forall j :: 0 <= j < |starts| ==>
        starts[j] + k < |words| && MatchSpec(needle, haystack, threshold)[j] == Window(words, starts[j], k)) &&
      (forall j, l :: 0 <= j < l < |starts| ==> starts[j] < starts[l]) &&
      (forall i :: 0 <= i && i + k < |words| ==>
        (i in starts <==> SimilarityOf(Cleaned(needle), Window(words, i, k)) >= threshold))
  {
    var words, k := Words(haystack), WordCount(needle);
    ScanAtStarts(Similar(Cleaned(needle), threshold), words, k, Examined(needle, haystack));
  }

  /** `Match` finds nothing when the haystack has no more words than the needle. */
  lemma MatchEmptyWhenShort(needle: string, haystack: string, threshold: real)
    requires |Words(haystack)| <= WordCount(needle)
    ensures MatchSpec(needle, haystack, threshold) == []
  {
  }

  /** Raising the threshold of `Match` keeps, in order, the matches that reach the new one. */
  lemma MatchThresholdMonotone(needle: string, haystack: string, low: real, high: real)
    requires low <= high
    ensures MatchSpec(needle, haystack, high)
      == Filter(Similar(Cleaned(needle), high), MatchSpec(needle, haystack, low))
  {
    ScanNarrows(Similar(Cleaned(needle), low), Similar(Cleaned(needle), high),
      Words(haystack), WordCount(needle), Examined(needle, haystack));
  }

  // ---------------------------------------------------------------------
  // The last window
  // ---------------------------------------------------------------------

  /** The whole cleaned text, as the one window that spans all its words. */
  lemma WholeWindow(text: string)
    ensures Window(Words(text), 0, |Words(text)|) == Cleaned(text)
  {
    var words := Words(text);
    assert words[0..|words|] == words;
    JoinSplit(Cleaned(text), ' ');
  }

  /**
   * As written, `Match` never looks at the last window: a haystack that
   * cleans to the needle itself yields no match at any threshold, although
   * its only window has similarity 1.
   */
  lemma LastWindowSkipped(needle: string, threshold: real)
    ensures MatchSpec(needle, needle, threshold) == []
    ensures SimilarityOf(Cleaned(needle), Window(Words(needle), 0, WordCount(needle))) == 1.0
  {
    WholeWindow(needle);
    SimilarityProperties(Cleaned(needle), Cleaned(needle));
  }

  /** The start positions examined with the bound `i <= len(words) - wordCount`. */
  ghost function AllStarts(needle: string, haystack: string): nat {
    if |Words(haystack)| >= WordCount(needle) then |Words(haystack)| - WordCount(needle) + 1 else 0
  }

  /** What `Match` returns when every window, the last included, is examined. */
  ghost function MatchAllWindowsSpec(needle: string, haystack: string, threshold: real): seq<string> {
    Scan(Similar(Cleaned(needle), threshold), Words(haystack), WordCount(needle), AllStarts(needle, haystack))
  }

  /** `Match` with the loop bound `i <= len(words) - wordCount`. */
  method MatchAllWindows(needle: string, haystack: string, threshold: real) returns (matches: seq<string>)
    ensures matches == MatchAllWindowsSpec(needle, haystack, threshold)
  {
    var cleanHaystack := Clean(haystack);
    var cleanNeedle := Clean(needle);
    var words := Split(cleanHaystack, ' ');
    var wordCount := |Split(cleanNeedle, ' ')|;
    SplitKeepsValid(cleanHaystack, ' ');
    var limit := if |words| >= wordCount then |words| - wordCount + 1 else 0;
    assert words == Words(haystack) && wordCount == WordCount(needle) && limit == AllStarts(needle, haystack);
    ghost var keep := Similar(cleanNeedle, threshold);
    SimilarIs(cleanNeedle, threshold);
    matches := ScanWindows(cleanNeedle, words, wordCount, threshold, limit, keep);
  }

  /** With every window examined, text that cleans to the needle is found at any threshold up to 1. */
  lemma AllWindowsFindsNeedle(needle: string, threshold: real)
    requires threshold <= 1.0
    ensures MatchAllWindowsSpec(needle, needle, threshold) == [Cleaned(needle)]
  {
    var words, k := Words(needle), WordCount(needle);
    var keep := Similar(Cleaned(needle), threshold);
    WholeWindow(needle);
    SimilarityProperties(Cleaned(needle), Cleaned(needle));
    SimilarIs(Cleaned(needle), threshold);
    ScanStep(keep, words, k, 0, Cleaned(needle), true);
  }

  /** The window that ends at the last word: the one `Match` never examines. */
  ghost function LastWindow(words: seq<string>, k: nat): string
    requires 1 <= k <= |words|
  {
    Window(words, |words| - k, k)
  }

  /** Scanning one start further appends the last window if `keep` accepts it. */
  lemma ScanLast(keep: string -> bool, words: seq<string>, k: nat)
    requires 1 <= k <= |words|
    ensures Scan(keep, words, k, |words| - k + 1)
      == Scan(keep, words, k, |words| - k) + (if keep(LastWindow(words, k)) then [LastWindow(words, k)] else [])
  {
    ScanStep(keep, words, k, |words| - k, LastWindow(words, k), keep(LastWindow(words, k)));
  }

  /**
   * The corrected scan examines the last window too, and otherwise agrees
   * with `Match`: it appends that window exactly when it is similar enough.
   */
  lemma AllWindowsExtendsMatch(needle: string, haystack: string, threshold: real)
    requires |Words(haystack)| >= WordCount(needle)
    ensures var last := LastWindow(Words(haystack), WordCount(needle));
      MatchAllWindowsSpec(needle, haystack, threshold)
        == MatchSpec(needle, haystack, threshold) + (if Similar(Cleaned(needle), threshold)(last) then [last] else [])
  {
    SpecsAsScans(needle, haystack, threshold);
    ScanLast(Similar(Cleaned(needle), threshold), Words(haystack), WordCount(needle));
  }

  /** Both specifications, once the haystack holds a whole window, as scans up to the last start. */
  lemma SpecsAsScans(needle: string, haystack: string, threshold: real)
    requires |Words(haystack)| >= WordCount(needle)
    ensures var words, k := Words(haystack), WordCount(needle);
      MatchSpec(needle, haystack, threshold) == Scan(Similar(Cleaned(needle), threshold), words, k, |words| - k) &&
      MatchAllWindowsSpec(needle, haystack, threshold) == Scan(Similar(Cleaned(needle), threshold), words, k, |words| - k + 1)
  {
  }
}
