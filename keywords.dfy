/** Job-keyword extraction and keyword matching
    (`extract_keywords_from_job`, `keyword_match_score` in
    src/ats_analyzer.py). */
module Keywords {
  import opened Text
  import opened Lists
  import opened Tokenizer
  import StableSort

  const STOP_WORDS: set<string> :=
    {"the", "and", "with", "for", "using", "in", "to", "of", "a", "an", "as", "on", "by", "or"}

  /** `str.isdigit()`: non-empty and all digits. */
  predicate IsDigitString(w: string) { |w| > 0 && AllDigits(w) }

  predicate IsCandidate(w: string) { w !in STOP_WORDS && !IsDigitString(w) }

  predicate NotStopWord(w: string) { w !in STOP_WORDS }

  /** The tokens of the lower-cased job text that are neither stop-words nor
      all digits, in text order. */
  function Candidates(jobText: string): (c: seq<string>)
    ensures forall w :: w in c <==> w in KeywordTokens(jobText) && IsCandidate(w)
    ensures IsSubsequence(c, KeywordTokens(jobText))
    ensures forall w :: Count(c, w) == if IsCandidate(w) then Count(KeywordTokens(jobText), w) else 0
  {
    var tokens := KeywordTokens(jobText);
    FilterIsSubsequence(tokens, IsCandidate);
    forall w ensures Count(Filter(tokens, IsCandidate), w) == if IsCandidate(w) then Count(tokens, w) else 0 {
      FilterCount(tokens, IsCandidate, w);
    }
    Filter(tokens, IsCandidate)
  }

  /** The counts of a `Counter` built from `xs`. */
  function Frequency(xs: seq<string>): string -> int {
    w => Count(xs, w)
  }

  /** The keys of `Counter(xs).most_common(n)`: the stable descending sort of
      the first-occurrence-ordered keys by count, cut to `n` (`heapq.nlargest`
      returns nothing for `n <= 0`). */
  function MostCommon(xs: seq<string>, n: int): (r: seq<string>)
    ensures |r| == if n <= 0 then 0 else if n < |Distinct(xs)| then n else |Distinct(xs)|
    ensures NoDuplicates(r)
    ensures forall i | 0 <= i < |r| :: r[i] in xs
  {
    if n <= 0 then []
    else
      var d := Distinct(xs);
      var s := StableSort.SortDesc(d, Frequency(xs));
      StableSort.SortDescNoDuplicates(d, Frequency(xs));
      StableSort.PrefixOfSortIsTop(d, Take(s, n), Frequency(xs));
      Take(s, n)
  }

  function ExtractKeywordsFromJob(jobText: string, topN: int): (r: seq<string>)
    ensures topN <= 0 ==> r == []
    ensures topN > 0 ==> |r| <= topN
  {
    MostCommon(Candidates(jobText), topN)
  }

  /** The `isdigit` filter never removes anything: no token holds a digit. */
  lemma DigitFilterIsVacuous(jobText: string)
    ensures Candidates(jobText) == Filter(KeywordTokens(jobText), NotStopWord)
  {
    var tokens := KeywordTokens(jobText);
    forall i | 0 <= i < |tokens| ensures IsCandidate(tokens[i]) == NotStopWord(tokens[i]) {
      TokenHasNoDigit(tokens[i]);
      assert !IsDigit(tokens[i][0]);
    }
    FilterCongruent(tokens, IsCandidate, NotStopWord);
  }

  /** The job keywords are the sorted distinct candidates cut to `topN`. */
  lemma KeywordsArePrefixOfSorted(jobText: string, topN: int)
    ensures var c := Candidates(jobText);
            var s := StableSort.SortDesc(Distinct(c), Frequency(c));
            var r := ExtractKeywordsFromJob(jobText, topN);
            && r <= s
            && |r| == (if topN <= 0 then 0 else if topN < |s| then topN else |s|)
  {
  }

  /** Every keyword is a candidate token of the job text: lower-case, at
      least two characters of the keyword class, no digit, not a stop-word. */
  lemma KeywordsAreCandidateTokens(jobText: string, topN: int)
    ensures var r := ExtractKeywordsFromJob(jobText, topN);
            forall i | 0 <= i < |r| ::
              && r[i] in Candidates(jobText) && r[i] !in STOP_WORDS && IsToken(r[i], KeywordChar)
              && (forall j | 0 <= j < |r[i]| :: !IsDigit(r[i][j]) && !IsUpper(r[i][j]))
  {
    var c := Candidates(jobText);
    var r := ExtractKeywordsFromJob(jobText, topN);
    KeywordsArePrefixOfSorted(jobText, topN);
    StableSort.PrefixOfSortIsTop(Distinct(c), r, Frequency(c));
    forall i | 0 <= i < |r|
      ensures r[i] in c && r[i] !in STOP_WORDS && IsToken(r[i], KeywordChar)
      ensures forall j | 0 <= j < |r[i]| :: !IsDigit(r[i][j]) && !IsUpper(r[i][j])
    {
      CandidateIsToken(jobText, r[i]);
    }
  }

  /** A candidate is a lower-case keyword token without digits that is not
      a stop-word. */
  lemma CandidateIsToken(jobText: string, w: string)
    requires w in Candidates(jobText)
    ensures w !in STOP_WORDS && IsToken(w, KeywordChar)
    ensures forall j | 0 <= j < |w| :: !IsDigit(w[j]) && !IsUpper(w[j])
  {
    var tokens := KeywordTokens(jobText);
    var c := Candidates(jobText);
    var k :| 0 <= k < |c| && c[k] == w;
    assert w in tokens && IsCandidate(w);
    var t :| 0 <= t < |tokens| && tokens[t] == w;
    TokenHasNoDigit(tokens[t]);
    PieceOfLowerIsLower(jobText, tokens[t]);
  }

  /** The keywords are the most frequent candidates, in non-increasing order
      of frequency: no candidate left out is more frequent than one kept. */
  lemma KeywordsAreMostFrequent(jobText: string, topN: int)
    ensures var r := ExtractKeywordsFromJob(jobText, topN);
            var c := Candidates(jobText);
            && (forall i, j | 0 <= i < j < |r| :: Count(c, r[i]) >= Count(c, r[j]))
            && (forall w, i | w in c && w !in r && 0 <= i < |r| :: Count(c, w) <= Count(c, r[i]))
  {
    var c := Candidates(jobText);
    var d := Distinct(c);
    var f := Frequency(c);
    var r := ExtractKeywordsFromJob(jobText, topN);
    KeywordsArePrefixOfSorted(jobText, topN);
    StableSort.PrefixOfSortIsTop(d, r, f);
    forall w, i | w in c && w !in r && 0 <= i < |r| ensures Count(c, w) <= Count(c, r[i]) {
      assert w in d && f(w) <= f(r[i]);
    }
  }

  /** Ties keep first-occurrence order: for each frequency, the keywords of
      that frequency are a prefix of the distinct candidates of that
      frequency in the order they first occur in the job text. */
  lemma KeywordTiesInFirstOccurrenceOrder(jobText: string, topN: int, k: int)
    ensures var r := ExtractKeywordsFromJob(jobText, topN);
            var c := Candidates(jobText);
            StableSort.WithKey(r, Frequency(c), k) <= StableSort.WithKey(Distinct(c), Frequency(c), k)
  {
    var c := Candidates(jobText);
    KeywordsArePrefixOfSorted(jobText, topN);
    StableSort.PrefixOfSortKeepsTies(Distinct(c), ExtractKeywordsFromJob(jobText, topN), Frequency(c), k);
  }

  datatype KeywordMatch = KeywordMatch(score: int, matched: seq<string>, missing: seq<string>)

  /** `[k for k in ks if k in words]` */
  function KeepIn(ks: seq<string>, words: set<string>): seq<string> {
    if ks == [] then [] else (if ks[0] in words then [ks[0]] else []) + KeepIn(ks[1..], words)
  }

  /** `[k for k in ks if k not in matched]` */
  function KeepNotIn(ks: seq<string>, matched: seq<string>): seq<string> {
    if ks == [] then [] else (if ks[0] !in matched then [ks[0]] else []) + KeepNotIn(ks[1..], matched)
  }

  /** `keyword_match_score`: `matched` and `missing` split the job keywords
      by presence among the resume's keyword tokens, both in job order, and
      the score is the percentage matched, `floor(100 * m / max(1, n))` for
      `m` matched out of `n` job keywords. */
  function KeywordMatchScore(resumeText: string, jobKeywords: seq<string>): (r: KeywordMatch)
    ensures var words := set w | w in KeywordTokens(resumeText);
            && (forall k :: k in r.matched <==> k in jobKeywords && k in words)
            && (forall k :: k in r.missing <==> k in jobKeywords && k !in words)
            && |r.matched| + |r.missing| == |jobKeywords|
            && IsSubsequence(r.matched, jobKeywords) && IsSubsequence(r.missing, jobKeywords)
    ensures 0 <= r.score <= 100
    ensures r.matched == [] ==> r.score == 0
    ensures r.score == 100 <==> jobKeywords != [] && r.missing == []
  {
    var words := set w | w in KeywordTokens(resumeText);
    var matched := KeepIn(jobKeywords, words);
    var missing := KeepNotIn(jobKeywords, matched);
    KeepInFacts(jobKeywords, words);
    KeepNotInFacts(jobKeywords, matched);
    PartitionSizes(jobKeywords, words, matched);
    PercentBounds(|matched|, |jobKeywords|);
    var total := if |jobKeywords| > 1 then |jobKeywords| else 1;
    KeywordMatch(|matched| * 100 / total, matched, missing)
  }

  lemma {:induction false} KeepInFacts(ks: seq<string>, words: set<string>)
    ensures forall k :: k in KeepIn(ks, words) <==> k in ks && k in words
    ensures IsSubsequence(KeepIn(ks, words), ks)
  {
    if ks != [] {
      KeepInFacts(ks[1..], words);
      var rest := KeepIn(ks[1..], words);
      assert ks == [ks[0]] + ks[1..];
      if ks[0] in words {
        assert ([ks[0]] + rest)[1..] == rest;
      } else {
        assert KeepIn(ks, words) == rest;
        SubsequenceSkip(rest, ks[0], ks[1..]);
      }
    }
  }

  lemma {:induction false} KeepNotInFacts(ks: seq<string>, matched: seq<string>)
    ensures forall k :: k in KeepNotIn(ks, matched) <==> k in ks && k !in matched
    ensures IsSubsequence(KeepNotIn(ks, matched), ks)
  {
    if ks != [] {
      KeepNotInFacts(ks[1..], matched);
      var rest := KeepNotIn(ks[1..], matched);
      assert ks == [ks[0]] + ks[1..];
      if ks[0] !in matched {
        assert ([ks[0]] + rest)[1..] == rest;
      } else {
        assert KeepNotIn(ks, matched) == rest;
        SubsequenceSkip(rest, ks[0], ks[1..]);
      }
    }
  }

  /** Every job keyword lands in exactly one of the two lists. */
  lemma {:induction false} PartitionSizes(ks: seq<string>, words: set<string>, matched: seq<string>)
    requires forall k | k in ks :: k in matched <==> k in words
    ensures |KeepIn(ks, words)| + |KeepNotIn(ks, matched)| == |ks|
  {
    if ks != [] {
      PartitionSizes(ks[1..], words, matched);
    }
  }

  lemma PercentBounds(m: nat, n: nat)
    requires m <= n
    ensures var p := m * 100 / (if n > 1 then n else 1);
            && 0 <= p <= 100
            && (m == 0 ==> p == 0)
            && (p == 100 <==> n > 0 && m == n)
  {
    if n > 0 {
      if m == n {
        DivSelf(n);
      } else {
        DivBelow(m * 100, n, 100);
      }
      DivAtMost(m * 100, n, 100);
    }
  }

  lemma DivSelf(n: nat)
    requires n > 0
    ensures (n * 100) / n == 100
  {
  }

  lemma DivAtMost(a: nat, n: nat, b: nat)
    requires n > 0 && a <= n * b
    ensures a / n <= b
  {
  }

  lemma DivBelow(a: nat, n: nat, b: nat)
    requires n > 0 && a < n * b
    ensures a / n < b
  {
  }
}
