/** `re.findall` for the word patterns `\b[a-zA-Z\+#\.\-]{2,}\b`
    (src/ats_analyzer.py lines 21 and 29) and `\b[a-zA-Z\+\-\.]{2,}\b`
    (line 42), as a left-to-right scanner with the backtracking of Python's
    regular-expression engine made explicit. */
module Tokenizer {
  import opened Text
  import opened Options

  /** `[a-zA-Z\+#\.\-]` */
  predicate KeywordChar(c: char) { IsLetter(c) || c in {'+', '#', '.', '-'} }

  /** `[a-zA-Z\+\-\.]`: the same class without `#`. */
  predicate SkillChar(c: char) { IsLetter(c) || c in {'+', '-', '.'} }

  /** What `findall` yields: two or more characters of the class. */
  predicate IsToken(t: string, cls: char -> bool) {
    |t| >= 2 && forall i | 0 <= i < |t| :: cls(t[i])
  }

  /** The largest `e` in `[lo, hi]` at which `\b` holds. */
  function LastBoundary(s: string, lo: nat, hi: nat): (r: Option<nat>)
    requires hi <= |s|
    ensures r.Some? ==> lo <= r.value <= hi && BoundaryAt(s, r.value)
    ensures r.Some? ==> forall e | r.value < e <= hi :: !BoundaryAt(s, e)
    ensures r.None? ==> forall e | lo <= e <= hi :: !BoundaryAt(s, e)
    decreases hi
  {
    if hi < lo then None
    else if BoundaryAt(s, hi) then Some(hi)
    else if hi == lo then None
    else LastBoundary(s, lo, hi - 1)
  }

  /** Where a match of `\b[cls]{2,}\b` tried at `p` ends: the greedy
      repetition gives back characters until the closing `\b` holds. */
  function MatchEnd(s: string, p: nat, cls: char -> bool): (r: Option<nat>)
    requires p <= |s|
    ensures r.Some? ==> p + 2 <= r.value <= |s| && IsToken(s[p..r.value], cls)
    ensures r.Some? ==> BoundaryAt(s, p) && BoundaryAt(s, r.value)
  {
    if !BoundaryAt(s, p) then None
    else LastBoundary(s, p + 2, RunEnd(s, p, cls))
  }

  /** `re.findall(pattern, s[p:])` with matching resumed after each match. */
  function FindAll(s: string, p: nat, cls: char -> bool): (tokens: seq<string>)
    requires p <= |s|
    ensures forall i | 0 <= i < |tokens| :: IsToken(tokens[i], cls) && Contains(s, tokens[i])
    decreases |s| - p
  {
    if p == |s| then []
    else match MatchEnd(s, p, cls)
      case Some(e) =>
        assert OccursAt(s, s[p..e], p);
        [s[p..e]] + FindAll(s, e, cls)
      case None => FindAll(s, p + 1, cls)
  }

  /** The tokens of the keyword pattern in the lower-cased text. */
  function KeywordTokens(text: string): (tokens: seq<string>)
    ensures forall i | 0 <= i < |tokens| :: IsToken(tokens[i], KeywordChar)
    ensures forall i | 0 <= i < |tokens| :: Contains(Lower(text), tokens[i])
  {
    FindAll(Lower(text), 0, KeywordChar)
  }

  /** The keyword class admits no digit, so no token holds one. */
  lemma TokenHasNoDigit(t: string)
    requires IsToken(t, KeywordChar)
    ensures forall i | 0 <= i < |t| :: !IsDigit(t[i])
  {
    forall i | 0 <= i < |t| ensures !IsDigit(t[i]) {
      assert KeywordChar(t[i]);
    }
  }

  /** The closing `\b` needs a word character on one side: "c++" at the
      end of the text or before a space is not a token, and neither is any
      part of it. */
  lemma {:induction false} CppIsNoToken()
    ensures KeywordTokens("c++") == []
    ensures KeywordTokens("c++ go") == ["go"]
  {
    CppPrefixSkipped("c++");
    CppPrefixSkipped("c++ go");
    var s := "c++ go";
    assert RunEnd(s, 4, KeywordChar) == 6 by {
      assert RunEnd(s, 6, KeywordChar) == 6;
      assert RunEnd(s, 5, KeywordChar) == 6;
    }
    assert MatchEnd(s, 4, KeywordChar) == Some(6);
    assert FindAll(s, 6, KeywordChar) == [];
    assert FindAll(s, 4, KeywordChar) == [s[4..6]] + FindAll(s, 6, KeywordChar);
    assert s[4..6] == "go";
    assert Lower(s) == s;
    assert Lower("c++") == "c++";
  }

  /** No match starts inside a leading "c++" that no letter follows. */
  lemma CppPrefixSkipped(s: string)
    requires |s| >= 3 && s[..3] == "c++" && (|s| == 3 || s[3] == ' ')
    ensures FindAll(s, 0, KeywordChar) == FindAll(s, if |s| == 3 then 3 else 4, KeywordChar)
  {
    assert s[0] == 'c' && s[1] == '+' && s[2] == '+';
    assert RunEnd(s, 0, KeywordChar) == 3 by {
      assert RunEnd(s, 3, KeywordChar) == 3;
      assert RunEnd(s, 2, KeywordChar) == 3;
      assert RunEnd(s, 1, KeywordChar) == 3;
    }
    assert !BoundaryAt(s, 3) && !BoundaryAt(s, 2);
    assert MatchEnd(s, 0, KeywordChar) == None;
    assert MatchEnd(s, 1, KeywordChar) == None;
    assert MatchEnd(s, 2, KeywordChar) == None;
    assert FindAll(s, 0, KeywordChar) == FindAll(s, 1, KeywordChar);
    assert FindAll(s, 1, KeywordChar) == FindAll(s, 2, KeywordChar);
    assert FindAll(s, 2, KeywordChar) == FindAll(s, 3, KeywordChar);
    if |s| > 3 {
      assert MatchEnd(s, 3, KeywordChar) == None;
      assert FindAll(s, 3, KeywordChar) == FindAll(s, 4, KeywordChar);
    }
  }
}
