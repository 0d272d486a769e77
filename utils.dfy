/** Text helpers shared by the analyzer: the e-mail and phone scanners and
    the generic-phrase scan. */
module Utils {
  import opened Text
  import opened Options
  import opened Lists

  const COMMON_GENERIC_PHRASES: seq<string> := [
    "hardworking", "team player", "results-driven", "detail-oriented",
    "excellent communication skills", "responsible for", "experienced in"
  ]

  /** The entries of `vocabulary` that occur in the lowercased text, in
      vocabulary order. */
  function PhrasesIn(vocabulary: seq<string>, text: string): (r: seq<string>)
    ensures forall p :: p in r <==> p in vocabulary && Contains(Lower(text), p)
    ensures IsSubsequence(r, vocabulary)
  {
    if vocabulary == [] then []
    else
      var rest := PhrasesIn(vocabulary[1..], text);
      SubsequenceSkip(rest, vocabulary[0], vocabulary[1..]);
      assert vocabulary == [vocabulary[0]] + vocabulary[1..];
      if Contains(Lower(text), vocabulary[0]) then [vocabulary[0]] + rest else rest
  }

  /** A vocabulary without repeats gives a result without repeats. */
  lemma {:induction false} PhrasesInNoDuplicates(vocabulary: seq<string>, text: string)
    requires NoDuplicates(vocabulary)
    ensures NoDuplicates(PhrasesIn(vocabulary, text))
  {
    if vocabulary != [] {
      assert NoDuplicates(vocabulary[1..]) by {
        forall i, j | 0 <= i < j < |vocabulary[1..]| ensures vocabulary[1..][i] != vocabulary[1..][j] {
          assert vocabulary[1..][i] == vocabulary[i + 1] && vocabulary[1..][j] == vocabulary[j + 1];
        }
      }
      PhrasesInNoDuplicates(vocabulary[1..], text);
      var rest := PhrasesIn(vocabulary[1..], text);
      assert vocabulary[0] !in vocabulary[1..] by {
        forall i | 0 <= i < |vocabulary[1..]| ensures vocabulary[1..][i] != vocabulary[0] {
          assert vocabulary[1..][i] == vocabulary[i + 1];
        }
      }
      assert vocabulary[0] !in rest;
    }
  }

  /** Case of the letters in the text does not matter. */
  lemma PhrasesInIgnoresCase(vocabulary: seq<string>, text: string)
    ensures PhrasesIn(vocabulary, Upper(text)) == PhrasesIn(vocabulary, text)
  {
    LowerOfUpper(text);
  }

  /** `contains_generic_phrases`: one pass over the vocabulary, appending
      each phrase the lowercased text contains. */
  method ContainsGenericPhrases(text: string) returns (found: seq<string>)
    ensures found == PhrasesIn(COMMON_GENERIC_PHRASES, text)
  {
    found := ScanVocabulary(COMMON_GENERIC_PHRASES, text);
  }

  /** The loop shared by the vocabulary scans: `for p in vocabulary: if p in
      text.lower(): found.append(p)`. */
  method ScanVocabulary(vocabulary: seq<string>, text: string) returns (found: seq<string>)
    ensures found == PhrasesIn(vocabulary, text)
  {
    var ltext := Lower(text);
    found := [];
    for k := 0 to |vocabulary|
      invariant found == PhrasesIn(vocabulary[..k], text)
    {
      PhrasesInSnoc(vocabulary[..k], vocabulary[k], text);
      assert vocabulary[..k + 1] == vocabulary[..k] + [vocabulary[k]];
      if Contains(ltext, vocabulary[k]) {
        found := found + [vocabulary[k]];
      }
    }
    assert vocabulary[..|vocabulary|] == vocabulary;
  }

  lemma {:induction false} PhrasesInSnoc(vocabulary: seq<string>, p: string, text: string)
    ensures PhrasesIn(vocabulary + [p], text)
         == PhrasesIn(vocabulary, text) + (if Contains(Lower(text), p) then [p] else [])
    decreases |vocabulary|
  {
    if vocabulary == [] {
      assert [p][1..] == [];
    } else {
      assert (vocabulary + [p])[1..] == vocabulary[1..] + [p];
      PhrasesInSnoc(vocabulary[1..], p, text);
    }
  }

  /** `[A-Za-z0-9._%+-]`, the local part of an address. */
  predicate LocalChar(c: char) { IsLetter(c) || IsDigit(c) || c in {'.', '_', '%', '+', '-'} }

  /** `[A-Za-z0-9.-]`, the domain of an address. */
  predicate DomainChar(c: char) { IsLetter(c) || IsDigit(c) || c == '.' || c == '-' }

  /** A `.` followed by two letters at `k`. */
  predicate DotTwoLetters(s: string, k: nat) {
    k + 2 < |s| && s[k] == '.' && IsLetter(s[k + 1]) && IsLetter(s[k + 2])
  }

  /** The greatest `k` in `[lo, hi)` where a `.` and two letters start. */
  function LastDot(s: string, lo: nat, hi: nat): (r: Option<nat>)
    ensures r.Some? ==> lo <= r.value < hi && DotTwoLetters(s, r.value)
    ensures r.None? ==> forall k | lo <= k < hi :: !DotTwoLetters(s, k)
    decreases hi
  {
    if hi <= lo then None
    else if DotTwoLetters(s, hi - 1) then Some(hi - 1)
    else LastDot(s, lo, hi - 1)
  }

  /** The end of a match of `[A-Za-z0-9._%+-]+@[A-Za-z0-9.-]+\.[A-Za-z]{2,}`
      tried at `p`.  The local part takes its whole run (the next character
      must be `@`, which no shorter run is followed by); the domain gives
      back characters until a `.` and two letters follow it, and the
      top-level domain then takes every letter. */
  function EmailMatchEnd(s: string, p: nat): (r: Option<nat>)
    requires p <= |s|
    ensures r.Some? ==> p < r.value <= |s|
  {
    var a := RunEnd(s, p, LocalChar);
    if a == p || a == |s| || s[a] != '@' then None
    else
      var d := RunEnd(s, a + 1, DomainChar);
      match LastDot(s, a + 2, d)
        case Some(k) => Some(RunEnd(s, k + 1, IsLetter))
        case None => None
  }

  /** The spans `re.findall` reports for the e-mail pattern, scanning from
      `p`. */
  function EmailSpans(s: string, p: nat): (r: seq<(nat, nat)>)
    requires p <= |s|
    ensures forall i | 0 <= i < |r| :: p <= r[i].0 < r[i].1 <= |s|
    decreases |s| - p
  {
    if p == |s| then []
    else match EmailMatchEnd(s, p)
      case Some(e) => [(p, e)] + EmailSpans(s, e)
      case None => EmailSpans(s, p + 1)
  }

  /** The matched text of each span. */
  function Pieces(s: string, spans: seq<(nat, nat)>): (r: seq<string>)
    requires forall i | 0 <= i < |spans| :: spans[i].0 <= spans[i].1 <= |s|
    ensures |r| == |spans|
    ensures forall i | 0 <= i < |r| :: r[i] == s[spans[i].0..spans[i].1]
  {
    seq(|spans|, i requires 0 <= i < |spans| => s[spans[i].0..spans[i].1])
  }

  /** `extract_emails`. */
  function ExtractEmails(text: string): (r: seq<string>)
    ensures forall i | 0 <= i < |r| :: EmailShaped(r[i]) && Contains(text, r[i])
  {
    EmailSpansShaped(text, 0);
    PiecesContained(text, EmailSpans(text, 0));
    Pieces(text, EmailSpans(text, 0))
  }

  lemma PiecesContained(s: string, spans: seq<(nat, nat)>)
    requires forall i | 0 <= i < |spans| :: spans[i].0 <= spans[i].1 <= |s|
    ensures forall i | 0 <= i < |spans| :: Contains(s, Pieces(s, spans)[i])
  {
    forall i | 0 <= i < |spans| ensures Contains(s, Pieces(s, spans)[i]) {
      assert OccursAt(s, Pieces(s, spans)[i], spans[i].0);
    }
  }

  /** Spans in text order that do not overlap. */
  ghost predicate Ordered(spans: seq<(nat, nat)>) {
    forall i, j | 0 <= i < j < |spans| :: spans[i].1 <= spans[j].0
  }

  /** The shape of an address: exactly one `@`, with a non-empty local part
      before it, ending in `.` and at least two letters. */
  ghost predicate EmailShaped(m: string) {
    exists a, k | 0 < a < k < |m| - 2 ::
      m[a] == '@' && (forall j | 0 <= j < |m| && j != a :: m[j] != '@')
      && m[k] == '.' && forall j | k < j < |m| :: IsLetter(m[j])
  }

  lemma {:induction false} EmailMatchShaped(s: string, p: nat)
    requires p <= |s| && EmailMatchEnd(s, p).Some?
    ensures EmailShaped(s[p..EmailMatchEnd(s, p).value])
  {
    var a := RunEnd(s, p, LocalChar);
    var d := RunEnd(s, a + 1, DomainChar);
    var k := LastDot(s, a + 2, d).value;
    var e := RunEnd(s, k + 1, IsLetter);
    assert e == EmailMatchEnd(s, p).value;
    assert IsLetter(s[k + 1]) && IsLetter(s[k + 2]);
    assert k + 3 <= e;
    var m := s[p..e];
    SingleAt(s, p, a, d, e);
    forall j | k - p < j < |m| ensures IsLetter(m[j]) {
      assert m[j] == s[p + j];
    }
    assert m[a - p] == '@' && m[k - p] == '.';
    assert 0 < a - p < k - p < |m| - 2;
  }

  /** Only the `@` between the local part and the domain is an `@`. */
  lemma SingleAt(s: string, p: nat, a: nat, d: nat, e: nat)
    requires p < a < d <= |s| && e <= |s|
    requires forall j | p <= j < a :: LocalChar(s[j])
    requires forall j | a < j < d :: DomainChar(s[j])
    requires forall j | d <= j < e :: IsLetter(s[j])
    ensures forall j | 0 <= j < e - p && j != a - p :: s[p..e][j] != '@'
  {
    forall j | 0 <= j < e - p && j != a - p ensures s[p..e][j] != '@' {
      assert s[p..e][j] == s[p + j];
    }
  }

  /** Every address found is shaped like one, and the matches come in text
      order without overlapping. */
  lemma {:induction false} EmailSpansShaped(s: string, p: nat)
    requires p <= |s|
    ensures forall i | 0 <= i < |EmailSpans(s, p)| ::
      EmailShaped(s[EmailSpans(s, p)[i].0..EmailSpans(s, p)[i].1])
    ensures Ordered(EmailSpans(s, p))
    decreases |s| - p
  {
    if p < |s| {
      match EmailMatchEnd(s, p)
      case Some(e) =>
        EmailSpansShaped(s, e);
        EmailMatchShaped(s, p);
      case None =>
        EmailSpansShaped(s, p + 1);
    }
  }

  /** `[\d\-\s]`, the body of a phone number. */
  predicate PhoneBodyChar(c: char) { IsDigit(c) || c == '-' || IsSpace(c) }

  /** The greatest digit position in `[lo, hi)`. */
  function LastDigit(s: string, lo: nat, hi: nat): (r: Option<nat>)
    requires hi <= |s|
    ensures r.Some? ==> lo <= r.value < hi && IsDigit(s[r.value])
    decreases hi
  {
    if hi <= lo then None
    else if IsDigit(s[hi - 1]) then Some(hi - 1)
    else LastDigit(s, lo, hi - 1)
  }

  /** The end of a match of `\+?\d[\d\-\s]{7,}\d` tried at `p`: an optional
      `+`, a digit, then the body run gives back characters until a digit
      ends it with at least seven characters between. */
  function PhoneMatchEnd(s: string, p: nat): (r: Option<nat>)
    requires p < |s|
    ensures r.Some? ==> p < r.value <= |s|
  {
    var q := if s[p] == '+' then p + 1 else p;
    if q == |s| || !IsDigit(s[q]) then None
    else
      var b := RunEnd(s, q + 1, PhoneBodyChar);
      match LastDigit(s, q + 8, b)
        case Some(m) => Some(m + 1)
        case None => None
  }

  function PhoneSpans(s: string, p: nat): (r: seq<(nat, nat)>)
    requires p <= |s|
    ensures forall i | 0 <= i < |r| :: p <= r[i].0 < r[i].1 <= |s|
    decreases |s| - p
  {
    if p == |s| then []
    else match PhoneMatchEnd(s, p)
      case Some(e) => [(p, e)] + PhoneSpans(s, e)
      case None => PhoneSpans(s, p + 1)
  }

  /** `extract_phones`. */
  function ExtractPhones(text: string): (r: seq<string>)
    ensures forall i | 0 <= i < |r| :: PhoneShaped(r[i]) && Contains(text, r[i])
  {
    PhoneSpansShaped(text, 0);
    PiecesContained(text, PhoneSpans(text, 0));
    Pieces(text, PhoneSpans(text, 0))
  }

  /** The shape of a phone match: an optional `+`, then a digit, at least
      seven digits, `-` or whitespace, and a final digit. */
  ghost predicate PhoneShaped(m: string) {
    var q := if |m| > 0 && m[0] == '+' then 1 else 0;
    |m| >= q + 9 && IsDigit(m[q]) && IsDigit(m[|m| - 1])
    && forall j | q < j < |m| :: PhoneBodyChar(m[j])
  }

  lemma {:induction false} PhoneMatchShaped(s: string, p: nat)
    requires p < |s| && PhoneMatchEnd(s, p).Some?
    ensures PhoneShaped(s[p..PhoneMatchEnd(s, p).value])
  {
    var q := if s[p] == '+' then p + 1 else p;
    var b := RunEnd(s, q + 1, PhoneBodyChar);
    var e := PhoneMatchEnd(s, p).value;
    var m := s[p..e];
    assert m[0] == s[p] && m[q - p] == s[q] && m[|m| - 1] == s[e - 1];
    forall j | q - p < j < |m| ensures PhoneBodyChar(m[j]) {
      assert m[j] == s[p + j];
    }
  }

  /** Every phone match has the phone shape, and the matches come in text
      order without overlapping. */
  lemma {:induction false} PhoneSpansShaped(s: string, p: nat)
    requires p <= |s|
    ensures forall i | 0 <= i < |PhoneSpans(s, p)| ::
      PhoneShaped(s[PhoneSpans(s, p)[i].0..PhoneSpans(s, p)[i].1])
    ensures Ordered(PhoneSpans(s, p))
    decreases |s| - p
  {
    if p < |s| {
      match PhoneMatchEnd(s, p)
      case Some(e) =>
        PhoneSpansShaped(s, e);
        PhoneMatchShaped(s, p);
      case None =>
        PhoneSpansShaped(s, p + 1);
    }
  }
}
