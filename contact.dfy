/** The contact record (`contact_info_checks`): addresses, phone numbers
    and the first LinkedIn profile link. */
module Contact {
  import opened Text
  import opened Options
  import opened Utils

  datatype ContactInfo = ContactInfo(emails: seq<string>, phones: seq<string>, linkedin: Option<string>)

  /** `[A-Za-z0-9\-_\/]`, a character of a profile path. */
  predicate PathChar(c: char) { IsLetter(c) || IsDigit(c) || c == '-' || c == '_' || c == '/' }

  const LINKEDIN_PREFIX: string := "linkedin.com/"

  /** `linkedin\.com\/[A-Za-z0-9\-_\/]+` matches at `p`, ignoring case. */
  predicate LinkedInAt(s: string, p: nat) {
    p + 13 < |s| && Lower(s[p..p + 13]) == LINKEDIN_PREFIX && PathChar(s[p + 13])
  }

  /** `re.search` for that pattern from `p`: the position of the leftmost
      match. */
  function FindLinkedIn(s: string, p: nat): (r: Option<nat>)
    requires p <= |s|
    ensures r.Some? ==>
      && p <= r.value < |s| && LinkedInAt(s, r.value)
      && forall q | p <= q < r.value :: !LinkedInAt(s, q)
    ensures r.None? <==> forall q | p <= q < |s| :: !LinkedInAt(s, q)
    decreases |s| - p
  {
    if p == |s| then None
    else if LinkedInAt(s, p) then Some(p)
    else FindLinkedIn(s, p + 1)
  }

  /** The text of the match at `q`: the path takes every path character
      that follows the prefix. */
  function LinkedInMatch(s: string, q: nat): (v: string)
    requires LinkedInAt(s, q)
    ensures |v| > 13 && Lower(v[..13]) == LINKEDIN_PREFIX && Contains(s, v)
    ensures OccursAt(s, v, q)
    ensures forall k | 13 <= k < |v| :: PathChar(v[k])
    ensures q + |v| <= |s| && (q + |v| == |s| || !PathChar(s[q + |v|]))
  {
    var v := s[q..RunEnd(s, q + 13, PathChar)];
    assert v[..13] == s[q..q + 13];
    assert OccursAt(s, v, q);
    assert forall k | 13 <= k < |v| :: v[k] == s[q + k];
    v
  }

  /** `v` is the pattern's match at `q`, the leftmost position where the
      pattern matches, with its path taken as far as path characters go. */
  predicate FirstLinkedInAt(s: string, v: string, q: nat) {
    && LinkedInAt(s, q)
    && (forall p | 0 <= p < q :: !LinkedInAt(s, p))
    && OccursAt(s, v, q) && |v| > 13
    && (forall k | 13 <= k < |v| :: PathChar(v[k]))
    && (q + |v| == |s| || !PathChar(s[q + |v|]))
  }

  /** `v` is what `re.search` returns. */
  ghost predicate FirstLinkedIn(s: string, v: string) {
    exists q: nat :: FirstLinkedInAt(s, v, q)
  }

  /** There is only one first, greedy match. */
  lemma FirstLinkedInUnique(s: string, v: string, w: string)
    requires FirstLinkedIn(s, v) && FirstLinkedIn(s, w)
    ensures v == w
  {
    var q: nat :| FirstLinkedInAt(s, v, q);
    var r: nat :| FirstLinkedInAt(s, w, r);
    LeftmostUnique(s, q, r);
    GreedyRunUnique(s, q, v, w);
  }

  /** Two positions that are each the leftmost match are the same. */
  lemma LeftmostUnique(s: string, q: nat, r: nat)
    requires LinkedInAt(s, q) && forall p | 0 <= p < q :: !LinkedInAt(s, p)
    requires LinkedInAt(s, r) && forall p | 0 <= p < r :: !LinkedInAt(s, p)
    ensures q == r
  {
  }

  /** Two path runs from the same place, each stopped only by the end of
      the text or by a character outside the path, are the same run. */
  lemma GreedyRunUnique(s: string, q: nat, v: string, w: string)
    requires OccursAt(s, v, q) && OccursAt(s, w, q) && |v| > 13 && |w| > 13
    requires forall k | 13 <= k < |v| :: PathChar(v[k])
    requires forall k | 13 <= k < |w| :: PathChar(w[k])
    requires q + |v| == |s| || !PathChar(s[q + |v|])
    requires q + |w| == |s| || !PathChar(s[q + |w|])
    ensures v == w
  {
    forall k | q + 13 <= k < q + |v| ensures PathChar(s[k]) {
      assert s[k] == v[k - q];
    }
    forall k | q + 13 <= k < q + |w| ensures PathChar(s[k]) {
      assert s[k] == w[k - q];
    }
    assert |v| == |w|;
    assert v == s[q..q + |v|] == w;
  }

  /** `contact_info_checks`. */
  function ContactInfoChecks(resumeText: string): (c: ContactInfo)
    ensures forall i | 0 <= i < |c.emails| :: EmailShaped(c.emails[i])
    ensures forall i | 0 <= i < |c.phones| :: PhoneShaped(c.phones[i])
    ensures c.linkedin.Some? ==>
      && |c.linkedin.value| > 13
      && Lower(c.linkedin.value[..13]) == LINKEDIN_PREFIX && Contains(resumeText, c.linkedin.value)
      && forall k | 13 <= k < |c.linkedin.value| :: PathChar(c.linkedin.value[k])
    ensures c.linkedin.Some? ==> FirstLinkedIn(resumeText, c.linkedin.value)
    ensures c.linkedin.None? <==> forall q | 0 <= q < |resumeText| :: !LinkedInAt(resumeText, q)
  {
    var linkedin := match FindLinkedIn(resumeText, 0)
      case Some(q) =>
        assert FirstLinkedInAt(resumeText, LinkedInMatch(resumeText, q), q);
        Some(LinkedInMatch(resumeText, q))
      case None => None;
    ContactInfo(ExtractEmails(resumeText), ExtractPhones(resumeText), linkedin)
  }
}
