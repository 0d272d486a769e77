/** Degree and institution detection (`detect_education`). */
module Education {
  import opened Text
  import opened Options
  import opened Lists

  const COMMON_DEGREES: seq<string> := ["bachelor", "master", "phd", "b.sc", "m.sc", "b.s.", "m.s.", "mba"]

  /** The alternatives of `(university|college|institute|school|academy)`,
      tried in this order. */
  const INSTITUTION_WORDS: seq<string> := ["university", "college", "institute", "school", "academy"]

  datatype EducationInfo = EducationInfo(degrees: set<string>, institutions: seq<string>)

  /** `[\s,\w\-]`: what may trail an institution word. */
  predicate TrailChar(c: char) { IsSpace(c) || c == ',' || IsWordChar(c) || c == '-' }

  /** The first alternative among `words` that matches at `p`, ignoring
      case. */
  function IndicatorAt(s: string, p: nat, words: seq<string>): (r: Option<string>)
    ensures r.Some? ==> r.value in words && p + |r.value| <= |s|
    ensures r.Some? ==> Lower(s[p..p + |r.value|]) == r.value
  {
    if words == [] then None
    else if p + |words[0]| <= |s| && Lower(s[p..p + |words[0]|]) == words[0] then Some(words[0])
    else IndicatorAt(s, p, words[1..])
  }

  /** `re.findall(r'(university|...|academy)[\s,\w\-]{0,60}', s, flags=re.I)`
      from `p`: the group holds only the indicator word, in the text's own
      case; the trailing characters are consumed but not returned. */
  function FindInstitutions(s: string, p: nat): (r: seq<string>)
    requires p <= |s|
    ensures forall i | 0 <= i < |r| :: Lower(r[i]) in INSTITUTION_WORDS && Contains(s, r[i])
    decreases |s| - p
  {
    if p == |s| then []
    else match IndicatorAt(s, p, INSTITUTION_WORDS)
      case Some(w) =>
        var e := p + |w|;
        var t := RunEnd(s, e, TrailChar);
        assert OccursAt(s, s[p..e], p);
        [s[p..e]] + FindInstitutions(s, if t <= e + 60 then t else e + 60)
      case None => FindInstitutions(s, p + 1)
  }

  /** `detect_education`.  The degrees come back through a set, so their
      order carries no meaning and they are a set here. */
  method DetectEducation(resumeText: string) returns (e: EducationInfo)
    ensures e.degrees == set d | d in COMMON_DEGREES && Contains(Lower(resumeText), d)
    ensures e.institutions == Take(FindInstitutions(resumeText, 0), 5)
  {
    var lower := Lower(resumeText);
    var found: seq<string> := [];
    for i := 0 to |COMMON_DEGREES|
      invariant forall d :: d in found <==> d in COMMON_DEGREES[..i] && Contains(lower, d)
    {
      assert COMMON_DEGREES[..i + 1] == COMMON_DEGREES[..i] + [COMMON_DEGREES[i]];
      if Contains(lower, COMMON_DEGREES[i]) {
        found := found + [COMMON_DEGREES[i]];
      }
    }
    assert COMMON_DEGREES[..|COMMON_DEGREES|] == COMMON_DEGREES;
    var univ := FindInstitutions(resumeText, 0);
    var degrees := set d | d in found;
    e := EducationInfo(degrees, Take(univ, 5));
  }

  /** At most five institutions, each an indicator word in the text's own
      case. */
  lemma InstitutionsBounded(resumeText: string)
    ensures |Take(FindInstitutions(resumeText, 0), 5)| <= 5
    ensures forall w | w in Take(FindInstitutions(resumeText, 0), 5) ::
      Lower(w) in INSTITUTION_WORDS && Contains(resumeText, w)
  {
    var r := FindInstitutions(resumeText, 0);
    forall w | w in Take(r, 5) ensures Lower(w) in INSTITUTION_WORDS && Contains(resumeText, w) {
      var i :| 0 <= i < |Take(r, 5)| && Take(r, 5)[i] == w;
      assert w == r[i];
    }
  }

  /** A text where no indicator word occurs, in any case, names no
      institution. */
  lemma {:induction false} NoIndicatorNoInstitution(s: string, p: nat)
    requires p <= |s|
    requires forall w | w in INSTITUTION_WORDS :: !Contains(Lower(s), w)
    ensures FindInstitutions(s, p) == []
    decreases |s| - p
  {
    if p < |s| {
      var m := IndicatorAt(s, p, INSTITUTION_WORDS);
      if m.Some? {
        var w := m.value;
        forall k | 0 <= k < |w| ensures Lower(s)[p + k] == w[k] {
          assert Lower(s)[p + k] == LowerChar(s[p + k]) == Lower(s[p..p + |w|])[k];
        }
        assert Lower(s)[p..p + |w|] == w;
        assert OccursAt(Lower(s), w, p);
        assert false;
      }
      NoIndicatorNoInstitution(s, p + 1);
    }
  }

  /** The trailing `[\s,\w\-]{0,60}` swallows a second indicator word
      right after the first, so "University, College" names only the
      university. */
  lemma {:induction false} TrailSwallowsNextWord()
    ensures FindInstitutions("University, College", 0) == ["University"]
  {
    var s := "University, College";
    assert Lower(s[0..10]) == "university";
    assert IndicatorAt(s, 0, INSTITUTION_WORDS) == Some("university");
    assert forall k | 10 <= k < |s| :: TrailChar(s[k]);
    assert RunEnd(s, 10, TrailChar) == |s|;
    assert s[0..10] == "University";
  }
}
