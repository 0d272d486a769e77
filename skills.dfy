/** Skill detection (`extract_skills`): exact substring hits against a
    skill bank, then a fuzzy phase, then the sorted set of hits. */
module Skills {
  import opened Text
  import opened Options
  import opened Tokenizer
  import opened StringOrder

  /** The built-in skill bank, as listed (with "sql" twice and the
      mixed-case "GitHub"). */
  const DEFAULT_SKILLS: seq<string> := [
    "python", "java", "sql", "javascript", "react", "node.js", "aws", "docker", "kubernetes"
  ] + [
    "machine learning", "nlp", "data analysis", "excel", "project management", "sql", "GitHub",
    "communication", "leadership", "problem solving", "time management", "teamwork", "c++", "c#",
    "go", "ruby", "html", "css", "typescript", "angular", "vue.js", "django", "flask", "spring",
    "hibernate", "rest api", "graphql", "linux", "windows", "azure", "gcp", "ci/cd", "jenkins",
    "terraform", "ansible", "puppet", "salesforce", "marketing", "seo", "content creation",
    "social media management"
  ]

  /** `skills_bank or DEFAULT_SKILLS`: an empty bank means the default one. */
  function EffectiveBank(skillsBank: seq<string>): (bank: seq<string>)
    ensures bank != []
    ensures skillsBank != [] ==> bank == skillsBank
    ensures skillsBank == [] ==> bank == DEFAULT_SKILLS
  {
    if skillsBank == [] then DEFAULT_SKILLS else skillsBank
  }

  /** The tokens the fuzzy phase compares against: `\b[a-zA-Z\+\-\.]{2,}\b`
      over the lowercased text. */
  function SkillTokens(resumeText: string): (tokens: seq<string>)
    ensures forall i | 0 <= i < |tokens| :: IsToken(tokens[i], SkillChar)
  {
    FindAll(Lower(resumeText), 0, SkillChar)
  }

  /** A skill counts as found when it is a substring of the lowercased text
      or the fuzzy matcher accepts it against the text's tokens. */
  predicate Detected(sk: string, resumeText: string, fuzzy: (string, seq<string>) -> bool) {
    Contains(Lower(resumeText), sk) || fuzzy(sk, SkillTokens(resumeText))
  }

  /** `extract_skills`.  `fuzzy(sk, tokens)` stands for "the best fuzzy
      match of `sk` among `tokens` scores above 90"; the matcher itself is
      not modelled.  With no tokens at all the matcher returns nothing and
      unpacking its result raises, so the call raises. */
  method ExtractSkills(resumeText: string, skillsBank: seq<string>,
                       fuzzy: (string, seq<string>) -> bool)
    returns (r: Outcome<seq<string>>)
    ensures r.Raised? <==> SkillTokens(resumeText) == []
    ensures r.Returned? ==> StrictlySorted(r.value)
    ensures r.Returned? ==> forall sk ::
      sk in r.value <==> sk in EffectiveBank(skillsBank) && Detected(sk, resumeText, fuzzy)
  {
    var bank := if skillsBank == [] then DEFAULT_SKILLS else skillsBank;
    var text := Lower(resumeText);
    var found: set<string> := {};
    for i := 0 to |bank|
      invariant forall sk :: sk in found <==> sk in bank[..i] && Contains(text, sk)
    {
      assert bank[..i + 1] == bank[..i] + [bank[i]];
      if Contains(text, bank[i]) {
        found := found + {bank[i]};
      }
    }
    assert bank[..|bank|] == bank;
    var tokens := FindAll(text, 0, SkillChar);
    for i := 0 to |bank|
      invariant tokens != [] || i == 0
      invariant forall sk :: sk in found <==>
        (sk in bank && Contains(text, sk)) || (sk in bank[..i] && fuzzy(sk, tokens))
    {
      if tokens == [] {
        return Raised("TypeError: cannot unpack non-iterable NoneType object");
      }
      assert bank[..i + 1] == bank[..i] + [bank[i]];
      if fuzzy(bank[i], tokens) {
        found := found + {bank[i]};
      }
    }
    var sorted := SortedList(found);
    return Returned(sorted);
  }

  /** Every bank entry that is a substring of the lowercased text is found,
      whatever the fuzzy matcher does. */
  lemma ExactHitsFound(resumeText: string, skillsBank: seq<string>,
                       fuzzy: (string, seq<string>) -> bool, sk: string)
    requires sk in EffectiveBank(skillsBank) && Contains(Lower(resumeText), sk)
    ensures Detected(sk, resumeText, fuzzy)
  {
  }

  /** "GitHub" holds capitals, so it is never a substring of a lowercased
      text: the default bank's entry can only be found by the fuzzy phase. */
  lemma GitHubNeverExact(resumeText: string)
    ensures !Contains(Lower(resumeText), "GitHub")
  {
    var t := Lower(resumeText);
    forall i | 0 <= i <= |t| ensures !OccursAt(t, "GitHub", i) {
      if i + 6 <= |t| {
        assert t[i..i + 6][0] == t[i] == LowerChar(resumeText[i]) != 'G';
      }
    }
  }

  /** The default bank holds 50 entries; its fifteenth is a second "sql"
      and its sixteenth the mixed-case "GitHub". */
  lemma DefaultBankQuirks()
    ensures |DEFAULT_SKILLS| == 50
    ensures DEFAULT_SKILLS[2] == "sql" && DEFAULT_SKILLS[14] == "sql"
    ensures DEFAULT_SKILLS[15] == "GitHub"
  {
  }
}
