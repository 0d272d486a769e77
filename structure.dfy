/** Structural and wording checks on the resume text: the three format
    warnings, achievement lines, and the weak-verb and generic-phrase
    scans. */
module Structure {
  import opened Text
  import opened Lists
  import opened Utils

  /** The warnings `format_structure_checks` can give; `Message` is the
      text of each. */
  datatype Warning = LongLinesWarning | FewBulletsWarning | SectionsWarning(missing: seq<string>)

  function Message(w: Warning): string {
    match w
    case LongLinesWarning =>
      "Long lines detected — possible parsing issues or tables/images causing concatenation."
    case FewBulletsWarning =>
      "Few bulleted achievements found. Consider using bullets for readability."
    case SectionsWarning(missing) =>
      "Missing common sections: " + Join(missing, ", ") + "."
  }

  const EXPECTED_SECTIONS: seq<string> := ["experience", "education", "skills", "summary", "projects"]

  /** `sep.join(xs)` */
  function Join(xs: seq<string>, sep: string): string {
    if xs == [] then [] else if |xs| == 1 then xs[0] else xs[0] + sep + Join(xs[1..], sep)
  }

  function SumLengths(lines: seq<string>): nat {
    if lines == [] then 0 else |lines[0]| + SumLengths(lines[1..])
  }

  /** The average line length exceeds 200, compared without dividing. */
  predicate LongLines(resumeText: string) {
    var lines := SplitLines(resumeText);
    SumLengths(lines) > 200 * (if |lines| > 1 then |lines| else 1)
  }

  /** `re.match(r'^\s*[\*\-•]', l)`: the first non-blank character is a
      bullet. */
  predicate IsBulletLine(l: string)
    ensures IsBulletLine(l) <==>
      exists k | 0 <= k < |l| :: (forall j | 0 <= j < k :: IsSpace(l[j])) && l[k] in {'*', '-', '•'}
  {
    var k := RunEnd(l, 0, IsSpace);
    k < |l| && l[k] in {'*', '-', '•'}
  }

  function BulletCount(resumeText: string): nat {
    |Filter(SplitLines(resumeText), IsBulletLine)|
  }

  predicate SectionAbsent(lower: string, section: string) { !Contains(lower, section) }

  /** The expected sections the lowercased text does not contain, in their
      listed order. */
  function MissingSections(resumeText: string): (r: seq<string>)
    ensures IsSubsequence(r, EXPECTED_SECTIONS)
    ensures forall s :: s in r <==> s in EXPECTED_SECTIONS && !Contains(Lower(resumeText), s)
  {
    var lower := Lower(resumeText);
    FilterIsSubsequence(EXPECTED_SECTIONS, s => SectionAbsent(lower, s));
    Filter(EXPECTED_SECTIONS, s => SectionAbsent(lower, s))
  }

  /** The warnings for a text: long lines, then few bullets, then the
      first three missing sections. */
  function FormatWarnings(resumeText: string): (checks: seq<Warning>)
    ensures IsSubsequence(checks, [LongLinesWarning, FewBulletsWarning,
                                   SectionsWarning(Take(MissingSections(resumeText), 3))])
    ensures |checks| <= 3
    ensures LongLinesWarning in checks <==> LongLines(resumeText)
    ensures FewBulletsWarning in checks <==> BulletCount(resumeText) < 3
    ensures SectionsWarning(Take(MissingSections(resumeText), 3)) in checks
            <==> MissingSections(resumeText) != []
  {
    var sections := SectionsWarning(Take(MissingSections(resumeText), 3));
    ThreeWarnings(LongLines(resumeText), BulletCount(resumeText) < 3, MissingSections(resumeText) != [],
                  LongLinesWarning, FewBulletsWarning, sections);
    (if LongLines(resumeText) then [LongLinesWarning] else [])
    + (if BulletCount(resumeText) < 3 then [FewBulletsWarning] else [])
    + (if MissingSections(resumeText) != [] then [sections] else [])
  }

  /** `format_structure_checks`, appending to the list one check at a
      time. */
  method FormatStructureChecks(resumeText: string) returns (checks: seq<Warning>)
    ensures checks == FormatWarnings(resumeText)
    ensures |checks| <= 3
    ensures LongLinesWarning in checks <==> LongLines(resumeText)
    ensures FewBulletsWarning in checks <==> BulletCount(resumeText) < 3
  {
    checks := [];
    var lines := SplitLines(resumeText);
    var total := SumLengths(lines);
    if total > 200 * (if |lines| > 1 then |lines| else 1) {
      checks := checks + [LongLinesWarning];
    }
    assert checks == if LongLines(resumeText) then [LongLinesWarning] else [];
    var bullets := |Filter(lines, IsBulletLine)|;
    if bullets < 3 {
      checks := checks + [FewBulletsWarning];
    }
    assert checks == (if LongLines(resumeText) then [LongLinesWarning] else [])
                   + (if BulletCount(resumeText) < 3 then [FewBulletsWarning] else []);
    var missing := MissingSections(resumeText);
    if missing != [] {
      checks := checks + [SectionsWarning(Take(missing, 3))];
    }
  }

  /** Keeping some of three distinct items, in order. */
  lemma ThreeWarnings(b1: bool, b2: bool, b3: bool, x: Warning, y: Warning, z: Warning)
    requires x != y && x != z && y != z
    ensures var r := (if b1 then [x] else []) + (if b2 then [y] else []) + (if b3 then [z] else []);
      IsSubsequence(r, [x, y, z]) && |r| <= 3
      && (x in r <==> b1) && (y in r <==> b2) && (z in r <==> b3)
  {
    KeptInOrder(b1, b2, b3, x, y, z);
  }

  lemma KeptInOrder(b1: bool, b2: bool, b3: bool, x: Warning, y: Warning, z: Warning)
    ensures IsSubsequence((if b1 then [x] else []) + (if b2 then [y] else []) + (if b3 then [z] else []), [x, y, z])
  {
    var a := if b1 then [x] else [];
    var b := if b2 then [y] else [];
    var c := if b3 then [z] else [];
    assert IsSubsequence<Warning>([], []);
    OptionalHead<Warning>(b3, z, [], []);
    assert c + [] == c && [z] + [] == [z];
    OptionalHead(b2, y, c, [z]);
    OptionalHead(b1, x, b + c, [y] + [z]);
    assert a + b + c == a + (b + c) && [x] + ([y] + [z]) == [x, y, z];
  }

  /** The sections warning names the first (at most three) missing
      sections in the order experience, education, skills, summary,
      projects; when it names fewer than three, it names them all. */
  lemma NamedSections(resumeText: string)
    ensures |Take(MissingSections(resumeText), 3)| <= 3
    ensures IsSubsequence(Take(MissingSections(resumeText), 3), EXPECTED_SECTIONS)
    ensures forall s | s in Take(MissingSections(resumeText), 3) ::
      s in EXPECTED_SECTIONS && !Contains(Lower(resumeText), s)
    ensures |Take(MissingSections(resumeText), 3)| < 3 ==>
      forall s | s in EXPECTED_SECTIONS && !Contains(Lower(resumeText), s) ::
        s in Take(MissingSections(resumeText), 3)
  {
    var m := MissingSections(resumeText);
    if 3 < |m| {
      PrefixIsSubsequence(m, 3);
      SubsequenceTransitive(m[..3], m, EXPECTED_SECTIONS);
      forall s | s in m[..3] ensures s in m { }
    }
  }

  /** `\d+%` matches at `i`: some digit run ends right before a `%`. */
  predicate PercentAt(l: string, i: nat) {
    i + 1 < |l| && IsDigit(l[i]) && l[i + 1] == '%'
  }

  /** `\$\d+` matches at `i`. */
  predicate DollarAt(l: string, i: nat) {
    i + 1 < |l| && l[i] == '$' && IsDigit(l[i + 1])
  }

  /** `\d+\s+%` matches with its last digit at `i`. */
  predicate SpacedPercentAt(l: string, i: nat) {
    i < |l| && IsDigit(l[i])
    && var e := RunEnd(l, i + 1, IsSpace); e > i + 1 && e < |l| && l[e] == '%'
  }

  /** `\bw\b` matches at `i`. */
  predicate WordAt(l: string, w: string, i: nat) {
    OccursAt(l, w, i) && BoundaryAt(l, i) && BoundaryAt(l, i + |w|)
  }

  /** The achievement pattern of `detect_achievements` occurs somewhere in
      the (lowercased) line. */
  predicate AchievementPattern(l: string) {
    exists i | 0 <= i < |l| ::
      PercentAt(l, i) || DollarAt(l, i) || SpacedPercentAt(l, i)
      || WordAt(l, "increased", i) || WordAt(l, "reduced", i)
      || WordAt(l, "saved", i) || WordAt(l, "grew", i)
  }

  predicate IsAchievementLine(l: string) { AchievementPattern(Lower(l)) }

  /** Whitespace may separate a number from its `%`. */
  lemma SpacedPercentExample()
    ensures AchievementPattern("cut costs 10 %")
  {
    var l := "cut costs 10 %";
    assert RunEnd(l, 12, IsSpace) == 13;
    assert SpacedPercentAt(l, 11);
  }

  /** A dollar amount matches. */
  lemma DollarExample()
    ensures AchievementPattern("saved $5k")
  {
    assert DollarAt("saved $5k", 6);
  }

  /** The verbs must stand as whole words: "regrew" does not match, though
      it contains "grew". */
  lemma {:induction false} WholeWordsOnly()
    ensures !AchievementPattern("regrew")
  {
    var l := "regrew";
    forall i | 0 <= i < |l|
      ensures !WordAt(l, "grew", i) && !WordAt(l, "saved", i)
      ensures !WordAt(l, "reduced", i) && !WordAt(l, "increased", i)
      ensures !PercentAt(l, i) && !DollarAt(l, i) && !SpacedPercentAt(l, i)
    {
      assert !IsDigit(l[i]) && l[i] != '$';
      if i == 2 {
        assert !BoundaryAt(l, 2);
      } else if i + 4 <= |l| {
        assert l[i..i + 4] != "grew";
      }
      if i + 5 <= |l| {
        assert l[i] != 's';
      }
    }
  }

  /** Every matching line, stripped, in document order (before the cap). */
  function AchievementLines(lines: seq<string>): seq<string> {
    if lines == [] then []
    else
      var last := lines[|lines| - 1];
      AchievementLines(lines[..|lines| - 1]) + (if IsAchievementLine(last) then [Strip(last)] else [])
  }

  function StripAll(lines: seq<string>): (r: seq<string>)
    ensures |r| == |lines| && forall i | 0 <= i < |r| :: r[i] == Strip(lines[i])
  {
    Map(lines, Strip)
  }

  /** `detect_achievements`: the loop collects the stripped matching lines;
      the first 20 are kept. */
  method DetectAchievements(resumeText: string) returns (r: seq<string>)
    ensures r == Take(StripAll(Filter(SplitLines(resumeText), IsAchievementLine)), 20)
    ensures |r| <= 20
  {
    var lines := SplitLines(resumeText);
    var achievements: seq<string> := [];
    for i := 0 to |lines|
      invariant achievements == AchievementLines(lines[..i])
    {
      assert lines[..i + 1][..i] == lines[..i];
      if AchievementPattern(Lower(lines[i])) {
        achievements := achievements + [Strip(lines[i])];
      }
    }
    assert lines[..|lines|] == lines;
    AchievementLinesAreStrippedMatches(lines);
    r := Take(achievements, 20);
  }

  /** The collected lines are exactly the matching lines, each stripped,
      in their order in the text. */
  lemma {:induction false} AchievementLinesAreStrippedMatches(lines: seq<string>)
    ensures AchievementLines(lines) == StripAll(Filter(lines, IsAchievementLine))
  {
    if lines != [] {
      var init := lines[..|lines| - 1];
      var last := lines[|lines| - 1];
      AchievementLinesAreStrippedMatches(init);
      assert lines == init + [last];
      var kept := if IsAchievementLine(last) then [Strip(last)] else [];
      assert AchievementLines(lines) == AchievementLines(init) + kept;
      MapFilterSnoc(init, last, IsAchievementLine, Strip);
      assert StripAll(Filter(init, IsAchievementLine)) == Map(Filter(init, IsAchievementLine), Strip);
      assert StripAll(Filter(lines, IsAchievementLine)) == Map(Filter(lines, IsAchievementLine), Strip);
    }
  }

  /** Each achievement is a stripped line of the text that matches the
      pattern, and at most 20 are reported. */
  lemma AchievementsFromMatchingLines(resumeText: string, a: string)
    requires a in Take(StripAll(Filter(SplitLines(resumeText), IsAchievementLine)), 20)
    ensures exists l | l in SplitLines(resumeText) :: IsAchievementLine(l) && a == Strip(l)
  {
    var f := Filter(SplitLines(resumeText), IsAchievementLine);
    var k :| 0 <= k < |Take(StripAll(f), 20)| && Take(StripAll(f), 20)[k] == a;
    assert a == Strip(f[k]);
    assert f[k] in SplitLines(resumeText) && IsAchievementLine(f[k]);
  }

  const WEAK_VERBS: seq<string> := ["helped", "worked on", "responsible for", "assisted", "involved in"]

  /** `detect_action_verb_weakness`. */
  method DetectActionVerbWeakness(resumeText: string) returns (found: seq<string>)
    ensures found == PhrasesIn(WEAK_VERBS, resumeText)
    ensures NoDuplicates(found)
  {
    found := ScanVocabulary(WEAK_VERBS, resumeText);
    PhrasesInNoDuplicates(WEAK_VERBS, resumeText);
  }

  /** `generic_phrase_detector`, which hands over to the shared helper. */
  method GenericPhraseDetector(resumeText: string) returns (found: seq<string>)
    ensures found == PhrasesIn(COMMON_GENERIC_PHRASES, resumeText)
    ensures NoDuplicates(found)
  {
    found := ContainsGenericPhrases(resumeText);
    PhrasesInNoDuplicates(COMMON_GENERIC_PHRASES, resumeText);
  }
}
