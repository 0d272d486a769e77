/** The `/analyze` request: validation of the upload, one record per usable
    resume, the stable ranking by relevance, and the `top_n` / `top2`
    selection. */
module App {
  import opened Text
  import opened Options
  import opened Lists
  import opened StableSort
  import opened StringOrder
  import opened Keywords
  import opened Skills
  import opened Experience
  import opened Education
  import opened Structure
  import opened Contact
  import opened Utils
  import opened Relevance

  const MAX_RESUMES: nat := 20
  const ALLOWED_EXTENSIONS: set<string> := {"pdf"}

  /** `filename.rsplit(".", 1)[1]`: the text after the last `.`. */
  function AfterLastDot(f: string): (r: string)
    requires '.' in f
    ensures |r| < |f| && f[|f| - |r| - 1] == '.' && r == f[|f| - |r|..]
    ensures '.' !in r
    decreases |f|
  {
    if f[|f| - 1] == '.' then []
    else
      assert '.' in f[..|f| - 1] by {
        var k :| 0 <= k < |f| && f[k] == '.';
        assert f[..|f| - 1][k] == '.';
      }
      AfterLastDot(f[..|f| - 1]) + [f[|f| - 1]]
  }

  /** `allowed_file`: the name ends in `.pdf`, in any case. */
  predicate AllowedFile(filename: string)
    ensures AllowedFile(filename) <==>
      |filename| >= 4 && filename[|filename| - 4] == '.' && Lower(filename[|filename| - 3..]) == "pdf"
  {
    PdfExtension(filename);
    '.' in filename && Lower(AfterLastDot(filename)) in ALLOWED_EXTENSIONS
  }

  /** The extension after the last dot is "pdf", in any case, exactly when
      the name ends in `.pdf`. */
  lemma PdfExtension(f: string)
    ensures ('.' in f && Lower(AfterLastDot(f)) == "pdf")
            <==> |f| >= 4 && f[|f| - 4] == '.' && Lower(f[|f| - 3..]) == "pdf"
  {
    if '.' in f && Lower(AfterLastDot(f)) == "pdf" {
      var r := AfterLastDot(f);
      assert Lower(r) == "pdf";
      assert |r| == 3;
    }
    if |f| >= 4 && f[|f| - 4] == '.' && Lower(f[|f| - 3..]) == "pdf" {
      var t := f[|f| - 3..];
      assert f[|f| - 4] in f;
      assert '.' !in t by {
        forall k | 0 <= k < 3 ensures t[k] != '.' {
          assert Lower(t)[k] == LowerChar(t[k]);
        }
      }
      AfterLastDotOfSuffix(f, |f| - 4);
    }
  }

  /** When a `.` is followed only by non-dots, the text after the last dot
      is what follows it. */
  lemma {:induction false} AfterLastDotOfSuffix(f: string, k: nat)
    requires k < |f| && f[k] == '.' && '.' !in f[k + 1..]
    ensures '.' in f && AfterLastDot(f) == f[k + 1..]
    decreases |f|
  {
    assert f[k] in f;
    if k < |f| - 1 {
      assert f[|f| - 1] in f[k + 1..];
      var g := f[..|f| - 1];
      assert g[k + 1..] == f[k + 1..|f| - 1];
      var tail := g[k + 1..];
      assert '.' !in tail by {
        forall j | 0 <= j < |tail| ensures tail[j] != '.' {
          assert tail[j] == f[k + 1..][j];
        }
      }
      AfterLastDotOfSuffix(g, k);
      assert f[k + 1..] == g[k + 1..] + [f[|f| - 1]];
    }
  }

  /** An uploaded file: its name (empty when the form field is empty) and
      the text extracted from it. */
  datatype Upload = Upload(filename: string, text: string)

  /** Why a request is sent back to the form. */
  datatype Rejection = NoResumes | TooManyResumes | NoJobFile | JobNotPdf | NoValidResumes

  datatype ResumeRecord = ResumeRecord(
    origName: string,
    kwScore: int, matchedKws: seq<string>, missingKws: seq<string>,
    skillsFound: seq<string>, yrs: int, edu: EducationInfo,
    formatChecks: seq<Warning>, contact: ContactInfo, achievements: seq<string>,
    genericPhrases: seq<string>, weakVerbs: seq<string>, relScore: int)

  datatype Response =
    | Rejected(reason: Rejection)
    | Crashed(error: string)
    | Ranked(topN: int, selected: seq<ResumeRecord>, top2: seq<ResumeRecord>, allResults: seq<ResumeRecord>)

  function RelScore(r: ResumeRecord): int { r.relScore }

  /** A resume entry that the loop does not skip. */
  predicate Usable(u: Upload) { u.filename != "" && AllowedFile(u.filename) }

  /** The job file is present and allowed, and the number of resumes is in
      range. */
  predicate ValidRequest(resumes: seq<Upload>, job: Option<Upload>) {
    0 < |resumes| <= MAX_RESUMES && job.Some? && job.value.filename != "" && AllowedFile(job.value.filename)
  }

  /** What a record holds: every field is the analyzer's result on the
      resume's own text, and the relevance score is computed from the
      record's own fields. */
  ghost predicate RecordOf(rec: ResumeRecord, u: Upload, jobText: string, fuzzy: (string, seq<string>) -> bool) {
    rec.origName == u.filename
    && KeywordFieldsOf(rec, u.text, jobText)
    && SkillsFieldOf(rec, u.text, fuzzy)
    && ProfileFieldsOf(rec, u.text)
    && rec.relScore == RelevanceScore(rec.kwScore, |rec.skillsFound|, |rec.achievements|, rec.yrs)
  }

  /** `RecordOf` for a fixed job text and fuzzy matcher. */
  ghost function RecordFor(jobText: string, fuzzy: (string, seq<string>) -> bool): (ResumeRecord, Upload) -> bool {
    (rec, u) => RecordOf(rec, u, jobText, fuzzy)
  }

  /** One record per usable upload, in upload order. */
  ghost predicate RecordsOf(records: seq<ResumeRecord>, uploads: seq<Upload>, jobText: string,
                            fuzzy: (string, seq<string>) -> bool) {
    Pairwise(records, uploads, RecordFor(jobText, fuzzy))
  }

  ghost predicate KeywordFieldsOf(rec: ResumeRecord, text: string, jobText: string) {
    KeywordMatch(rec.kwScore, rec.matchedKws, rec.missingKws)
    == KeywordMatchScore(text, ExtractKeywordsFromJob(jobText, 40))
  }

  ghost predicate SkillsFieldOf(rec: ResumeRecord, text: string, fuzzy: (string, seq<string>) -> bool) {
    StrictlySorted(rec.skillsFound)
    && forall sk :: sk in rec.skillsFound <==> sk in DEFAULT_SKILLS && Detected(sk, text, fuzzy)
  }

  ghost predicate ProfileFieldsOf(rec: ResumeRecord, text: string) {
    rec.yrs == ExperienceYears(text)
    && rec.edu.degrees == (set d | d in COMMON_DEGREES && Contains(Lower(text), d))
    && rec.edu.institutions == Take(FindInstitutions(text, 0), 5)
    && rec.formatChecks == FormatWarnings(text)
    && rec.contact == ContactInfoChecks(text)
    && rec.achievements == Take(StripAll(Filter(SplitLines(text), IsAchievementLine)), 20)
    && rec.genericPhrases == PhrasesIn(COMMON_GENERIC_PHRASES, text)
    && rec.weakVerbs == PhrasesIn(WEAK_VERBS, text)
  }

  /** The body of the loop for one usable resume: every analyzer runs on
      its text; the skill scan raises when the text has no tokens. */
  method BuildRecord(u: Upload, jobText: string, fuzzy: (string, seq<string>) -> bool)
    returns (r: Outcome<ResumeRecord>)
    ensures r.Raised? <==> SkillTokens(u.text) == []
    ensures r.Returned? ==> RecordOf(r.value, u, jobText, fuzzy)
  {
    var jobKws := ExtractKeywordsFromJob(jobText, 40);
    var km := KeywordMatchScore(u.text, jobKws);
    var skills := ExtractSkills(u.text, [], fuzzy);
    if skills.Raised? {
      return Raised(skills.exception);
    }
    var skillsFound := skills.value;
    var yrs := YearsOfExperience(u.text);
    var edu := DetectEducation(u.text);
    var formatChecks := FormatStructureChecks(u.text);
    var contact := ContactInfoChecks(u.text);
    var achievements := DetectAchievements(u.text);
    var genericPhrases := GenericPhraseDetector(u.text);
    var weakVerbs := DetectActionVerbWeakness(u.text);
    var relScore := RelevanceScore(km.score, |skillsFound|, |achievements|, yrs);
    return Returned(ResumeRecord(u.filename, km.score, km.matched, km.missing, skillsFound, yrs, edu,
                                 formatChecks, contact, achievements, genericPhrases, weakVerbs, relScore));
  }

  /** The loop of `analyze`: skip entries with an empty name or a name
      that is not allowed, and append one record for each other entry. */
  method ScoreResumes(resumes: seq<Upload>, jobText: string, fuzzy: (string, seq<string>) -> bool)
    returns (r: Outcome<seq<ResumeRecord>>)
    ensures r.Raised? <==> !AllTokenized(Filter(resumes, Usable))
    ensures r.Returned? ==> RecordsOf(r.value, Filter(resumes, Usable), jobText, fuzzy)
  {
    var allResults: seq<ResumeRecord> := [];
    for i := 0 to |resumes|
      invariant RecordsOf(allResults, Filter(resumes[..i], Usable), jobText, fuzzy)
      invariant AllTokenized(Filter(resumes[..i], Usable))
    {
      var f := resumes[i];
      if f.filename == "" {
        SkipStep(allResults, resumes, i, jobText, fuzzy);
        continue;
      }
      if !AllowedFile(f.filename) {
        SkipStep(allResults, resumes, i, jobText, fuzzy);
        continue;
      }
      var rec := BuildRecord(f, jobText, fuzzy);
      if rec.Raised? {
        UntokenizedUpload(resumes, i);
        return Raised(rec.exception);
      }
      KeepStep(allResults, resumes, i, rec.value, jobText, fuzzy);
      allResults := allResults + [rec.value];
    }
    assert resumes[..|resumes|] == resumes;
    return Returned(allResults);
  }

  /** `analyze`.  `records` are the per-resume records in upload order,
      before the sort. */
  method Analyze(resumes: seq<Upload>, job: Option<Upload>, topN: int,
                 fuzzy: (string, seq<string>) -> bool)
    returns (resp: Response, ghost records: seq<ResumeRecord>)
    ensures resp == Rejected(NoResumes) <==> resumes == []
    ensures resp == Rejected(TooManyResumes) <==> |resumes| > MAX_RESUMES
    ensures resp == Rejected(NoJobFile) <==>
      0 < |resumes| <= MAX_RESUMES && (job.None? || job.value.filename == "")
    ensures resp == Rejected(JobNotPdf) <==>
      0 < |resumes| <= MAX_RESUMES && job.Some? && job.value.filename != ""
      && !AllowedFile(job.value.filename)
    ensures resp.Crashed? <==>
      ValidRequest(resumes, job) && !AllTokenized(Filter(resumes, Usable))
    ensures resp == Rejected(NoValidResumes) <==>
      ValidRequest(resumes, job) && Filter(resumes, Usable) == []
    ensures resp.Ranked? <==>
      ValidRequest(resumes, job) && AllTokenized(Filter(resumes, Usable))
      && Filter(resumes, Usable) != []
    ensures !ValidRequest(resumes, job) ==> records == []
    ensures ValidRequest(resumes, job) && !resp.Crashed? ==>
      RecordsOf(records, Filter(resumes, Usable), job.value.text, fuzzy)
    ensures resp.Ranked? ==>
      ValidRequest(resumes, job) && records != []
      && resp.allResults == SortDesc(records, RelScore)
      && resp.topN == (if topN < 1 then 1 else if topN > |records| then |records| else topN)
      && 1 <= resp.topN <= |resp.allResults|
      && resp.selected == resp.allResults[..resp.topN]
      && resp.top2 == resp.allResults[..if |records| >= 2 then 2 else 1]
    ensures resp.Ranked? ==> Best(records, resp.selected) && Best(records, resp.top2)
  {
    records := [];
    if |resumes| == 0 {
      return Rejected(NoResumes), records;
    }
    if |resumes| > MAX_RESUMES {
      return Rejected(TooManyResumes), records;
    }
    if job.None? || job.value.filename == "" {
      return Rejected(NoJobFile), records;
    }
    var jobFile := job.value;
    if !AllowedFile(jobFile.filename) {
      return Rejected(JobNotPdf), records;
    }
    var scored := ScoreResumes(resumes, jobFile.text, fuzzy);
    if scored.Raised? {
      return Crashed(scored.exception), records;
    }
    var allResults := scored.value;
    records := allResults;
    if |allResults| == 0 {
      return Rejected(NoValidResumes), records;
    }
    resp := Rank(allResults, topN);
  }

  /** The ranking step of `analyze`: the stable descending sort by
      relevance, `top_n` clamped to `[1, count]`, and the two prefixes. */
  method Rank(records: seq<ResumeRecord>, topN: int) returns (resp: Response)
    requires records != []
    ensures resp.Ranked?
    ensures resp.allResults == SortDesc(records, RelScore)
    ensures resp.topN == (if topN < 1 then 1 else if topN > |records| then |records| else topN)
    ensures 1 <= resp.topN <= |resp.allResults|
    ensures resp.selected == resp.allResults[..resp.topN]
    ensures resp.top2 == resp.allResults[..if |records| >= 2 then 2 else 1]
    ensures Best(records, resp.selected) && Best(records, resp.top2)
  {
    var allResults := SortDesc(records, RelScore);
    var n := if topN < |allResults| then topN else |allResults|;
    n := if n > 1 then n else 1;
    var selected := allResults[..n];
    var top2 := if |allResults| >= 2 then allResults[..2] else allResults[..1];
    SelectionIsBest(records, selected);
    SelectionIsBest(records, top2);
    return Ranked(n, selected, top2, allResults);
  }

  /** Every upload's text has at least one skill token, so the fuzzy
      phase of the skill scan does not raise on it. */
  ghost predicate AllTokenized(uploads: seq<Upload>) {
    forall u | u in uploads :: SkillTokens(u.text) != []
  }

  lemma UntokenizedUpload(resumes: seq<Upload>, i: nat)
    requires i < |resumes| && Usable(resumes[i]) && SkillTokens(resumes[i].text) == []
    ensures !AllTokenized(Filter(resumes, Usable))
  {
    assert resumes[i] in Filter(resumes, Usable);
  }

  lemma AllTokenizedSnoc(uploads: seq<Upload>, u: Upload)
    requires AllTokenized(uploads) && SkillTokens(u.text) != []
    ensures AllTokenized(uploads + [u])
  {
  }

  /** A skipped entry leaves the records and the usable uploads as they
      were. */
  lemma SkipStep(all: seq<ResumeRecord>, resumes: seq<Upload>, i: nat, jobText: string,
                 fuzzy: (string, seq<string>) -> bool)
    requires i < |resumes| && !Usable(resumes[i])
    requires RecordsOf(all, Filter(resumes[..i], Usable), jobText, fuzzy)
    requires AllTokenized(Filter(resumes[..i], Usable))
    ensures RecordsOf(all, Filter(resumes[..i + 1], Usable), jobText, fuzzy)
    ensures AllTokenized(Filter(resumes[..i + 1], Usable))
  {
    PrefixSnoc(resumes, i);
    FilterSnoc(resumes[..i], resumes[i], Usable);
  }

  /** A usable entry with tokens adds its record at the end. */
  lemma KeepStep(all: seq<ResumeRecord>, resumes: seq<Upload>, i: nat, rec: ResumeRecord,
                 jobText: string, fuzzy: (string, seq<string>) -> bool)
    requires i < |resumes| && Usable(resumes[i]) && SkillTokens(resumes[i].text) != []
    requires RecordOf(rec, resumes[i], jobText, fuzzy)
    requires RecordsOf(all, Filter(resumes[..i], Usable), jobText, fuzzy)
    requires AllTokenized(Filter(resumes[..i], Usable))
    ensures RecordsOf(all + [rec], Filter(resumes[..i + 1], Usable), jobText, fuzzy)
    ensures AllTokenized(Filter(resumes[..i + 1], Usable))
  {
    PrefixSnoc(resumes, i);
    FilterSnoc(resumes[..i], resumes[i], Usable);
    AllTokenizedSnoc(Filter(resumes[..i], Usable), resumes[i]);
    RecordsExtend(all, resumes[..i], rec, resumes[i], jobText, fuzzy);
  }

  /** One more usable resume adds its record at the end. */
  lemma RecordsExtend(all: seq<ResumeRecord>, prefix: seq<Upload>, rec: ResumeRecord, u: Upload,
                      jobText: string, fuzzy: (string, seq<string>) -> bool)
    requires RecordsOf(all, Filter(prefix, Usable), jobText, fuzzy)
    requires Usable(u) && RecordOf(rec, u, jobText, fuzzy)
    ensures RecordsOf(all + [rec], Filter(prefix + [u], Usable), jobText, fuzzy)
  {
    FilterSnoc(prefix, u, Usable);
    assert RecordFor(jobText, fuzzy)(rec, u);
    PairwiseSnoc(all, Filter(prefix, Usable), rec, u, RecordFor(jobText, fuzzy));
  }

  /** The ranking is a permutation of the records, in non-increasing
      relevance order, and records with equal scores keep their upload
      order. */
  lemma RankingIsStableDescendingPermutation(records: seq<ResumeRecord>, score: int)
    ensures multiset(SortDesc(records, RelScore)) == multiset(records)
    ensures SortedDesc(SortDesc(records, RelScore), RelScore)
    ensures WithKey(SortDesc(records, RelScore), RelScore, score) == WithKey(records, RelScore, score)
  {
    SortDescPermutes(records, RelScore);
    SortDescStable(records, RelScore, score);
  }

  /** No record left out of `kept` scores higher than one in it. */
  ghost predicate Best(records: seq<ResumeRecord>, kept: seq<ResumeRecord>) {
    forall r, i | r in records && r !in kept && 0 <= i < |kept| :: r.relScore <= kept[i].relScore
  }

  /** A prefix of the ranking is a best selection of the records. */
  lemma SelectionIsBest(records: seq<ResumeRecord>, kept: seq<ResumeRecord>)
    requires kept <= SortDesc(records, RelScore)
    ensures Best(records, kept)
  {
    PrefixOfSortIsTop(records, kept, RelScore);
    forall r, i | r in records && r !in kept && 0 <= i < |kept|
      ensures r.relScore <= kept[i].relScore
    {
      assert RelScore(r) <= RelScore(kept[i]);
    }
  }

  function ScoreOf(entry: (string, int)): int { entry.1 }

  /** Scores 40, 90, 90, 10 in upload order rank as the second, third,
      first and fourth upload: the tie at 90 keeps upload order. */
  lemma {:induction false} RankingExample()
    ensures SortDesc([("a", 40), ("b", 90), ("c", 90), ("d", 10)], ScoreOf)
         == [("b", 90), ("c", 90), ("a", 40), ("d", 10)]
  {
    var xs := [("a", 40), ("b", 90), ("c", 90), ("d", 10)];
    assert xs[1..] == [("b", 90), ("c", 90), ("d", 10)];
    assert xs[2..] == [("c", 90), ("d", 10)];
    assert xs[3..] == [("d", 10)];
    var s3 := SortDesc(xs[3..], ScoreOf);
    assert s3 == [("d", 10)];
    var s2 := SortDesc(xs[2..], ScoreOf);
    assert s2 == Insert(("c", 90), s3, ScoreOf) == [("c", 90), ("d", 10)];
    var s1 := SortDesc(xs[1..], ScoreOf);
    assert s1 == Insert(("b", 90), s2, ScoreOf) == [("b", 90), ("c", 90), ("d", 10)];
    assert Insert(("a", 40), s1[1..], ScoreOf) == [("c", 90), ("a", 40), ("d", 10)] by {
      assert s1[1..][1..] == [("d", 10)];
    }
    assert SortDesc(xs, ScoreOf) == Insert(("a", 40), s1, ScoreOf)
        == [("b", 90)] + Insert(("a", 40), s1[1..], ScoreOf)
        == [("b", 90)] + [("c", 90), ("a", 40), ("d", 10)];
  }
}
