/** The years-of-experience estimate (`years_of_experience`): the span
    between the earliest and latest 19xx/20xx year mentioned, with
    "N years" phrases as fallbacks. */
module Experience {
  import opened Text
  import opened Options

  function DigitValue(c: char): int { c as int - '0' as int }

  /** `\b(?:20|19)\d{2}` matches at `p`.  There is no trailing `\b`, so
      "20201" matches at its start. */
  predicate YearAt(s: string, p: nat) {
    p + 4 <= |s| && BoundaryAt(s, p)
    && ((s[p] == '2' && s[p + 1] == '0') || (s[p] == '1' && s[p + 1] == '9'))
    && IsDigit(s[p + 2]) && IsDigit(s[p + 3])
  }

  /** The year written at `p`, as `int` reads it. */
  function YearValue(s: string, p: nat): (y: int)
    requires YearAt(s, p)
    ensures 1900 <= y <= 2099
  {
    (if s[p] == '2' then 2000 else 1900) + 10 * DigitValue(s[p + 2]) + DigitValue(s[p + 3])
  }

  /** `re.findall(r'(\b(?:20|19)\d{2})', s)` from `p`, converted to `int`. */
  function FindYears(s: string, p: nat): (ys: seq<int>)
    ensures forall i | 0 <= i < |ys| :: 1900 <= ys[i] <= 2099
    decreases |s| - p
  {
    if p >= |s| then []
    else if YearAt(s, p) then [YearValue(s, p)] + FindYears(s, p + 4)
    else FindYears(s, p + 1)
  }

  /** A stretch without digits contributes no year. */
  lemma {:induction false} FindYearsSkips(s: string, p: nat, q: nat)
    requires p <= q <= |s|
    requires forall k | p <= k < q :: !IsDigit(s[k])
    ensures FindYears(s, p) == FindYears(s, q)
    decreases q - p
  {
    if p < q {
      FindYearsSkips(s, p + 1, q);
    }
  }

  /** `(\d+)\+?\s+years?` (with `plus`) or `(\d+)\s+years?` matches at `p`
      with its digits ending at the returned position. */
  function PhraseDigitsEnd(s: string, p: nat, plus: bool): (r: Option<nat>)
    requires p <= |s|
    ensures r.Some? ==> p < r.value <= |s| && AllDigits(s[p..r.value])
  {
    if p == |s| || !IsDigit(s[p]) then None
    else
      var q := RunEnd(s, p, IsDigit);
      var w := if plus && q < |s| && s[q] == '+' then q + 1 else q;
      var e := RunEnd(s, w, IsSpace);
      if e > w && OccursAt(s, "year", e) then Some(q) else None
  }

  /** `re.search` for that pattern from `p`: the number in the leftmost
      match. */
  function SearchYears(s: string, p: nat, plus: bool): (n: Option<nat>)
    requires p <= |s|
    ensures n.None? <==> forall q | p <= q < |s| :: PhraseDigitsEnd(s, q, plus).None?
    decreases |s| - p
  {
    if p == |s| then None
    else match PhraseDigitsEnd(s, p, plus)
      case Some(q) => Some(DigitsValue(s[p..q]))
      case None => SearchYears(s, p + 1, plus)
  }

  /** The leftmost match from `p` is at `q`, and `v` is the number its
      digits spell. */
  ghost predicate LeftmostYearsAt(s: string, p: nat, plus: bool, q: nat, v: nat) {
    && p <= q < |s|
    && PhraseDigitsEnd(s, q, plus).Some?
    && (forall q' | p <= q' < q :: PhraseDigitsEnd(s, q', plus).None?)
    && v == DigitsValue(s[q..PhraseDigitsEnd(s, q, plus).value])
  }

  /** A number found is the one in the leftmost match, not in any later
      one. */
  lemma {:induction false} SearchYearsLeftmost(s: string, p: nat, plus: bool)
    requires p <= |s|
    ensures SearchYears(s, p, plus).Some? ==>
              exists q: nat :: LeftmostYearsAt(s, p, plus, q, SearchYears(s, p, plus).value)
    decreases |s| - p
  {
    if p < |s| && PhraseDigitsEnd(s, p, plus).None? {
      SearchYearsLeftmost(s, p + 1, plus);
      if SearchYears(s, p, plus).Some? {
        var v := SearchYears(s, p, plus).value;
        var q: nat :| LeftmostYearsAt(s, p + 1, plus, q, v);
        assert LeftmostYearsAt(s, p, plus, q, v);
      }
    } else if p < |s| {
      assert LeftmostYearsAt(s, p, plus, p, SearchYears(s, p, plus).value);
    }
  }

  function MaxOf(xs: seq<int>): (m: int)
    requires xs != []
    ensures m in xs && forall i | 0 <= i < |xs| :: xs[i] <= m
  {
    if |xs| == 1 then xs[0]
    else var t := MaxOf(xs[1..]); if xs[0] >= t then xs[0] else t
  }

  function MinOf(xs: seq<int>): (m: int)
    requires xs != []
    ensures m in xs && forall i | 0 <= i < |xs| :: m <= xs[i]
  {
    if |xs| == 1 then xs[0]
    else var t := MinOf(xs[1..]); if xs[0] <= t then xs[0] else t
  }

  /** The estimate, case by case: the span between the latest and the
      earliest year when at least two years are mentioned and they differ;
      otherwise, when exactly one year is mentioned, the number in the first
      "N years" or "N+ years" phrase if that is not 0; otherwise the number
      in the first "N years" phrase (no "+"), or 0. */
  function ExperienceYears(resumeText: string): (r: nat)
    ensures var dates := FindYears(resumeText, 0);
            |dates| >= 2 && MaxOf(dates) != MinOf(dates) ==>
              && 0 < r <= 199
              && (forall i, j | 0 <= i < |dates| && 0 <= j < |dates| :: dates[i] - dates[j] <= r)
              && (exists i, j | 0 <= i < |dates| && 0 <= j < |dates| :: dates[i] - dates[j] == r)
    ensures var dates := FindYears(resumeText, 0);
            (dates == [] || (|dates| >= 2 && forall i | 0 <= i < |dates| :: dates[i] == dates[0]))
            ==> r == SearchYears(Lower(resumeText), 0, false).GetOr(0)
    ensures var plus := SearchYears(Lower(resumeText), 0, true).GetOr(0);
            |FindYears(resumeText, 0)| == 1 ==>
              r == if plus != 0 then plus else SearchYears(Lower(resumeText), 0, false).GetOr(0)
    ensures r == 0 ==> SearchYears(Lower(resumeText), 0, false).GetOr(0) == 0
  {
    var dates := FindYears(resumeText, 0);
    var lower := Lower(resumeText);
    if |dates| >= 2 && MaxOf(dates) != MinOf(dates) then MaxOf(dates) - MinOf(dates)
    else if |dates| == 1 && SearchYears(lower, 0, true).GetOr(0) != 0 then
      SearchYears(lower, 0, true).GetOr(0)
    else SearchYears(lower, 0, false).GetOr(0)
  }

  /** `years_of_experience`, step by step as written, with its clamp and
      its fallback. */
  method YearsOfExperience(resumeText: string) returns (years: int)
    ensures years == ExperienceYears(resumeText)
  {
    years := 0;
    var dates := FindYears(resumeText, 0);
    if |dates| > 0 {
      if |dates| >= 2 {
        years := MaxOf(dates) - MinOf(dates);
      } else {
        var m := SearchYears(Lower(resumeText), 0, true);
        if m.Some? {
          years := m.value;
        }
      }
    }
    if years < 0 {
      years := 0;
    }
    if years == 0 {
      var m := SearchYears(Lower(resumeText), 0, false);
      if m.Some? {
        years := m.value;
      }
    }
  }

  /** "2015 to 2020" gives 5. */
  lemma {:induction false} SpanExample()
    ensures ExperienceYears("2015 to 2020") == 5
  {
    SpanExampleYears();
    assert MaxOf([2015, 2020]) == 2020 && MinOf([2015, 2020]) == 2015;
  }

  lemma {:induction false} SpanExampleYears()
    ensures FindYears("2015 to 2020", 0) == [2015, 2020]
  {
    var s := "2015 to 2020";
    assert YearAt(s, 0) && YearValue(s, 0) == 2015;
    assert s[4] == ' ' && s[5] == 't' && s[6] == 'o' && s[7] == ' ';
    FindYearsSkips(s, 4, 8);
    assert YearAt(s, 8) && YearValue(s, 8) == 2020;
    assert FindYears(s, 12) == [];
  }

  /** "5 years" gives 5 through the fallback phrase. */
  lemma {:induction false} PhraseExample()
    ensures ExperienceYears("5 years") == 5
  {
    PhraseExampleNoYears();
    PhraseExampleSearch();
  }

  lemma {:induction false} PhraseExampleNoYears()
    ensures FindYears("5 years", 0) == []
  {
    var s := "5 years";
    assert !YearAt(s, 0);
    assert forall k | 1 <= k < |s| :: !IsDigit(s[k]);
    FindYearsSkips(s, 1, |s|);
  }

  lemma {:induction false} PhraseExampleSearch()
    ensures SearchYears(Lower("5 years"), 0, false) == Some(5)
  {
    var l := Lower("5 years");
    assert l[0] == '5' && l[1] == ' ' && l[2] == 'y' && l[3] == 'e' && l[4] == 'a' && l[5] == 'r' && |l| == 7;
    assert RunEnd(l, 0, IsDigit) == 1;
    assert RunEnd(l, 1, IsSpace) == 2;
    assert l[2..6] == "year";
    assert PhraseDigitsEnd(l, 0, false) == Some(1);
    assert l[0..1] == "5";
    assert DigitsValue("5") == 5;
  }

  /** "3+ years" counts only next to exactly one mentioned year: with no
      year the fallback pattern admits no "+", so the estimate is 0. */
  lemma {:induction false} PlusPhraseAloneIgnored()
    ensures ExperienceYears("3+ years") == 0
  {
    PlusPhraseNoYears();
    PlusPhraseSearch();
  }

  lemma {:induction false} PlusPhraseNoYears()
    ensures FindYears("3+ years", 0) == []
  {
    var s := "3+ years";
    assert !YearAt(s, 0);
    FindYearsSkips(s, 1, |s|);
  }

  lemma {:induction false} PlusPhraseSearch()
    ensures SearchYears(Lower("3+ years"), 0, false).None?
  {
    var l := Lower("3+ years");
    assert l[0] == '3' && l[1] == '+' && l[2] == ' ';
    assert RunEnd(l, 0, IsDigit) == 1;
    assert RunEnd(l, 1, IsSpace) == 1;
    assert PhraseDigitsEnd(l, 0, false).None?;
    assert forall k | 1 <= k < |l| :: !IsDigit(l[k]);
    SearchNoDigits(l, 1);
  }

  /** Without digits from `p` on, no phrase is found. */
  lemma {:induction false} SearchNoDigits(s: string, p: nat)
    requires p <= |s|
    requires forall k | p <= k < |s| :: !IsDigit(s[k])
    ensures SearchYears(s, p, false).None? && SearchYears(s, p, true).None?
    decreases |s| - p
  {
    if p < |s| {
      SearchNoDigits(s, p + 1);
    }
  }

  /** The year pattern has no trailing boundary: "20201" yields 2020. */
  lemma {:induction false} TrailingDigitExample()
    ensures FindYears("20201", 0) == [2020]
  {
    var s := "20201";
    assert YearAt(s, 0) && YearValue(s, 0) == 2020;
    assert !YearAt(s, 4);
    assert FindYears(s, 5) == [];
  }
}
