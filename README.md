# Resume ATS analyzer — a Dafny model of its scoring core

The system scores uploaded resumes against a job description the way an
applicant tracking system would. It does this in four steps:

1. It extracts the most frequent job keywords and measures how many of
   them a resume contains.
2. It detects skills from a skill bank, and it estimates years of
   experience from mentioned years or from "N years" phrases.
3. It finds degrees and institutions, format problems (long lines, few
   bullets, missing sections), contact details (e-mail addresses, phone
   numbers, a LinkedIn link), achievement lines, weak verbs and generic
   phrases.
4. It combines these into a relevance score. The `/analyze` request
   validates its uploads, builds one record per usable resume, ranks the
   records by relevance with a stable descending sort, and picks the
   `top_n` and top-two prefixes.

This project models that core. Each source file becomes one or more
modules:

- `Text` holds the Python string primitives the analyzer relies on:
  `lower`, `in`, `isspace`, `splitlines`, `strip`, `\b`, `\w` and `\d`.
- `Tokenizer` is the `findall` scanner for `\b[...]{2,}\b`. It includes
  the backtracking of the greedy repetition.
- `StableSort` is a stable descending insertion sort. It stands for both
  `Counter.most_common` and `list.sort(key=..., reverse=True)`.
- `StringOrder` is Python's `str` ordering and `sorted(list(set))`.
- `Keywords`, `Skills`, `Experience`, `Education`, `Structure`, `Contact`
  and `Relevance` model `src/ats_analyzer.py`.
- `Utils` models `src/utils.py`.
- `App` models `allowed_file` and the scoring part of `analyze` in
  `app.py`.

The model keeps the code's form:

- Pure computations are functions.
- Loops that append to lists are methods. Each method is proved equal to a
  specification function or states its result directly, and the properties
  the code promises are proved about that function.
- Regular expressions are scanners written over positions. Each one is
  leftmost-first and greedy, and gives characters back where the pattern
  requires it.

## Model

| member | source | states |
|---|---|---|
| Text.SplitLines | src/ats_analyzer.py:89 | `splitlines` yields no line holding a line break, and no lines exactly for the empty text; the lines joined together are the text with its line breaks removed, and each line occurs in the text; the lines joined with "\n" (plus a final "\n" when the text ends in a break) are the text with each break, "\r\n" counted once, read as one "\n", which fixes how many lines there are and where each one breaks |
| Text.SplitLinesUnique | src/ats_analyzer.py:89 | any list of break-free lines that gives that same reading of the text is exactly the `splitlines` result |
| Text.LinesStep | src/ats_analyzer.py:89 | splitting one line and its break off the front keeps the joined text and the occurrence of every line |
| Text.DropBreaksOfLine | src/ats_analyzer.py:89 | removing the breaks from a line, its break and the rest keeps the line followed by what the rest keeps |
| Text.LStrip | src/ats_analyzer.py:132 | `lstrip` removes only whitespace, and all of it up to the first other character |
| Text.RStrip | src/ats_analyzer.py:132 | `rstrip` removes only whitespace, and all of it back to the last other character |
| Text.Strip | src/ats_analyzer.py:132 | `strip` gives the piece of the line left after removing only whitespace, all of it, from both ends |
| Text.StripsCompose | src/ats_analyzer.py:132 | stripping the front and then the back of what is left leaves a piece of the line with only whitespace on either side of it |
| Tokenizer.FindAll | src/ats_analyzer.py:21 | every token `findall` yields has two or more characters of the class and occurs in the text |
| Tokenizer.KeywordTokens | src/ats_analyzer.py:29 | the resume's keyword tokens are class tokens of its lower-cased text |
| Tokenizer.TokenHasNoDigit | src/ats_analyzer.py:21 | a keyword token never holds a digit |
| Tokenizer.CppIsNoToken | src/ats_analyzer.py:21 | "c++" yields no token because the closing `\b` fails, and "c++ go" yields only "go" |
| Keywords.ExtractKeywordsFromJob | src/ats_analyzer.py:20-26 | no keywords for `top_n <= 0`, and at most `top_n` otherwise |
| Keywords.DigitFilterIsVacuous | src/ats_analyzer.py:21-23 | the `isdigit` filter removes nothing, so the candidates are the tokens that are not stop-words |
| Keywords.Candidates | src/ats_analyzer.py:21-23 | the candidates are exactly the keyword tokens that are not stop-words and not all digits, in text order, each kept as many times as it occurs among the tokens |
| Lists.FilterCount | src/ats_analyzer.py:23 | a comprehension with a condition keeps every occurrence of the elements it accepts and none of the others |
| Keywords.MostCommon | src/ats_analyzer.py:24-26 | `most_common(n)` gives `min(n, distinct elements)` keys (none when `n <= 0`), without repeats, each taken from the counted list |
| Keywords.KeywordsAreCandidateTokens | src/ats_analyzer.py:21-23 | every keyword is a lower-case, digit-free candidate token and not a stop-word |
| Keywords.CandidateIsToken | src/ats_analyzer.py:21-23 | every candidate is a lower-case keyword token without digits and is not a stop-word |
| Keywords.KeywordsAreMostFrequent | src/ats_analyzer.py:24-26 | keyword counts do not increase along the list, and no left-out candidate is more frequent than any kept keyword |
| Keywords.KeywordTiesInFirstOccurrenceOrder | src/ats_analyzer.py:24-26 | for each count, the kept keywords with that count are a prefix of the candidates with that count, in first-occurrence order |
| Keywords.KeepInFacts | src/ats_analyzer.py:30 | `matched` holds exactly the job keywords found among the resume words, in job order |
| Keywords.KeepNotInFacts | src/ats_analyzer.py:32 | `missing` holds exactly the job keywords not in `matched`, in job order |
| Keywords.PartitionSizes | src/ats_analyzer.py:30-32 | the sizes of `matched` and `missing` add up to the number of job keywords |
| Keywords.KeywordMatchScore | src/ats_analyzer.py:28-32 | `matched` and `missing` split the job keywords by presence among the resume's words, each in job order and together covering all; the score lies in 0..100, is 0 when nothing matches, and is 100 exactly when a non-empty keyword list is fully matched |
| Keywords.PercentBounds | src/ats_analyzer.py:31 | `m*100 // max(1, n)` lies in 0..100, and is 100 exactly when `m == n > 0` |
| StableSort.SortDesc | app.py:164 | the sorted list is as long as its input and its keys do not increase |
| StableSort.SortDescPermutes | app.py:164 | the sort is a permutation of its input |
| StableSort.SortDescStable | app.py:164 | for each key, the elements with that key keep their input order (stability) |
| StableSort.SortDescNoDuplicates | src/ats_analyzer.py:26 | sorting a list without repeats gives a list without repeats |
| StableSort.PrefixOfSortIsTop | src/ats_analyzer.py:26 | a prefix of the sort is sorted, comes from the input, and no element left out has a larger key |
| StableSort.PrefixOfSortKeepsTies | src/ats_analyzer.py:26 | a prefix of the sort keeps, for each key, a prefix of the input's elements with that key |
| StringOrder.Irreflexive | src/ats_analyzer.py:47 | no string sorts before itself |
| StringOrder.Total | src/ats_analyzer.py:47 | of two different strings, one sorts before the other |
| StringOrder.Transitive | src/ats_analyzer.py:47 | the string order is transitive |
| StringOrder.StrictlySortedNoDuplicates | src/ats_analyzer.py:47 | a strictly ascending list has no repeats |
| StringOrder.SortedList | src/ats_analyzer.py:47 | `sorted(list(found))` is strictly ascending and holds exactly the set's elements, once each |
| Skills.EffectiveBank | src/ats_analyzer.py:35 | the bank used is never empty: an empty bank is replaced by the default bank, and any other bank is used as given |
| Skills.SkillTokens | src/ats_analyzer.py:42 | the fuzzy phase compares against tokens of the skill class |
| Skills.ExtractSkills | src/ats_analyzer.py:34-47 | raises exactly when the text has no skill token; otherwise returns, in ascending order, exactly the bank skills that are a substring of the lower-cased text or accepted by the fuzzy matcher |
| Skills.ExactHitsFound | src/ats_analyzer.py:38-40 | a bank skill that is a substring of the lower-cased text is detected, whatever the fuzzy matcher says |
| Skills.GitHubNeverExact | src/ats_analyzer.py:36-40 | "GitHub" is never a substring of a lower-cased text |
| Skills.DefaultBankQuirks | src/ats_analyzer.py:12-16 | the default bank has 50 entries; "sql" appears twice (at 0-based indices 2 and 14), and index 15 is the mixed-case "GitHub" |
| Experience.FindYears | src/ats_analyzer.py:52 | each year found lies in 1900..2099 |
| Experience.MaxOf | src/ats_analyzer.py:57 | `max` is an element of the list and no element exceeds it |
| Experience.MinOf | src/ats_analyzer.py:57 | `min` is an element of the list and no element is below it |
| Experience.YearsOfExperience | src/ats_analyzer.py:49-73 | the step-by-step estimate with its clamp and fallback equals the case-by-case `ExperienceYears` |
| Experience.ExperienceYears | src/ats_analyzer.py:49-73 | with two or more different years mentioned, the estimate is the largest gap between two of them, between 1 and 199; with exactly one year mentioned, it is the number of the first "N years" or "N+ years" phrase when that is not 0, and otherwise the number of the first "N years" phrase (0 when there is none); with no year, or with only copies of one year repeated, it is the number of the first "N years" phrase (0 when there is none); it is 0 only when that phrase is absent or gives 0 |
| Experience.SearchYears | src/ats_analyzer.py:60-70 | `re.search` for the "N years" phrase (with or without the optional "+"): nothing is found exactly when the pattern matches at no position |
| Experience.SearchYearsLeftmost | src/ats_analyzer.py:60-70 | a number found is the one spelled by the digits of the leftmost match; no match starts earlier |
| Experience.SpanExample | src/ats_analyzer.py:52-57 | "2015 to 2020" gives 5 |
| Experience.PhraseExample | src/ats_analyzer.py:68-72 | "5 years" with no year mentioned gives 5 through the fallback phrase |
| Experience.PlusPhraseAloneIgnored | src/ats_analyzer.py:68-72 | "3+ years" with no year mentioned gives 0, because the fallback pattern does not allow "+" |
| Experience.SearchNoDigits | src/ats_analyzer.py:70 | without digits, neither phrase pattern matches |
| Experience.TrailingDigitExample | src/ats_analyzer.py:52 | the year pattern has no trailing boundary, so "20201" yields 2020 |
| Education.IndicatorAt | src/ats_analyzer.py:82 | the alternative found is an institution word that matches at the position, ignoring case |
| Education.FindInstitutions | src/ats_analyzer.py:82 | each institution is an indicator word in the text's own case, and it occurs in the text |
| Education.DetectEducation | src/ats_analyzer.py:75-83 | the degrees are exactly the common degrees contained in the lower-cased text, and the institutions are the first five matches |
| Education.InstitutionsBounded | src/ats_analyzer.py:82-83 | at most five institutions are reported, each an indicator word in the text's own case that occurs in the text |
| Education.NoIndicatorNoInstitution | src/ats_analyzer.py:82 | a text containing no indicator word, in any case, names no institution |
| Education.TrailSwallowsNextWord | src/ats_analyzer.py:82 | the 60-character trail swallows a second indicator, so "University, College" yields only "University" |
| Structure.IsBulletLine | src/ats_analyzer.py:94 | a line is a bullet exactly when, after leading whitespace only, its next character is `*`, `-` or `•` |
| Structure.MissingSections | src/ats_analyzer.py:98-99 | the missing sections are exactly the expected sections absent from the lower-cased text, in listed order |
| Structure.FormatWarnings | src/ats_analyzer.py:85-102 | at most one warning of each kind, in the order long lines, bullets, sections; each is present exactly when its condition holds |
| Structure.ThreeWarnings | src/ats_analyzer.py:87-101 | conditional appends of three distinct warnings keep their order, and each is present exactly when its condition holds |
| Structure.KeptInOrder | src/ats_analyzer.py:87-101 | the warnings that are kept appear in append order |
| Structure.FormatStructureChecks | src/ats_analyzer.py:85-102 | the appending method gives `FormatWarnings`, with at most three warnings and each present exactly when its condition holds |
| Structure.NamedSections | src/ats_analyzer.py:98-101 | the sections warning names at most three missing sections in listed order, and all of them when fewer than three are missing |
| Structure.SpacedPercentExample | src/ats_analyzer.py:131 | the achievement pattern allows whitespace between a number and `%` ("cut costs 10 %") |
| Structure.DollarExample | src/ats_analyzer.py:131 | a dollar amount matches the achievement pattern ("saved $5k") |
| Structure.WholeWordsOnly | src/ats_analyzer.py:131 | the verbs match only as whole words: "regrew" does not match |
| Structure.DetectAchievements | src/ats_analyzer.py:126-133 | the result is the first 20 matching lines of the text, stripped, in text order |
| Structure.AchievementLinesAreStrippedMatches | src/ats_analyzer.py:128-132 | the loop's list is the stripped lines that match the pattern, in order |
| Structure.AchievementsFromMatchingLines | src/ats_analyzer.py:126-133 | every achievement is a matching line of the text, stripped |
| Structure.DetectActionVerbWeakness | src/ats_analyzer.py:145-151 | the weak verbs found are exactly those the lower-cased text contains, in list order, without repeats |
| Structure.GenericPhraseDetector | src/ats_analyzer.py:153-154 | the generic phrases found are exactly those the lower-cased text contains, in list order, without repeats |
| Contact.FindLinkedIn | src/ats_analyzer.py:108 | the leftmost position where the LinkedIn pattern matches, or none exactly when it matches nowhere |
| Contact.LinkedInMatch | src/ats_analyzer.py:108-110 | the match at a position where the pattern matches starts there, is "linkedin.com/" in any case followed by a non-empty path of path characters, and is greedy: it stops only at the end of the text or before a character outside the path |
| Contact.ContactInfoChecks | src/ats_analyzer.py:104-111 | the e-mails and phones have their shapes; the LinkedIn link is present exactly when the pattern matches somewhere, and then it is the first match: it starts at the leftmost matching position and takes the path greedily |
| Contact.FirstLinkedInUnique | src/ats_analyzer.py:108-110 | only one string is the first, greedy match, so the link the record holds is fully determined by the text |
| Relevance.RelevanceScore | src/ats_analyzer.py:135-143 | the score never exceeds 100 |
| Relevance.NonNegativeInputs | src/ats_analyzer.py:135-143 | for non-negative inputs, the score is `min(100, ks//2 + min(30, 5s) + min(20, 4a) + min(20, 2y))`, in 0..100 |
| Relevance.Monotone | src/ats_analyzer.py:135-143 | raising any input never lowers the score |
| Relevance.Extremes | src/ats_analyzer.py:135-143 | full marks give 100 and no signal gives 0 |
| Relevance.NegativeHalvesTowardZero | src/ats_analyzer.py:142 | `int` truncates a negative half toward zero |
| Utils.PhrasesIn | src/utils.py:19-25 | the phrases found are exactly the vocabulary entries the lower-cased text contains, in vocabulary order |
| Utils.PhrasesInNoDuplicates | src/utils.py:19-25 | a vocabulary without repeats gives a result without repeats |
| Utils.PhrasesInIgnoresCase | src/utils.py:21 | upper-casing the text does not change the phrases found |
| Utils.PhrasesInSnoc | src/utils.py:22-24 | one more vocabulary entry appends it exactly when the text contains it |
| Utils.ScanVocabulary | src/utils.py:20-25 | the appending loop computes `PhrasesIn` |
| Utils.ContainsGenericPhrases | src/utils.py:19-25 | `contains_generic_phrases` gives the generic phrases the text contains |
| Utils.ExtractEmails | src/utils.py:13-14 | every address found has one `@`, a non-empty local part, and a final `.` and two or more letters, and it occurs in the text |
| Utils.EmailMatchEnd | src/utils.py:14 | an address match tried at a position is non-empty and ends within the text |
| Utils.EmailSpans | src/utils.py:14 | each address span found from a position is non-empty and lies between that position and the end of the text |
| Utils.EmailMatchShaped | src/utils.py:14 | a single address match has the address shape |
| Utils.EmailSpansShaped | src/utils.py:14 | all address matches have the shape and come in text order without overlapping |
| Utils.ExtractPhones | src/utils.py:16-17 | every number found is an optional `+`, a digit, seven or more digits, `-` or whitespace, and a final digit, and it occurs in the text |
| Utils.PhoneMatchEnd | src/utils.py:17 | a phone match tried at a position is non-empty and ends within the text |
| Utils.PhoneSpans | src/utils.py:17 | each phone span found from a position is non-empty and lies between that position and the end of the text |
| Utils.PhoneMatchShaped | src/utils.py:17 | a single phone match has the phone shape |
| Utils.PhoneSpansShaped | src/utils.py:17 | all phone matches have the shape and come in text order without overlapping |
| App.AfterLastDot | app.py:44 | `rsplit(".", 1)[1]` is the dot-free text after the last `.` |
| App.AllowedFile | app.py:43-44 | a file is allowed exactly when its name ends in `.pdf`, in any case |
| App.PdfExtension | app.py:44 | the text after the last `.` is "pdf", in any case, exactly when the name ends in `.pdf` |
| App.AfterLastDotOfSuffix | app.py:44 | a `.` followed only by non-dots marks the extension |
| App.BuildRecord | app.py:118-157 | raises exactly when the resume has no skill token; otherwise every field is the analyzers' result on the resume's text, and the relevance score is computed from those fields |
| App.ScoreResumes | app.py:95-157 | skips entries with an empty or disallowed name; raises exactly when some usable resume has no skill token; otherwise gives one record per usable resume, in upload order |
| App.SkipStep | app.py:98-101 | a skipped entry changes neither the records nor the usable uploads |
| App.KeepStep | app.py:139-157 | a usable entry appends its record |
| App.RecordsExtend | app.py:139-157 | appending the record of a usable upload keeps records and uploads paired |
| App.UntokenizedUpload | app.py:121 | one usable resume without tokens makes the request raise |
| App.AllTokenizedSnoc | app.py:121 | a resume with tokens keeps every usable resume tokenized |
| App.Analyze | app.py:53-171 | each outcome happens exactly when its condition holds, checked in order: no resumes; more than 20 resumes; a missing or unnamed job file; a job file that is not a PDF; a valid request where some usable resume has no skill token (crash); a valid request with no usable resume; otherwise a ranking, which is guaranteed for every valid request with at least one usable resume, all tokenized. A ranking holds one record per usable resume, ranks the records by a stable descending sort on relevance, clamps `top_n` to `[1, count]`, and returns the `top_n` prefix and the top-two (or top-one) prefix, so that no record left out of either scores higher than one kept in it |
| App.Rank | app.py:163-171 | the ranking is the stable descending sort of the records by relevance, `top_n` is clamped to `[1, count]`, `selected` and `top2` are the `top_n` and top-two (or top-one) prefixes, and no record left out of either scores higher than one kept in it |
| App.SelectionIsBest | app.py:167-171 | no record left out of a prefix of the ranking scores higher than one inside it |
| App.RankingIsStableDescendingPermutation | app.py:164 | the ranking is a permutation of the records in non-increasing relevance order, and equal scores keep upload order |
| App.RankingExample | app.py:164 | scores 40, 90, 90, 10 in upload order rank as uploads 2, 3, 1, 4 |

## Left out

- The fuzzy phase of `extract_skills` is a parameter, `fuzzy(skill, tokens)`. It stands for "the best fuzzy match of the skill among the tokens scores above 90". The fuzzywuzzy scorer is not modelled. The one behaviour of `extractOne` the model keeps is that an empty token list yields no result, which the caller's tuple unpacking turns into a raised error.
- Skills.ExtractSkills: when the text has no skill token, including the empty text, the code raises. Nothing in `app.py` catches this, so one such resume makes the whole request fail. The model follows the code (`Raised`, and `Crashed` in `App.Analyze`).
- Keywords.KeywordMatchScore: the percentage is the exact `floor(100 * m / n)`. The code computes `int(m / n * 100)` in floating point, which can be one lower (29 of 100 gives 28).
- Experience.ExperienceYears: Python's `int()` (src/ats_analyzer.py:72, outside the `try`) raises on a digit string longer than 4300 digits (Python 3.11 and later); the model converts digit strings of any length.
- Structure.LongLines: the average line length is compared exactly (`sum > 200 * n`). Floating-point division is not modelled.
- Relevance.RelevanceScore: the float sum `ks * 0.5 + ...` is kept doubled as an exact integer. This is exact for the integer inputs the code passes.
- Text: `lower`, `upper`, `\w`, `\d` and `\b` are ASCII only. Python applies Unicode case mapping and Unicode word and digit classes. `isspace` and `splitlines` use Python's full lists of separators.
- Education.DetectEducation: the degrees come back through `list(set(found))`, whose order is arbitrary. They are modelled as a set.
- Structure.FormatStructureChecks: the warnings are a datatype. `Structure.Message` gives each one's exact text; the checks list itself is not shown as strings.
- readability_scores is not part of this model: it depends on TextBlob's sentence and word splitting and on floating point. The record has no readability field.
- `secure_filename` is not modelled, and the record's `origName` is the raw upload name. Also not modelled: the uuid-based saved names, saving files, PDF text extraction (each upload carries its text), the embedding store, the LLM analysis, the similarity search and the LinkedIn-profile analysis. These are I/O or external services.
- App.Analyze: assumes that saving the uploads, the PDF text extraction (app.py:82-84, 106-110) and `readability_scores` (src/ats_analyzer.py:113-124, called at app.py:126) never fail. None of them is inside a `try`, so in the code such a failure crashes the request; `readability_scores` itself raises `UnboundLocalError` when TextBlob fails, because its `except` branch leaves `avg_words` unset.
- App.Analyze: `top_n` is taken as an integer. The `int()` parse of the form field, which raises on a non-number, is outside the model. The flash messages are modelled as the `Rejection` values.
- `list_files_in_folder` in `src/utils.py` is not part of this model: it reads the file system.
- `src/linkedin_check.py` is not part of this model: its `check_linkedin` is a single pattern search over the resume text, but `app.py` never calls it, so it plays no part in the request.
- Keywords.ExtractKeywordsFromJob: `Counter.most_common(n)` for `n <= 0` is modelled as the empty list, which is what `heapq.nlargest` returns.
