/** The Python string primitives the analyzer relies on: `str.lower`, the
    `in` operator on strings, `str.isspace`, `str.splitlines`, `str.strip`,
    and the `\w`, `\d` and `\b` classes of Python's `re`.  Letters, digits and
    word characters are modelled for ASCII; whitespace and line breaks use
    Python's complete lists. */
module Text {

  predicate IsUpper(c: char) { 'A' <= c <= 'Z' }
  predicate IsLower(c: char) { 'a' <= c <= 'z' }
  predicate IsLetter(c: char) { IsUpper(c) || IsLower(c) }
  /** `\d` */
  predicate IsDigit(c: char) { '0' <= c <= '9' }
  /** `\w` */
  predicate IsWordChar(c: char) { IsLetter(c) || IsDigit(c) || c == '_' }

  /** `str.isspace()`, which is also what `\s` matches in a `str` pattern. */
  predicate IsSpace(c: char) {
    c in {'\t', '\n', '\U{0B}', '\U{0C}', '\r', '\U{1C}', '\U{1D}', '\U{1E}', '\U{1F}', ' ',
          '\U{85}', '\U{A0}', '\U{1680}', '\U{2028}', '\U{2029}', '\U{202F}', '\U{205F}', '\U{3000}'}
    || '\U{2000}' <= c <= '\U{200A}'
  }

  /** The characters at which `str.splitlines()` ends a line. */
  predicate IsLineBreak(c: char) {
    c in {'\n', '\r', '\U{0B}', '\U{0C}', '\U{1C}', '\U{1D}', '\U{1E}', '\U{85}', '\U{2028}', '\U{2029}'}
  }

  function LowerChar(c: char): char {
    if IsUpper(c) then (c as int + 32) as char else c
  }

  function UpperChar(c: char): char {
    if IsLower(c) then (c as int - 32) as char else c
  }

  /** `s.lower()` */
  function Lower(s: string): (r: string)
    ensures |r| == |s|
  {
    seq(|s|, i requires 0 <= i < |s| => LowerChar(s[i]))
  }

  /** `s.upper()` */
  function Upper(s: string): (r: string)
    ensures |r| == |s|
  {
    seq(|s|, i requires 0 <= i < |s| => UpperChar(s[i]))
  }

  /** Lower-casing forgets whether the text was upper-cased first. */
  lemma LowerOfUpper(s: string)
    ensures Lower(Upper(s)) == Lower(s)
  {
    forall i | 0 <= i < |s| ensures Lower(Upper(s))[i] == Lower(s)[i] {
      assert Upper(s)[i] == UpperChar(s[i]);
    }
  }


  predicate OccursAt(s: string, sub: string, i: nat) {
    i + |sub| <= |s| && s[i..i + |sub|] == sub
  }

  /** Python's `sub in s`. */
  predicate Contains(s: string, sub: string) {
    exists i | 0 <= i <= |s| :: OccursAt(s, sub, i)
  }

  /** A substring of `s` lies in the text that `s` is part of. */
  lemma ContainsTransitive(t: string, s: string, sub: string)
    requires Contains(s, sub) && Contains(t, s)
    ensures Contains(t, sub)
  {
    var i :| 0 <= i <= |s| && OccursAt(s, sub, i);
    var j :| 0 <= j <= |t| && OccursAt(t, s, j);
    assert t[j..j + |s|] == s;
    forall k | 0 <= k < |sub| ensures t[j + i + k] == sub[k] {
      assert t[j + i + k] == t[j..j + |s|][i + k];
    }
    assert t[j + i..j + i + |sub|] == sub;
    assert OccursAt(t, sub, j + i);
  }

  /** Any piece of lower-cased text is itself lower-case. */
  lemma PieceOfLowerIsLower(s: string, w: string)
    requires Contains(Lower(s), w)
    ensures forall i | 0 <= i < |w| :: !IsUpper(w[i])
  {
    var j :| 0 <= j <= |Lower(s)| && OccursAt(Lower(s), w, j);
    forall i | 0 <= i < |w| ensures !IsUpper(w[i]) {
      assert w[i] == Lower(s)[j + i];
    }
  }

  /** `\b` at position `i` of `s`: a word character on exactly one side. */
  predicate BoundaryAt(s: string, i: nat)
    requires i <= |s|
  {
    (i > 0 && IsWordChar(s[i - 1])) != (i < |s| && IsWordChar(s[i]))
  }

  /** The end of the longest run of characters satisfying `cls` from `p`. */
  function RunEnd(s: string, p: nat, cls: char -> bool): (q: nat)
    requires p <= |s|
    ensures p <= q <= |s|
    ensures forall k | p <= k < q :: cls(s[k])
    ensures q == |s| || !cls(s[q])
    decreases |s| - p
  {
    if p < |s| && cls(s[p]) then RunEnd(s, p + 1, cls) else p
  }

  predicate AllDigits(s: string) {
    forall i | 0 <= i < |s| :: IsDigit(s[i])
  }

  /** `int(s)` for a string of decimal digits. */
  function DigitsValue(s: string): (n: nat)
    requires AllDigits(s)
  {
    if s == [] then 0
    else DigitsValue(s[..|s| - 1]) * 10 + (s[|s| - 1] as int - '0' as int)
  }

  /** No line-break character anywhere in `line`. */
  predicate BreakFree(line: string) {
    forall i | 0 <= i < |line| :: !IsLineBreak(line[i])
  }

  /** Where the line starting at `p` ends: at the first line break from
      `p`, or at the end of the text. */
  function LineEnd(s: string, p: nat): (q: nat)
    requires p <= |s|
    ensures p <= q <= |s|
    ensures forall i | p <= i < q :: !IsLineBreak(s[i])
    ensures q == |s| || IsLineBreak(s[q])
    decreases |s| - p
  {
    if p < |s| && !IsLineBreak(s[p]) then LineEnd(s, p + 1) else p
  }

  /** "\r\n" at `k`, which counts as a single break. */
  predicate CrLfAt(s: string, k: nat) {
    k + 1 < |s| && s[k] == '\r' && s[k + 1] == '\n'
  }

  /** Where the text after the break at `k` resumes. */
  function AfterBreak(s: string, k: nat): nat {
    if CrLfAt(s, k) then k + 2 else k + 1
  }

  /** `str.splitlines()`: a trailing line break does not start an empty line,
      and "\r\n" is one break. The lines, put back together, are the text
      without its line breaks, and each line occurs in the text. Joined with
      "\n" (and one more "\n" when the text ends in a break) they are the
      text read with universal newlines, and no other list of break-free
      lines is (`SplitLinesUnique`). */
  function SplitLines(s: string): (lines: seq<string>)
    ensures forall k | 0 <= k < |lines| :: BreakFree(lines[k])
    ensures s == [] <==> lines == []
    ensures Concat(lines) == DropBreaks(s)
    ensures forall k | 0 <= k < |lines| :: Contains(s, lines[k])
    ensures JoinLines(lines) + (if EndsInBreak(s) then "\n" else []) == Universal(s)
    decreases |s|
  {
    if s == [] then []
    else
      var k := LineEnd(s, 0);
      if k == |s| then
        OneLine(s);
        [s]
      else
        var rest := SplitLines(s[AfterBreak(s, k)..]);
        LinesStep(s, k, rest);
        [s[..k]] + rest
  }

  /** `"\n".join(lines)`. */
  function JoinLines(lines: seq<string>): string {
    if lines == [] then []
    else if |lines| == 1 then lines[0]
    else lines[0] + "\n" + JoinLines(lines[1..])
  }

  predicate EndsInBreak(s: string) {
    s != [] && IsLineBreak(s[|s| - 1])
  }

  /** The text read with universal newlines: "\r\n", and every other line
      break, becomes a single "\n". */
  function Universal(s: string): string
    decreases |s|
  {
    if s == [] then []
    else if CrLfAt(s, 0) then "\n" + Universal(s[2..])
    else [if IsLineBreak(s[0]) then '\n' else s[0]] + Universal(s[1..])
  }

  /** `lines` joined with nothing between them. */
  function Concat(lines: seq<string>): string {
    if lines == [] then [] else lines[0] + Concat(lines[1..])
  }

  /** The text with every line-break character removed. */
  function DropBreaks(s: string): string {
    if s == [] then [] else (if IsLineBreak(s[0]) then [] else [s[0]]) + DropBreaks(s[1..])
  }

  /** A text without breaks is one line. */
  lemma OneLine(s: string)
    requires BreakFree(s)
    ensures Concat([s]) == DropBreaks(s)
    ensures Contains(s, s)
    ensures !EndsInBreak(s) && JoinLines([s]) == Universal(s)
  {
    DropBreaksNone(s);
    UniversalNone(s);
    assert OccursAt(s, s, 0);
    assert Concat([s]) == s + Concat([]);
  }

  /** One line split off the front: the line, the break after it, and the
      lines of the rest. */
  lemma LinesStep(s: string, k: nat, rest: seq<string>)
    requires k < |s| && IsLineBreak(s[k])
    requires forall i | 0 <= i < k :: !IsLineBreak(s[i])
    requires forall j | 0 <= j < |rest| :: BreakFree(rest[j])
    requires s[AfterBreak(s, k)..] == [] <==> rest == []
    requires Concat(rest) == DropBreaks(s[AfterBreak(s, k)..])
    requires forall j | 0 <= j < |rest| :: Contains(s[AfterBreak(s, k)..], rest[j])
    requires JoinLines(rest) + (if EndsInBreak(s[AfterBreak(s, k)..]) then "\n" else [])
             == Universal(s[AfterBreak(s, k)..])
    ensures forall j | 0 <= j < |rest| + 1 :: BreakFree(([s[..k]] + rest)[j])
    ensures Concat([s[..k]] + rest) == DropBreaks(s)
    ensures forall j | 0 <= j < |rest| + 1 :: Contains(s, ([s[..k]] + rest)[j])
    ensures JoinLines([s[..k]] + rest) + (if EndsInBreak(s) then "\n" else []) == Universal(s)
  {
    LinesBreakFree(s, k, rest);
    LinesJoin(s, k, AfterBreak(s, k), rest);
    LinesUniversal(s, k, rest);
  }

  lemma LinesBreakFree(s: string, k: nat, rest: seq<string>)
    requires k <= |s| && forall i | 0 <= i < k :: !IsLineBreak(s[i])
    requires forall j | 0 <= j < |rest| :: BreakFree(rest[j])
    ensures forall j | 0 <= j < |rest| + 1 :: BreakFree(([s[..k]] + rest)[j])
  {
    var lines := [s[..k]] + rest;
    forall j | 0 <= j < |lines| ensures BreakFree(lines[j]) {
      if j > 0 {
        assert lines[j] == rest[j - 1];
      }
    }
  }

  /** The line and the lines after its break, joined without breaks and
      found in the text. */
  lemma LinesJoin(s: string, k: nat, next: nat, rest: seq<string>)
    requires k < |s| && IsLineBreak(s[k]) && next == AfterBreak(s, k)
    requires forall i | 0 <= i < k :: !IsLineBreak(s[i])
    requires Concat(rest) == DropBreaks(s[next..])
    requires forall j | 0 <= j < |rest| :: Contains(s[next..], rest[j])
    ensures Concat([s[..k]] + rest) == DropBreaks(s)
    ensures forall j | 0 <= j < |rest| + 1 :: Contains(s, ([s[..k]] + rest)[j])
  {
    BreakRun(s, k);
    DropBreaksOfLine(s, k, next);
    ConcatCons(s[..k], rest);
    LinesOccur(s, k, next, rest);
  }

  /** The break at `k` runs up to `AfterBreak(s, k)`. */
  lemma BreakRun(s: string, k: nat)
    requires k < |s| && IsLineBreak(s[k])
    ensures AfterBreak(s, k) <= |s|
    ensures forall i | k <= i < AfterBreak(s, k) :: IsLineBreak(s[i])
  {
  }

  lemma ConcatCons(line: string, rest: seq<string>)
    ensures Concat([line] + rest) == line + Concat(rest)
  {
    assert ([line] + rest)[1..] == rest;
  }

  /** The first line and the lines after its break all occur in the text. */
  lemma LinesOccur(s: string, k: nat, next: nat, rest: seq<string>)
    requires k <= next <= |s|
    requires forall j | 0 <= j < |rest| :: Contains(s[next..], rest[j])
    ensures forall j | 0 <= j < |rest| + 1 :: Contains(s, ([s[..k]] + rest)[j])
  {
    var lines := [s[..k]] + rest;
    assert OccursAt(s, s[..k], 0);
    SuffixLinesOccur(s, next, rest);
    forall j | 0 <= j < |lines| ensures Contains(s, lines[j]) {
      if j > 0 {
        assert lines[j] == rest[j - 1];
      }
    }
  }

  lemma {:induction false} DropBreaksAppend(a: string, b: string)
    ensures DropBreaks(a + b) == DropBreaks(a) + DropBreaks(b)
  {
    if a == [] {
      assert a + b == b;
    } else {
      assert (a + b)[1..] == a[1..] + b;
      DropBreaksAppend(a[1..], b);
    }
  }

  lemma {:induction false} DropBreaksNone(a: string)
    requires BreakFree(a)
    ensures DropBreaks(a) == a
  {
    if a != [] {
      DropBreaksNone(a[1..]);
    }
  }

  lemma {:induction false} DropBreaksAll(a: string)
    requires forall i | 0 <= i < |a| :: IsLineBreak(a[i])
    ensures DropBreaks(a) == []
  {
    if a != [] {
      DropBreaksAll(a[1..]);
    }
  }

  /** Removing the breaks from a line, its break and the rest keeps the
      line and what the rest keeps. */
  lemma DropBreaksOfLine(s: string, k: nat, next: nat)
    requires k < next <= |s|
    requires forall i | 0 <= i < k :: !IsLineBreak(s[i])
    requires forall i | k <= i < next :: IsLineBreak(s[i])
    ensures DropBreaks(s) == s[..k] + DropBreaks(s[next..])
  {
    var a, b, c := s[..k], s[k..next], s[next..];
    assert s[..next] == a + b;
    assert s == (a + b) + c;
    DropBreaksAppend(a + b, c);
    DropBreaksAppend(a, b);
    LineKept(s, k);
    BreakDropped(s, k, next);
    assert a + [] == a;
  }

  lemma LineKept(s: string, k: nat)
    requires k <= |s| && forall i | 0 <= i < k :: !IsLineBreak(s[i])
    ensures DropBreaks(s[..k]) == s[..k]
  {
    DropBreaksNone(s[..k]);
  }

  lemma BreakDropped(s: string, k: nat, next: nat)
    requires k <= next <= |s| && forall i | k <= i < next :: IsLineBreak(s[i])
    ensures DropBreaks(s[k..next]) == []
  {
    DropBreaksAll(s[k..next]);
  }

  lemma {:induction false} UniversalNone(a: string)
    requires BreakFree(a)
    ensures Universal(a) == a
  {
    if a != [] {
      assert !CrLfAt(a, 0);
      UniversalNone(a[1..]);
    }
  }

  /** A break-free start is kept as it is. */
  lemma {:induction false} UniversalOfPlainPrefix(a: string, t: string)
    requires BreakFree(a)
    ensures Universal(a + t) == a + Universal(t)
  {
    if a == [] {
      assert a + t == t;
    } else {
      assert (a + t)[0] == a[0] && !IsLineBreak(a[0]) && !CrLfAt(a + t, 0);
      assert Universal(a + t) == [a[0]] + Universal((a + t)[1..]);
      assert (a + t)[1..] == a[1..] + t;
      assert BreakFree(a[1..]);
      UniversalOfPlainPrefix(a[1..], t);
      assert a == [a[0]] + a[1..];
    }
  }

  /** A line, then its break, then the rest: the break becomes one "\n". */
  lemma UniversalOfLine(s: string, k: nat)
    requires k < |s| && IsLineBreak(s[k])
    requires forall i | 0 <= i < k :: !IsLineBreak(s[i])
    ensures Universal(s) == s[..k] + ("\n" + Universal(s[AfterBreak(s, k)..]))
  {
    var t, n := s[k..], AfterBreak(s, k);
    UniversalAfterLine(s, k);
    BreakStartsSuffix(s, k);
    UniversalAtBreak(t);
    assert Universal(t) == "\n" + Universal(s[n..]);
  }

  /** The line before `k` is kept as it is. */
  lemma UniversalAfterLine(s: string, k: nat)
    requires k <= |s|
    requires forall i | 0 <= i < k :: !IsLineBreak(s[i])
    ensures Universal(s) == s[..k] + Universal(s[k..])
  {
    assert s == s[..k] + s[k..];
    assert BreakFree(s[..k]);
    UniversalOfPlainPrefix(s[..k], s[k..]);
  }

  /** The text from the break at `k` starts with that break, and what
      follows the break is the same in both. */
  lemma BreakStartsSuffix(s: string, k: nat)
    requires k < |s| && IsLineBreak(s[k])
    ensures s[k..] != [] && IsLineBreak(s[k..][0])
    ensures s[k..][AfterBreak(s[k..], 0)..] == s[AfterBreak(s, k)..]
  {
    assert CrLfAt(s[k..], 0) == CrLfAt(s, k);
  }

  /** A break at the front becomes one "\n". */
  lemma UniversalAtBreak(t: string)
    requires t != [] && IsLineBreak(t[0])
    ensures Universal(t) == "\n" + Universal(t[AfterBreak(t, 0)..])
  {
  }

  /** One line split off the front keeps the universal-newline reading. */
  lemma LinesUniversal(s: string, k: nat, rest: seq<string>)
    requires k < |s| && IsLineBreak(s[k])
    requires forall i | 0 <= i < k :: !IsLineBreak(s[i])
    requires s[AfterBreak(s, k)..] == [] <==> rest == []
    requires JoinLines(rest) + (if EndsInBreak(s[AfterBreak(s, k)..]) then "\n" else [])
             == Universal(s[AfterBreak(s, k)..])
    ensures JoinLines([s[..k]] + rest) + (if EndsInBreak(s) then "\n" else []) == Universal(s)
  {
    var next := AfterBreak(s, k);
    UniversalOfLine(s, k);
    var lines := [s[..k]] + rest;
    if rest == [] {
      assert EndsInBreak(s) by {
        assert s[|s| - 1] == s[next - 1];
      }
    } else {
      assert lines[1..] == rest;
      assert EndsInBreak(s) == EndsInBreak(s[next..]) by {
        assert s[next..][|s[next..]| - 1] == s[|s| - 1];
      }
    }
  }

  /** The lines are the only break-free answer with that reading: any other
      list of break-free lines that rebuilds the same text is equal to them. */
  lemma SplitLinesUnique(s: string, other: seq<string>)
    requires forall k | 0 <= k < |other| :: BreakFree(other[k])
    requires s == [] <==> other == []
    requires JoinLines(other) + (if EndsInBreak(s) then "\n" else []) == Universal(s)
    ensures other == SplitLines(s)
  {
    var lines := SplitLines(s);
    if s != [] {
      var tail := if EndsInBreak(s) then "\n" else [];
      var u := Universal(s);
      assert JoinLines(other) == (JoinLines(other) + tail)[..|u| - |tail|] == u[..|u| - |tail|];
      assert JoinLines(lines) == (JoinLines(lines) + tail)[..|u| - |tail|] == u[..|u| - |tail|];
      JoinLinesInjective(other, lines);
    }
  }

  /** The length of the text up to its first "\n". */
  function UpToNewline(j: string): nat {
    if j == [] || j[0] == '\n' then 0 else 1 + UpToNewline(j[1..])
  }

  lemma {:induction false} UpToNewlineAfter(a: string, t: string)
    requires BreakFree(a)
    ensures UpToNewline(a + t) == |a| + UpToNewline(t)
  {
    if a != [] {
      assert (a + t)[0] == a[0] && (a + t)[1..] == a[1..] + t;
      UpToNewlineAfter(a[1..], t);
    } else {
      assert a + t == t;
    }
  }

  /** The first line of a join is where its first "\n" is; the rest of the
      join follows that "\n". */
  lemma FirstLineOfJoin(x: seq<string>)
    requires x != [] && BreakFree(x[0])
    ensures |x[0]| == UpToNewline(JoinLines(x))
    ensures JoinLines(x)[..|x[0]|] == x[0]
    ensures |x| == 1 <==> |JoinLines(x)| == |x[0]|
    ensures |x| > 1 ==> JoinLines(x)[|x[0]| + 1..] == JoinLines(x[1..])
  {
    if |x| > 1 {
      assert JoinLines(x) == x[0] + ("\n" + JoinLines(x[1..]));
      UpToNewlineAfter(x[0], "\n" + JoinLines(x[1..]));
    } else {
      assert JoinLines(x) == x[0] + [];
      UpToNewlineAfter(x[0], []);
    }
  }

  /** Joining break-free lines with "\n" loses nothing. */
  lemma {:induction false} JoinLinesInjective(x: seq<string>, y: seq<string>)
    requires x != [] && y != []
    requires forall k | 0 <= k < |x| :: BreakFree(x[k])
    requires forall k | 0 <= k < |y| :: BreakFree(y[k])
    requires JoinLines(x) == JoinLines(y)
    ensures x == y
    decreases |x|
  {
    FirstLineOfJoin(x);
    FirstLineOfJoin(y);
    if |x| > 1 {
      assert forall k | 0 <= k < |x| - 1 :: x[1..][k] == x[k + 1];
      assert forall k | 0 <= k < |y| - 1 :: y[1..][k] == y[k + 1];
      JoinLinesInjective(x[1..], y[1..]);
      assert x == [x[0]] + x[1..];
      assert y == [y[0]] + y[1..];
    }
  }

  lemma SuffixLinesOccur(s: string, next: nat, lines: seq<string>)
    requires next <= |s| && forall k | 0 <= k < |lines| :: Contains(s[next..], lines[k])
    ensures forall k | 0 <= k < |lines| :: Contains(s, lines[k])
  {
    assert OccursAt(s, s[next..], next);
    forall k | 0 <= k < |lines| ensures Contains(s, lines[k]) {
      ContainsTransitive(s, s[next..], lines[k]);
    }
  }

  /** `s.lstrip()`: only whitespace is removed, all of it up to the first
      other character. */
  function LStrip(s: string): (r: string)
    ensures r == [] || !IsSpace(r[0])
    ensures |r| <= |s| && r == s[|s| - |r|..]
    ensures forall i | 0 <= i < |s| - |r| :: IsSpace(s[i])
  {
    if s != [] && IsSpace(s[0]) then LStrip(s[1..]) else s
  }

  /** `s.rstrip()`: only whitespace is removed, all of it back to the last
      other character. */
  function RStrip(s: string): (r: string)
    ensures r == [] || !IsSpace(r[|r| - 1])
    ensures |r| <= |s| && r == s[..|r|]
    ensures forall i | |r| <= i < |s| :: IsSpace(s[i])
  {
    if s != [] && IsSpace(s[|s| - 1]) then RStrip(s[..|s| - 1]) else s
  }

  /** `r` is `s` with some whitespace removed from each end, and nothing
      else. */
  ghost predicate TrimmedOf(s: string, r: string) {
    exists i: nat ::
      && OccursAt(s, r, i)
      && (forall k | 0 <= k < i :: IsSpace(s[k]))
      && (forall k | i + |r| <= k < |s| :: IsSpace(s[k]))
  }

  /** `s.strip()`: `s` without its leading and trailing whitespace. */
  function Strip(s: string): (r: string)
    ensures r == [] || (!IsSpace(r[0]) && !IsSpace(r[|r| - 1]))
    ensures Contains(s, r)
    ensures TrimmedOf(s, r)
  {
    var l := LStrip(s);
    var r := RStrip(l);
    StripsCompose(s, l, r);
    r
  }

  /** Trimming the front and then the back of what is left trims both ends
      of `s`. */
  lemma StripsCompose(s: string, l: string, r: string)
    requires |l| <= |s| && l == s[|s| - |l|..]
    requires forall k | 0 <= k < |s| - |l| :: IsSpace(s[k])
    requires |r| <= |l| && r == l[..|r|]
    requires forall k | |r| <= k < |l| :: IsSpace(l[k])
    requires l == [] || !IsSpace(l[0])
    requires r == [] || !IsSpace(r[|r| - 1])
    ensures r == [] || (!IsSpace(r[0]) && !IsSpace(r[|r| - 1]))
    ensures Contains(s, r) && TrimmedOf(s, r)
  {
    assert r != [] ==> r[0] == l[0];
    var i := |s| - |l|;
    assert s[i..i + |r|] == r;
    assert OccursAt(s, r, i);
    forall k | i + |r| <= k < |s| ensures IsSpace(s[k]) {
      assert s[k] == l[k - i];
    }
  }
}
