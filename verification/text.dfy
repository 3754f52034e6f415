/** The pieces of Python's `str` behaviour that the persona evaluator relies on:
    the whitespace and digit classes of `str.isspace()` and of `\s`/`\d` in a
    `re` pattern, `strip`, `startswith`, `in`, `split`, `splitlines`, `join`,
    `replace`, the leftmost digit run a `re.search(r"(\d+)")` finds, `str(n)`
    for a natural number, and insertion-ordered de-duplication (the key order
    of a `dict`, the order of `pandas.unique`). */
module Text {

  datatype Option<T> = None | Some(value: T)

  /** `str.isspace()`, which is also the class `\s` of a `re` str pattern and
      the set `str.strip()` removes. */
  predicate IsSpace(c: char) {
    || ('\t' <= c <= '\r')
    || ('\U{1C}' <= c <= '\U{1F}')
    || c == ' ' || c == '\U{85}' || c == '\U{A0}' || c == '\U{1680}'
    || ('\U{2000}' <= c <= '\U{200A}')
    || c == '\U{2028}' || c == '\U{2029}' || c == '\U{202F}' || c == '\U{205F}'
    || c == '\U{3000}'
  }

  /** `\d` of a `re` str pattern: ASCII and fullwidth decimal digits. */
  predicate IsDigit(c: char) {
    ('0' <= c <= '9') || ('０' <= c <= '９')
  }

  /** `[:：]`: an ASCII or a fullwidth colon. */
  predicate IsColon(c: char) {
    c == ':' || c == '：'
  }

  /** The line boundaries `str.splitlines()` splits at. */
  predicate IsLineBreak(c: char) {
    || c == '\n' || c == '\r' || c == '\U{0B}' || c == '\U{0C}'
    || ('\U{1C}' <= c <= '\U{1E}')
    || c == '\U{85}' || c == '\U{2028}' || c == '\U{2029}'
  }

  predicate AllSpace(s: string) {
    forall k :: 0 <= k < |s| ==> IsSpace(s[k])
  }

  predicate NoLineBreak(s: string) {
    forall k :: 0 <= k < |s| ==> !IsLineBreak(s[k])
  }

  predicate AllDigits(s: string) {
    forall k :: 0 <= k < |s| ==> IsDigit(s[k])
  }

  /** A string `str.strip()` leaves as it is. */
  predicate IsStripped(s: string) {
    s == [] || (!IsSpace(s[0]) && !IsSpace(s[|s| - 1]))
  }

  predicate NoDup<T(==)>(xs: seq<T>) {
    forall i, j :: 0 <= i < j < |xs| ==> xs[i] != xs[j]
  }

  // ---------------------------------------------------------------------------
  // Scanning

  /** The end of the whitespace run that starts at `i` (a greedy `\s*`). */
  function SkipSpaces(s: string, i: nat): (j: nat)
    requires i <= |s|
    ensures i <= j <= |s|
    ensures forall k :: i <= k < j ==> IsSpace(s[k])
    ensures j < |s| ==> !IsSpace(s[j])
    decreases |s| - i
  {
    if i < |s| && IsSpace(s[i]) then SkipSpaces(s, i + 1) else i
  }

  /** A whitespace run from `i` that stops at `u` is the one `SkipSpaces` finds. */
  lemma SkipSpacesAt(s: string, i: nat, u: nat)
    requires i <= u <= |s|
    requires forall k :: i <= k < u ==> IsSpace(s[k])
    requires u < |s| ==> !IsSpace(s[u])
    ensures SkipSpaces(s, i) == u
  {
  }

  /** A character of the class `[-\s]`. */
  predicate IsDashOrSpace(c: char) {
    c == '-' || IsSpace(c)
  }

  predicate AllDashOrSpace(s: string) {
    forall k :: 0 <= k < |s| ==> IsDashOrSpace(s[k])
  }

  /** The end of the `[-\s]*` run that starts at `i`. */
  function SkipDashOrSpace(s: string, i: nat): (j: nat)
    requires i <= |s|
    ensures i <= j <= |s|
    ensures forall k :: i <= k < j ==> IsDashOrSpace(s[k])
    ensures j < |s| ==> !IsDashOrSpace(s[j])
    decreases |s| - i
  {
    if i < |s| && IsDashOrSpace(s[i]) then SkipDashOrSpace(s, i + 1) else i
  }

  /** The end of the digit run that starts at `i` (a greedy `\d*`). */
  function SkipDigits(s: string, i: nat): (j: nat)
    requires i <= |s|
    ensures i <= j <= |s|
    ensures forall k :: i <= k < j ==> IsDigit(s[k])
    ensures j < |s| ==> !IsDigit(s[j])
    decreases |s| - i
  {
    if i < |s| && IsDigit(s[i]) then SkipDigits(s, i + 1) else i
  }

  /** The start of the trailing whitespace of `s`. */
  function TrailingSpaceStart(s: string): (j: nat)
    ensures j <= |s|
    ensures forall k :: j <= k < |s| ==> IsSpace(s[k])
    ensures j > 0 ==> !IsSpace(s[j - 1])
  {
    if |s| > 0 && IsSpace(s[|s| - 1]) then TrailingSpaceStart(s[..|s| - 1]) else |s|
  }

  /** `s[i..j]` is what remains of `s` once whitespace-only ends are cut. */
  ghost predicate TrimmedFrom(s: string, r: string) {
    exists i, j :: 0 <= i <= j <= |s| && r == s[i..j] && AllSpace(s[..i]) && AllSpace(s[j..])
  }

  /** `str.strip()`. */
  function Strip(s: string): (r: string)
    ensures IsStripped(r)
    ensures TrimmedFrom(s, r)
    ensures r == [] <==> AllSpace(s)
  {
    var i := SkipSpaces(s, 0);
    var j := TrailingSpaceStart(s);
    if j <= i then
      assert forall k :: 0 <= k < |s| ==> IsSpace(s[k]);
      assert s[..|s|] == s && s[|s|..] == [];
      []
    else
      assert !IsSpace(s[j - 1]);
      assert AllSpace(s[..i]) && AllSpace(s[j..]);
      s[i..j]
  }

  /** A stripped string survives another strip unchanged. */
  lemma StripStripped(s: string)
    requires IsStripped(s)
    ensures Strip(s) == s
  {
    if s != [] {
      assert SkipSpaces(s, 0) == 0;
      assert TrailingSpaceStart(s) == |s|;
    }
  }

  lemma StripNoLineBreak(s: string)
    requires NoLineBreak(s)
    ensures NoLineBreak(Strip(s))
  {
    var i := SkipSpaces(s, 0);
    var j := TrailingSpaceStart(s);
    if i < j {
      var r := s[i..j];
      assert forall m :: i <= m < j ==> r[m - i] == s[m];
    }
  }

  function StartsWith(s: string, p: string): bool {
    |p| <= |s| && s[..|p|] == p
  }

  predicate OccursAt(s: string, p: string, i: nat) {
    i + |p| <= |s| && s[i..i + |p|] == p
  }

  /** The first position at or after `from` where `p` occurs (`str.find`). */
  function IndexOf(s: string, p: string, from: nat): (r: Option<nat>)
    requires from <= |s|
    ensures r.Some? ==> from <= r.value && OccursAt(s, p, r.value)
    ensures forall k :: from <= k && (r.None? || k < r.value) ==> !OccursAt(s, p, k)
    decreases |s| - from
  {
    if OccursAt(s, p, from) then Some(from)
    else if from + |p| >= |s| then None
    else IndexOf(s, p, from + 1)
  }

  /** Python's `p in s` for strings. */
  predicate Contains(s: string, p: string) {
    IndexOf(s, p, 0).Some?
  }

  lemma ContainsAt(s: string, p: string, i: nat)
    requires OccursAt(s, p, i)
    ensures Contains(s, p)
  {
  }

  /** An occurrence of a pattern without whitespace survives stripping. */
  lemma ContainsStrip(s: string, p: string)
    requires |p| > 0 && forall k :: 0 <= k < |p| ==> !IsSpace(p[k])
    requires Contains(s, p)
    ensures Contains(Strip(s), p)
  {
    var at := IndexOf(s, p, 0).value;
    var i := SkipSpaces(s, 0);
    var j := TrailingSpaceStart(s);
    OccurrenceInsideStrip(s, p, at);
    OccursInSlice(s, p, at, i, j);
    assert Strip(s) == s[i..j];
    ContainsAt(Strip(s), p, at - i);
  }

  lemma OccurrenceInsideStrip(s: string, p: string, at: nat)
    requires |p| > 0 && forall k :: 0 <= k < |p| ==> !IsSpace(p[k])
    requires OccursAt(s, p, at)
    ensures SkipSpaces(s, 0) <= at
    ensures at + |p| <= TrailingSpaceStart(s)
  {
    assert s[at] == p[0] && s[at + |p| - 1] == p[|p| - 1] by {
      assert s[at..at + |p|] == p;
    }
  }

  lemma OccursInSlice(s: string, p: string, at: nat, i: nat, j: nat)
    requires i <= at && at + |p| <= j <= |s|
    requires OccursAt(s, p, at)
    ensures OccursAt(s[i..j], p, at - i)
  {
    var t := s[i..j];
    assert forall m :: at <= m < at + |p| ==> t[m - i] == s[m];
    assert t[at - i..at - i + |p|] == s[at..at + |p|];
  }

  // ---------------------------------------------------------------------------
  // Splitting and joining

  /** `sep.join(xs)`. */
  function Join(xs: seq<string>, sep: string): string {
    if |xs| == 0 then ""
    else if |xs| == 1 then xs[0]
    else xs[0] + sep + Join(xs[1..], sep)
  }

  /** Index of the first `c` in `s`, or `|s|`. */
  function FindChar(s: string, c: char): (i: nat)
    ensures i <= |s|
    ensures i < |s| ==> s[i] == c
    ensures forall k :: 0 <= k < i ==> s[k] != c
  {
    if |s| == 0 then 0
    else if s[0] == c then 0
    else 1 + FindChar(s[1..], c)
  }

  /** `s.split(c)` for a one-character separator. */
  function Split(s: string, c: char): (r: seq<string>)
    ensures |r| >= 1
    ensures forall k :: 0 <= k < |r| ==> c !in r[k]
    decreases |s|
  {
    var i := FindChar(s, c);
    if i == |s| then [s] else [s[..i]] + Split(s[i + 1..], c)
  }

  /** Joining the pieces of a split gives back the original string. */
  lemma {:induction false} JoinSplit(s: string, c: char)
    ensures Join(Split(s, c), [c]) == s
    decreases |s|
  {
    var i := FindChar(s, c);
    if i < |s| {
      var rest := s[i + 1..];
      assert Split(s, c) == [s[..i]] + Split(rest, c);
      JoinSplit(rest, c);
      JoinCons(s[..i], Split(rest, c), [c]);
      assert s == s[..i] + [c] + rest;
    }
  }

  lemma JoinCons(x: string, xs: seq<string>, sep: string)
    requires |xs| >= 1
    ensures Join([x] + xs, sep) == x + sep + Join(xs, sep)
  {
    assert ([x] + xs)[1..] == xs;
  }

  /** Splitting a join gives back the pieces when none holds the separator. */
  lemma {:induction false} SplitJoin(xs: seq<string>, c: char)
    requires |xs| >= 1
    requires forall k :: 0 <= k < |xs| ==> c !in xs[k]
    ensures Split(Join(xs, [c]), c) == xs
  {
    if |xs| == 1 {
      assert FindChar(xs[0], c) == |xs[0]|;
    } else {
      var s := Join(xs, [c]);
      var tail := Join(xs[1..], [c]);
      assert xs == [xs[0]] + xs[1..];
      JoinCons(xs[0], xs[1..], [c]);
      assert s == xs[0] + [c] + tail;
      FindCharPrefix(xs[0], c, tail);
      assert s[..|xs[0]|] == xs[0];
      assert s[|xs[0]| + 1..] == tail;
      assert Split(s, c) == [xs[0]] + Split(tail, c);
      SplitJoin(xs[1..], c);
    }
  }

  lemma FindCharPrefix(a: string, c: char, b: string)
    requires c !in a
    ensures FindChar(a + [c] + b, c) == |a|
  {
    var s := a + [c] + b;
    assert forall k :: 0 <= k < |a| ==> s[k] == a[k];
    assert s[|a|] == c;
  }

  /** Length of the line boundary at `i` (`"\r\n"` counts as one). */
  function BreakLength(s: string, i: nat): nat
    requires i < |s|
  {
    if s[i] == '\r' && i + 1 < |s| && s[i + 1] == '\n' then 2 else 1
  }

  /** Index of the first line boundary in `s`, or `|s|`. */
  function FindLineBreak(s: string): (i: nat)
    ensures i <= |s|
    ensures i < |s| ==> IsLineBreak(s[i])
    ensures forall k :: 0 <= k < i ==> !IsLineBreak(s[k])
  {
    if |s| == 0 then 0
    else if IsLineBreak(s[0]) then 0
    else 1 + FindLineBreak(s[1..])
  }

  /** `s.splitlines()`: no trailing empty line, `"\r\n"` is one boundary. */
  function SplitLines(s: string): (r: seq<string>)
    ensures forall k :: 0 <= k < |r| ==> NoLineBreak(r[k])
    ensures s == [] <==> r == []
    decreases |s|
  {
    var i := FindLineBreak(s);
    if i == |s| then (if s == [] then [] else [s])
    else [s[..i]] + SplitLines(s[i + BreakLength(s, i)..])
  }

  /** On text whose only boundaries are `'\n'`, `splitlines()` is `split("\n")`
      without the empty piece a final newline leaves. */
  lemma {:induction false} SplitLinesAsSplit(s: string)
    requires OnlyNewlineBreaks(s)
    ensures s == [] ==> SplitLines(s) == []
    ensures s != [] && s[|s| - 1] == '\n' ==> SplitLines(s) + [""] == Split(s, '\n')
    ensures s != [] && s[|s| - 1] != '\n' ==> SplitLines(s) == Split(s, '\n')
    decreases |s|
  {
    if s != [] {
      var i := FindLineBreak(s);
      FindCharAsFindLineBreak(s);
      if i < |s| {
        var rest := SplitLinesStep(s);
        SplitLinesAsSplit(rest);
        if rest == [] {
          assert Split(rest, '\n') == [""];
        } else {
          assert rest[|rest| - 1] == s[|s| - 1];
          if s[|s| - 1] == '\n' {
            PrependBoth(s[..i], SplitLines(rest), Split(rest, '\n'));
          }
        }
      }
    }
  }

  /** One line of `SplitLinesAsSplit`: both splits cut at the first `'\n'`. */
  lemma SplitLinesStep(s: string) returns (rest: string)
    requires OnlyNewlineBreaks(s)
    requires FindLineBreak(s) < |s|
    ensures rest == s[FindLineBreak(s) + 1..]
    ensures OnlyNewlineBreaks(rest)
    ensures SplitLines(s) == [s[..FindLineBreak(s)]] + SplitLines(rest)
    ensures Split(s, '\n') == [s[..FindLineBreak(s)]] + Split(rest, '\n')
  {
    var i := FindLineBreak(s);
    FindCharAsFindLineBreak(s);
    rest := s[i + 1..];
    assert BreakLength(s, i) == 1;
    assert forall k :: i + 1 <= k < |s| ==> rest[k - (i + 1)] == s[k];
  }

  lemma PrependBoth(x: string, a: seq<string>, b: seq<string>)
    requires a + [""] == b
    ensures ([x] + a) + [""] == [x] + b
  {
  }

  predicate OnlyNewlineBreaks(s: string) {
    forall k :: 0 <= k < |s| && IsLineBreak(s[k]) ==> s[k] == '\n'
  }

  lemma FindCharAsFindLineBreak(s: string)
    requires OnlyNewlineBreaks(s)
    ensures FindChar(s, '\n') == FindLineBreak(s)
    ensures FindLineBreak(s) < |s| ==> s[FindLineBreak(s)] == '\n'
  {
    var i := FindLineBreak(s);
    assert forall k :: 0 <= k < i ==> s[k] != '\n';
  }

  /** `[l.strip() for l in s.splitlines() if l.strip()]`. */
  function NonBlankLines(s: string): (r: seq<string>)
    ensures forall k :: 0 <= k < |r| ==> r[k] != [] && IsStripped(r[k])
    ensures forall k :: 0 <= k < |r| ==> NoLineBreak(r[k])
  {
    StripNonBlank(SplitLines(s))
  }

  /** Strips every line and drops the ones that become empty. */
  function StripNonBlank(ls: seq<string>): (r: seq<string>)
    requires forall k :: 0 <= k < |ls| ==> NoLineBreak(ls[k])
    ensures |r| <= |ls|
    ensures forall k :: 0 <= k < |r| ==> r[k] != [] && IsStripped(r[k])
    ensures forall k :: 0 <= k < |r| ==> NoLineBreak(r[k])
  {
    if |ls| == 0 then []
    else
      var l := Strip(ls[0]);
      StripNoLineBreak(ls[0]);
      var rest := StripNonBlank(ls[1..]);
      if l == [] then rest else [l] + rest
  }

  // ---------------------------------------------------------------------------
  // Replacement

  /** `s.replace(p, q)` for a non-empty `p`: left-to-right, non-overlapping. */
  function ReplaceAll(s: string, p: string, q: string): (r: string)
    requires |p| > 0
    ensures (forall k: nat :: !OccursAt(s, p, k)) ==> r == s
    ensures |p| == 1 && p[0] !in q ==> p[0] !in r
    decreases |s|
  {
    if |s| < |p| then s
    else if s[..|p|] == p then
      assert OccursAt(s, p, 0);
      q + ReplaceAll(s[|p|..], p, q)
    else
      var rest := ReplaceAll(s[1..], p, q);
      assert (forall k: nat :: !OccursAt(s, p, k)) ==> forall k: nat :: !OccursAt(s[1..], p, k) by {
        forall k: nat | OccursAt(s[1..], p, k) ensures OccursAt(s, p, k + 1) {
          assert s[k + 1..k + 1 + |p|] == s[1..][k..k + |p|];
        }
      }
      [s[0]] + rest
  }

  /** `s.replace(p, "")`. */
  function RemoveAll(s: string, p: string): (r: string)
    requires |p| > 0
    ensures |r| <= |s|
    ensures (forall k: nat :: !OccursAt(s, p, k)) ==> r == s
  {
    RemoveAllShrinks(s, p);
    ReplaceAll(s, p, "")
  }

  /** Replacement only brings in characters of `q`. */
  lemma {:induction false} ReplaceAllChars(s: string, p: string, q: string, c: char)
    requires |p| > 0
    requires c in ReplaceAll(s, p, q)
    ensures c in s || c in q
    decreases |s|
  {
    if |s| >= |p| {
      if s[..|p|] == p {
        if c !in q {
          ReplaceAllChars(s[|p|..], p, q, c);
          assert forall k :: 0 <= k < |s| - |p| ==> s[|p|..][k] == s[|p| + k];
        }
      } else if c != s[0] {
        ReplaceAllChars(s[1..], p, q, c);
        assert forall k :: 0 <= k < |s| - 1 ==> s[1..][k] == s[1 + k];
      }
    }
  }

  /** Replacing a single character is splitting at it and joining with the
      replacement. */
  lemma {:induction false} ReplaceCharAsJoin(s: string, c: char, q: string)
    ensures ReplaceAll(s, [c], q) == Join(Split(s, c), q)
    decreases |s|
  {
    if |s| > 0 {
      var rest := s[1..];
      ReplaceCharAsJoin(rest, c, q);
      var pieces := Split(rest, c);
      if s[0] == c {
        assert s[..1] == [c];
        assert FindChar(s, c) == 0;
        JoinCons("", pieces, q);
      } else {
        assert s[..1] != [c];
        SplitNonSeparator(s, c);
        JoinPrefix([s[0]], pieces, q);
      }
    }
  }

  /** A split of a string that does not start with the separator: the first
      character joins the first piece. */
  lemma SplitNonSeparator(s: string, c: char)
    requires |s| > 0 && s[0] != c
    ensures Split(s, c) == [[s[0]] + Split(s[1..], c)[0]] + Split(s[1..], c)[1..]
  {
    var i := FindChar(s[1..], c);
    assert FindChar(s, c) == i + 1;
    if i < |s| - 1 {
      assert s[..i + 1] == [s[0]] + s[1..][..i];
      assert s[i + 2..] == s[1..][i + 1..];
    } else {
      assert s == [s[0]] + s[1..];
    }
  }

  lemma JoinPrefix(a: string, xs: seq<string>, sep: string)
    requires |xs| >= 1
    ensures Join([a + xs[0]] + xs[1..], sep) == a + Join(xs, sep)
  {
    var ys := [a + xs[0]] + xs[1..];
    if |xs| > 1 {
      assert ys[1..] == xs[1..];
    }
  }

  /** Removing a pattern cannot bring in a character. */
  lemma RemoveAllChars(s: string, p: string, c: char)
    requires |p| > 0
    requires c !in s
    ensures c !in RemoveAll(s, p)
  {
    if c in RemoveAll(s, p) {
      ReplaceAllChars(s, p, "", c);
    }
  }

  /** Stripping cannot bring in a character. */
  lemma StripChars(s: string, c: char)
    requires c !in s
    ensures c !in Strip(s)
  {
    var i, j :| 0 <= i <= j <= |s| && Strip(s) == s[i..j] && AllSpace(s[..i]) && AllSpace(s[j..]);
    assert forall k :: 0 <= k < j - i ==> s[i..j][k] == s[i + k];
  }

  lemma {:induction false} RemoveAllShrinks(s: string, p: string)
    requires |p| > 0
    ensures |ReplaceAll(s, p, "")| <= |s|
    decreases |s|
  {
    if |s| >= |p| {
      if s[..|p|] == p { RemoveAllShrinks(s[|p|..], p); }
      else { RemoveAllShrinks(s[1..], p); }
    }
  }

  // ---------------------------------------------------------------------------
  // Digits

  /** First digit at or after `from`, or `|s|`. */
  function FindDigit(s: string, from: nat): (i: nat)
    requires from <= |s|
    ensures from <= i <= |s|
    ensures i < |s| ==> IsDigit(s[i])
    ensures forall k :: from <= k < i ==> !IsDigit(s[k])
    decreases |s| - from
  {
    if from == |s| || IsDigit(s[from]) then from else FindDigit(s, from + 1)
  }

  /** The group `re.search(r"(\d+)", s)` captures: the leftmost maximal run of
      digits, or `""` when there is no digit. */
  /** `FindDigit` stops at the first digit from `from`. */
  lemma {:induction false} FindDigitAt(s: string, from: nat, i: nat)
    requires from <= i < |s| && IsDigit(s[i])
    requires forall k :: from <= k < i ==> !IsDigit(s[k])
    ensures FindDigit(s, from) == i
    decreases i - from
  {
    if from < i {
      FindDigitAt(s, from + 1, i);
    }
  }

  /** `SkipDigits` stops at the first non-digit from `i`. */
  lemma {:induction false} SkipDigitsAt(s: string, i: nat, j: nat)
    requires i <= j <= |s|
    requires forall k :: i <= k < j ==> IsDigit(s[k])
    requires j < |s| ==> !IsDigit(s[j])
    ensures SkipDigits(s, i) == j
    decreases j - i
  {
    if i < j {
      SkipDigitsAt(s, i + 1, j);
    }
  }

  function FirstDigitRun(s: string): (r: string)
    ensures AllDigits(r)
    ensures r == [] <==> forall k :: 0 <= k < |s| ==> !IsDigit(s[k])
    ensures r != [] ==> exists i :: LeftmostDigitRunAt(s, i, r)
  {
    var i := FindDigit(s, 0);
    var j := SkipDigits(s, i);
    assert i < |s| ==> LeftmostDigitRunAt(s, i, s[i..j]);
    s[i..j]
  }

  /** `r` is the digit run starting at `i`, no digit precedes `i`, and the run
      cannot be extended. */
  ghost predicate LeftmostDigitRunAt(s: string, i: nat, r: string) {
    && i + |r| <= |s|
    && s[i..i + |r|] == r
    && (forall k :: 0 <= k < i ==> !IsDigit(s[k]))
    && (i + |r| == |s| || !IsDigit(s[i + |r|]))
  }

  /** `str(n)` for a natural number. */
  function NatToDecimal(n: nat): (r: string)
    ensures |r| >= 1
    ensures forall k :: 0 <= k < |r| ==> '0' <= r[k] <= '9'
    ensures r[0] == '0' ==> n == 0
  {
    if n < 10 then [DigitChar(n)] else NatToDecimal(n / 10) + [DigitChar(n % 10)]
  }

  function DigitChar(d: nat): (c: char)
    requires d < 10
  {
    ['0', '1', '2', '3', '4', '5', '6', '7', '8', '9'][d]
  }

  /** The value of a string of ASCII digits (`int(s)`). */
  function DecimalValue(s: string): nat
    requires forall k :: 0 <= k < |s| ==> '0' <= s[k] <= '9'
  {
    if |s| == 0 then 0
    else 10 * DecimalValue(s[..|s| - 1]) + ((s[|s| - 1] as int) - ('0' as int))
  }

  /** `int(str(n)) == n`. */
  lemma {:induction false} DecimalRoundTrip(n: nat)
    ensures DecimalValue(NatToDecimal(n)) == n
  {
    if n < 10 {
      DigitCharValue(n);
      assert DecimalValue(NatToDecimal(n)) == 10 * DecimalValue([]) + n;
    } else {
      var init := NatToDecimal(n / 10);
      var s := init + [DigitChar(n % 10)];
      DecimalRoundTrip(n / 10);
      DigitCharValue(n % 10);
      assert s[..|s| - 1] == init;
      assert DecimalValue(s) == 10 * (n / 10) + n % 10;
    }
  }

  lemma DigitCharValue(d: nat)
    requires d < 10
    ensures (DigitChar(d) as int) - ('0' as int) == d
  {
  }

  lemma NatToDecimalInjective(a: nat, b: nat)
    requires NatToDecimal(a) == NatToDecimal(b)
    ensures a == b
  {
    DecimalRoundTrip(a);
    DecimalRoundTrip(b);
  }

  // ---------------------------------------------------------------------------
  // De-duplication in first-appearance order

  /** The distinct elements of `xs` in the order they first appear. */
  function Dedup(xs: seq<string>): (r: seq<string>)
    ensures NoDup(r)
    ensures forall x :: x in r <==> x in xs
  {
    if |xs| == 0 then []
    else
      var d := Dedup(xs[..|xs| - 1]);
      var x := xs[|xs| - 1];
      assert forall y :: y in xs <==> y in xs[..|xs| - 1] || y == x by {
        assert xs == xs[..|xs| - 1] + [x];
      }
      if x in d then d else d + [x]
  }

  /** Index of the first occurrence of `x` in `xs`. */
  function FirstIndex(xs: seq<string>, x: string): (i: nat)
    requires x in xs
    ensures i < |xs| && xs[i] == x
    ensures forall k :: 0 <= k < i ==> xs[k] != x
  {
    if xs[0] == x then 0 else 1 + FirstIndex(xs[1..], x)
  }

  /** `Dedup` lists the elements in order of their first appearance. */
  lemma {:induction false} DedupOrder(xs: seq<string>, a: nat, b: nat)
    requires a < b < |Dedup(xs)|
    ensures FirstIndex(xs, Dedup(xs)[a]) < FirstIndex(xs, Dedup(xs)[b])
  {
    var init := xs[..|xs| - 1];
    var x := xs[|xs| - 1];
    var d := Dedup(init);
    var r := Dedup(xs);
    assert xs == init + [x];
    FirstIndexPrefix(init, x, r[a]);
    if b < |d| {
      DedupOrder(init, a, b);
      FirstIndexPrefix(init, x, r[b]);
    } else {
      assert r[b] == x && x !in init;
      assert forall k :: 0 <= k < |init| ==> xs[k] == init[k];
    }
  }

  lemma FirstIndexPrefix(init: seq<string>, x: string, y: string)
    requires y in init
    ensures FirstIndex(init + [x], y) == FirstIndex(init, y)
  {
    var xs := init + [x];
    assert forall k :: 0 <= k < |init| ==> xs[k] == init[k];
  }
  // ---------------------------------------------------------------------------
  // Last and first elements with a property

  /** A left-to-right pass in which each element satisfying `P` replaces the
      value carried so far by `F` of that element. */
  function LastValue(xs: seq<string>, P: string -> bool, F: string -> string, d: string): string {
    if |xs| == 0 then d else LastValue(xs[1..], P, F, if P(xs[0]) then F(xs[0]) else d)
  }

  ghost predicate IsLastWhere(xs: seq<string>, P: string -> bool, i: int) {
    0 <= i < |xs| && P(xs[i]) && forall j :: i < j < |xs| ==> !P(xs[j])
  }

  ghost predicate IsFirstWhere(xs: seq<string>, P: string -> bool, i: int) {
    0 <= i < |xs| && P(xs[i]) && forall j :: 0 <= j < i ==> !P(xs[j])
  }

  /** The pass ends with `F` of the last element satisfying `P`, or with `d`. */
  lemma {:induction false} LastValueMeaning(xs: seq<string>, P: string -> bool, F: string -> string, d: string)
    ensures (forall i :: 0 <= i < |xs| ==> !P(xs[i])) ==> LastValue(xs, P, F, d) == d
    ensures forall i :: IsLastWhere(xs, P, i) ==> LastValue(xs, P, F, d) == F(xs[i])
  {
    if |xs| > 0 {
      var rest := xs[1..];
      var d' := if P(xs[0]) then F(xs[0]) else d;
      LastValueMeaning(rest, P, F, d');
      assert forall j :: 0 <= j < |rest| ==> rest[j] == xs[j + 1];
      forall i | IsLastWhere(xs, P, i)
        ensures LastValue(xs, P, F, d) == F(xs[i])
      {
        if i > 0 {
          assert IsLastWhere(rest, P, i - 1);
        } else {
          assert forall j :: 0 <= j < |rest| ==> !P(rest[j]);
        }
      }
    }
  }

  /** Some element satisfies `P` exactly when a last one does. */
  lemma {:induction false} LastWhereExists(xs: seq<string>, P: string -> bool) returns (i: nat)
    requires exists k :: 0 <= k < |xs| && P(xs[k])
    ensures IsLastWhere(xs, P, i)
  {
    var n := |xs| - 1;
    if P(xs[n]) {
      i := n;
    } else {
      var init := xs[..n];
      var k :| 0 <= k < |xs| && P(xs[k]);
      assert k < n && init[k] == xs[k];
      i := LastWhereExists(init, P);
      assert forall j :: i <= j < n ==> xs[j] == init[j];
    }
  }

  // ---------------------------------------------------------------------------
  // Keeping the present values of a sequence of options

  /** The values of the `Some` elements of `xs`, in order. */
  function Somes<T>(xs: seq<Option<T>>): seq<T> {
    if |xs| == 0 then []
    else Somes(xs[..|xs| - 1]) + (if xs[|xs| - 1].Some? then [xs[|xs| - 1].value] else [])
  }

  /** The positions of the `Some` elements of `xs`, in increasing order. */
  function SomeIndices<T>(xs: seq<Option<T>>): seq<nat> {
    if |xs| == 0 then []
    else SomeIndices(xs[..|xs| - 1]) + (if xs[|xs| - 1].Some? then [|xs| - 1] else [])
  }

  /** `Somes` keeps exactly the present values, in order: its `k`-th value is
      the one at the `k`-th present position, and every present position is
      one of those. */
  lemma {:induction false} SomesMeaning<T>(xs: seq<Option<T>>)
    ensures |SomeIndices(xs)| == |Somes(xs)| <= |xs|
    ensures forall k :: 0 <= k < |SomeIndices(xs)| ==> SomeIndices(xs)[k] < |xs|
    ensures forall a, b :: 0 <= a < b < |SomeIndices(xs)| ==> SomeIndices(xs)[a] < SomeIndices(xs)[b]
    ensures forall k :: 0 <= k < |SomeIndices(xs)| ==> xs[SomeIndices(xs)[k]] == Some(Somes(xs)[k])
    ensures forall i :: 0 <= i < |xs| && xs[i].Some? ==> i in SomeIndices(xs)
  {
    if |xs| > 0 {
      var init := xs[..|xs| - 1];
      SomesMeaning(init);
      assert forall i :: 0 <= i < |init| ==> xs[i] == init[i];
    }
  }

  // ---------------------------------------------------------------------------
  // The first element with a result

  /** A loop over `xs` that stops at the first element `f` gives a result
      for: its place and the result. */
  function FirstResult<T>(xs: seq<string>, f: string -> Option<T>): (r: Option<(nat, T)>)
    ensures r.Some? ==> r.value.0 < |xs| && f(xs[r.value.0]) == Some(r.value.1)
    ensures r.Some? ==> forall j :: 0 <= j < r.value.0 ==> f(xs[j]).None?
    ensures r.None? <==> forall j :: 0 <= j < |xs| ==> f(xs[j]).None?
  {
    if |xs| == 0 then None
    else match f(xs[0])
      case Some(v) => Some((0, v))
      case None =>
        var rest := FirstResult(xs[1..], f);
        assert forall j :: 0 < j < |xs| ==> xs[j] == xs[1..][j - 1];
        match rest
        case Some((j, v)) => Some((j + 1, v))
        case None => None
  }
}
