/** `extract_persona_names` of generate_pdf_report.py: a display name for each
    generated persona. The name is read from the first name label whose
    pattern is found (`名前`, then `氏名`). Failing that, it is read from the
    last colon of the persona's first line. Failing that too, it is
    `ペルソナ{idx}`, with `idx` counted from 1. */
module PersonaNames {
  import opened Text

  /** The labels tried when the caller gives none, in order. */
  const DefaultLabels: seq<string> := ["名前", "氏名"]
  const FallbackPrefix: string := "ペルソナ"

  /** `[^\n\(（\-]`: the characters of a labelled name. */
  predicate IsLabelNameChar(c: char) {
    c != '\n' && c != '(' && c != '（' && c != '-'
  }

  /** `[^\s（\(\-]`: the characters of a first-line name. */
  predicate IsLineNameChar(c: char) {
    !IsSpace(c) && c != '（' && c != '(' && c != '-'
  }

  /** A match of one of the two patterns. It starts at `at` (the label, or
      the colon of the first-line pattern), and its group is `s[start..end]`. */
  datatype Match = Match(at: nat, start: nat, end: nat)

  /** Python's backtracking preference between two matches of either
      pattern that start at the same place: first a longer `\s*`, then a
      longer group. */
  predicate Prefers(m: Match, m': Match) {
    m'.start < m.start || (m'.start == m.start && m'.end <= m.end)
  }

  // ---------------------------------------------------------------------------
  // rf"{re.escape(label)}[:：]\s*([^\n\(（\-]+)" with re.search

  /** The label pattern matches `s` as described by `m`. */
  ghost predicate LabelMatch(s: string, tag: string, m: Match) {
    && m.at + |tag| + 1 <= m.start < m.end <= |s|
    && s[m.at..m.at + |tag|] == tag && IsColon(s[m.at + |tag|])
    && (forall k :: m.at + |tag| + 1 <= k < m.start ==> IsSpace(s[k]))
    && (forall k :: m.start <= k < m.end ==> IsLabelNameChar(s[k]))
  }

  ghost predicate LabelFound(s: string, tag: string) {
    exists m :: LabelMatch(s, tag, m)
  }

  /** `m` is the match `re.search` reports. It starts leftmost. At that
      start it is the one backtracking tries first. */
  ghost predicate SearchedLabelMatch(s: string, tag: string, m: Match) {
    && LabelMatch(s, tag, m)
    && forall m' :: LabelMatch(s, tag, m') ==> m.at < m'.at || (m.at == m'.at && Prefers(m, m'))
  }

  /** The end of the run of label-name characters from `i`. */
  function LabelNameEnd(s: string, i: nat): (j: nat)
    requires i <= |s|
    ensures i <= j <= |s|
    ensures forall k :: i <= k < j ==> IsLabelNameChar(s[k])
    ensures j < |s| ==> !IsLabelNameChar(s[j])
    decreases |s| - i
  {
    if i < |s| && IsLabelNameChar(s[i]) then LabelNameEnd(s, i + 1) else i
  }

  /** `\s*` gives back characters, from `t` down to `c`, until the group can
      begin. Every whitespace character but `\n` can begin it. */
  function GroupStart(s: string, c: nat, t: nat): (r: Option<nat>)
    requires c <= t <= |s|
    ensures r.Some? ==> c <= r.value <= t && r.value < |s| && IsLabelNameChar(s[r.value])
    ensures forall u :: c <= u <= t && u < |s| && IsLabelNameChar(s[u]) ==> r.Some? && u <= r.value
    decreases t - c
  {
    if t < |s| && IsLabelNameChar(s[t]) then Some(t)
    else if t == c then None
    else GroupStart(s, c, t - 1)
  }

  /** The match the label pattern tries first at position `p`, if any. */
  function LabelMatchAt(s: string, tag: string, p: nat): (r: Option<Match>)
    requires p <= |s|
    ensures r.Some? ==> r.value.start < r.value.end <= |s|
  {
    var c := p + |tag| + 1;
    if c <= |s| && s[p..c - 1] == tag && IsColon(s[c - 1]) then
      match GroupStart(s, c, SkipSpaces(s, c))
      case Some(t) => Some(Match(p, t, LabelNameEnd(s, t)))
      case None => None
    else None
  }

  /** `re.search` from position `p` on. */
  function SearchLabel(s: string, tag: string, p: nat): (r: Option<Match>)
    requires p <= |s|
    ensures r.Some? ==> r.value.start < r.value.end <= |s|
    decreases |s| - p
  {
    match LabelMatchAt(s, tag, p)
    case Some(m) => Some(m)
    case None => if p == |s| then None else SearchLabel(s, tag, p + 1)
  }

  /** At `p` the scanner finds the match backtracking tries first, and finds
      nothing only when no match starts at `p`. */
  lemma LabelMatchAtMeaning(s: string, tag: string, p: nat)
    requires p <= |s|
    ensures LabelMatchAt(s, tag, p).Some? ==>
      var m := LabelMatchAt(s, tag, p).value;
      m.at == p && LabelMatch(s, tag, m)
      && forall m' :: LabelMatch(s, tag, m') && m'.at == p ==> Prefers(m, m')
    ensures LabelMatchAt(s, tag, p).None? ==>
      forall m' :: LabelMatch(s, tag, m') ==> m'.at != p
  {
    var c := p + |tag| + 1;
    forall m' | LabelMatch(s, tag, m') && m'.at == p
      ensures LabelMatchAt(s, tag, p).Some?
      ensures Prefers(LabelMatchAt(s, tag, p).value, m')
    {
      var t := SkipSpaces(s, c);
      assert IsLabelNameChar(s[m'.start]);
    }
  }

  /** `SearchLabel` from `p` finds the leftmost match at or after `p` that
      backtracking tries first, and nothing only when there is no match at
      or after `p`. */
  lemma {:induction false} SearchLabelMeaning(s: string, tag: string, p: nat)
    requires p <= |s|
    ensures SearchLabel(s, tag, p).Some? ==>
      var m := SearchLabel(s, tag, p).value;
      p <= m.at && LabelMatch(s, tag, m)
      && forall m' :: LabelMatch(s, tag, m') && p <= m'.at ==>
           m.at < m'.at || (m.at == m'.at && Prefers(m, m'))
    ensures SearchLabel(s, tag, p).None? ==>
      forall m' :: LabelMatch(s, tag, m') ==> m'.at < p
    decreases |s| - p
  {
    LabelMatchAtMeaning(s, tag, p);
    if LabelMatchAt(s, tag, p).None? {
      if p == |s| {
        forall m' | LabelMatch(s, tag, m') ensures m'.at < p {
        }
      } else {
        SearchLabelMeaning(s, tag, p + 1);
      }
    }
  }

  /** What `re.search` reports is what the scanner finds from the start. */
  lemma SearchFromStart(s: string, tag: string)
    ensures SearchLabel(s, tag, 0).None? <==> !LabelFound(s, tag)
    ensures SearchLabel(s, tag, 0).Some? ==> SearchedLabelMatch(s, tag, SearchLabel(s, tag, 0).value)
  {
    SearchLabelMeaning(s, tag, 0);
  }

  /** The `for label in name_label_patterns` loop: the stripped group of the
      first label whose pattern is found. */
  function LabelledName(s: string, labels: seq<string>): Option<string> {
    match FirstResult(labels, tag => SearchLabel(s, tag, 0))
    case Some((_, m)) => Some(Strip(s[m.start..m.end]))
    case None => None
  }

  /** The label loop finds a name exactly when some label's pattern is found.
      The name then comes from the first such label, in order, and from the
      match `re.search` reports for it. */
  lemma LabelledNameMeaning(s: string, labels: seq<string>)
    ensures LabelledName(s, labels).None? <==> forall j :: 0 <= j < |labels| ==> !LabelFound(s, labels[j])
    ensures LabelledName(s, labels).Some? ==>
      exists j, m ::
        && 0 <= j < |labels|
        && (forall j' :: 0 <= j' < j ==> !LabelFound(s, labels[j']))
        && SearchedLabelMatch(s, labels[j], m)
        && LabelledName(s, labels).value == Strip(s[m.start..m.end])
  {
    forall j | 0 <= j < |labels| ensures SearchLabel(s, labels[j], 0).None? <==> !LabelFound(s, labels[j]) {
      SearchFromStart(s, labels[j]);
    }
    var r := FirstResult(labels, tag => SearchLabel(s, tag, 0));
    if r.Some? {
      SearchFromStart(s, labels[r.value.0]);
    }
  }

  /** A labelled name is stripped and holds none of the characters the group
      excludes. */
  lemma LabelledNameShape(s: string, labels: seq<string>)
    requires LabelledName(s, labels).Some?
    ensures var n := LabelledName(s, labels).value;
      IsStripped(n) && '\n' !in n && '(' !in n && '（' !in n && '-' !in n
  {
    var j, m := LabelledNameFrom(s, labels);
    SearchLabelMeaning(s, labels[j], 0);
    GroupChars(s, labels[j], m);
    StrippedGroupShape(s[m.start..m.end]);
  }

  /** The group of a label match is made of label-name characters. */
  lemma GroupChars(s: string, tag: string, m: Match)
    requires LabelMatch(s, tag, m)
    ensures forall k :: 0 <= k < |s[m.start..m.end]| ==> IsLabelNameChar(s[m.start..m.end][k])
  {
    assert forall k :: 0 <= k < m.end - m.start ==> s[m.start..m.end][k] == s[m.start + k];
  }

  lemma StrippedGroupShape(g: string)
    requires forall k :: 0 <= k < |g| ==> IsLabelNameChar(g[k])
    ensures var n := Strip(g);
      IsStripped(n) && '\n' !in n && '(' !in n && '（' !in n && '-' !in n
  {
    StripChars(g, '\n');
    StripChars(g, '(');
    StripChars(g, '（');
    StripChars(g, '-');
  }

  /** A labelled name is the stripped group of some label's search: label
      `j`, match `m`. */
  lemma LabelledNameFrom(s: string, labels: seq<string>) returns (j: nat, m: Match)
    requires LabelledName(s, labels).Some?
    ensures j < |labels| && SearchLabel(s, labels[j], 0) == Some(m)
    ensures LabelledName(s, labels) == Some(Strip(s[m.start..m.end]))
  {
    var r := FirstResult(labels, tag => SearchLabel(s, tag, 0));
    j, m := r.value.0, r.value.1;
  }

  // ---------------------------------------------------------------------------
  // re.match(r".*[:：]\s*([^\s（\(\-]+)", persona.split('\n')[0])

  /** The persona's first line. */
  function FirstLine(persona: string): (line: string)
    ensures '\n' !in line
  {
    Split(persona, '\n')[0]
  }

  /** The first-line pattern matches `line` with its colon at `m.at`. */
  ghost predicate LineMatch(line: string, m: Match) {
    && m.at < m.start < m.end <= |line|
    && (forall k :: 0 <= k < m.at ==> line[k] != '\n')
    && IsColon(line[m.at])
    && (forall k :: m.at + 1 <= k < m.start ==> IsSpace(line[k]))
    && (forall k :: m.start <= k < m.end ==> IsLineNameChar(line[k]))
  }

  /** `m` is the match `re.match` reports: the greedy `.*` puts the colon as
      far right as a match allows, and then backtracking prefers as before. */
  ghost predicate MatchedLine(line: string, m: Match) {
    && LineMatch(line, m)
    && forall m' :: LineMatch(line, m') ==> m'.at < m.at || (m'.at == m.at && Prefers(m, m'))
  }

  /** The end of the run of first-line-name characters from `i`. */
  function LineNameEnd(s: string, i: nat): (j: nat)
    requires i <= |s|
    ensures i <= j <= |s|
    ensures forall k :: i <= k < j ==> IsLineNameChar(s[k])
    ensures j < |s| ==> !IsLineNameChar(s[j])
    decreases |s| - i
  {
    if i < |s| && IsLineNameChar(s[i]) then LineNameEnd(s, i + 1) else i
  }

  /** The match with the colon furthest right before position `n`. The group
      cannot begin with whitespace, so `\s*` never gives a character back. */
  function LineMatchBefore(line: string, n: nat): (r: Option<Match>)
    requires n <= |line|
    ensures r.Some? ==> r.value.start < r.value.end <= |line|
  {
    if n == 0 then None
    else
      var t := SkipSpaces(line, n);
      if IsColon(line[n - 1]) && t < |line| && IsLineNameChar(line[t]) then Some(Match(n - 1, t, LineNameEnd(line, t)))
      else LineMatchBefore(line, n - 1)
  }

  /** Below `n` the scanner finds the match `re.match` tries first, and
      nothing only when no match has its colon before `n`. */
  lemma {:induction false} LineMatchBeforeMeaning(line: string, n: nat)
    requires n <= |line| && '\n' !in line
    ensures LineMatchBefore(line, n).Some? ==>
      var m := LineMatchBefore(line, n).value;
      m.at < n && LineMatch(line, m)
      && forall m' :: LineMatch(line, m') && m'.at < n ==> m'.at < m.at || (m'.at == m.at && Prefers(m, m'))
    ensures LineMatchBefore(line, n).None? ==> forall m' :: LineMatch(line, m') ==> m'.at >= n
  {
    if n > 0 {
      var t := SkipSpaces(line, n);
      forall m' | LineMatch(line, m') && m'.at == n - 1
        ensures IsColon(line[n - 1]) && t < |line| && IsLineNameChar(line[t])
        ensures m'.start == t && m'.end <= LineNameEnd(line, t)
      {
        SkipSpacesAt(line, n, m'.start);
      }
      if !(IsColon(line[n - 1]) && t < |line| && IsLineNameChar(line[t])) {
        LineMatchBeforeMeaning(line, n - 1);
      } else {
        var m := Match(n - 1, t, LineNameEnd(line, t));
        assert forall k :: 0 <= k < m.at ==> line[k] != '\n';
        assert LineMatch(line, m);
      }
    }
  }

  /** A first-line name is non-empty, already stripped, and holds no
      whitespace, `（`, `(` or `-`. */
  lemma LineNameShape(line: string, m: Match)
    requires LineMatch(line, m)
    ensures var g := line[m.start..m.end];
      g != [] && Strip(g) == g && forall k :: 0 <= k < |g| ==> IsLineNameChar(g[k])
  {
    var g := line[m.start..m.end];
    assert forall k :: 0 <= k < |g| ==> g[k] == line[m.start + k];
    StripStripped(g);
  }

  // ---------------------------------------------------------------------------
  // The names

  /** The name of the persona numbered `idx`. */
  function PersonaName(persona: string, idx: nat, labels: seq<string>): string {
    match LabelledName(persona, labels)
    case Some(n) => n
    case None =>
      var line := FirstLine(persona);
      match LineMatchBefore(line, |line|)
      case Some(m) => Strip(line[m.start..m.end])
      case None => FallbackPrefix + NatToDecimal(idx)
  }

  /** `extract_persona_names`: one name per persona, in the same order. The
      persona at position `i` is numbered `i + 1` for the fallback name. */
  function ExtractPersonaNames(personas: seq<string>, labels: seq<string>): (r: seq<string>)
    ensures |r| == |personas|
    ensures forall i :: 0 <= i < |r| ==> r[i] == PersonaName(personas[i], i + 1, labels)
  {
    Numbered(personas, (persona: string, idx: nat) => PersonaName(persona, idx, labels))
  }

  /** The loop `for idx, persona in enumerate(personas, start=1)` appending
      `f(persona, idx)`. */
  function Numbered(personas: seq<string>, f: (string, nat) -> string): (r: seq<string>)
    ensures |r| == |personas|
    ensures forall i :: 0 <= i < |r| ==> r[i] == f(personas[i], i + 1)
  {
    if |personas| == 0 then []
    else
      var init := personas[..|personas| - 1];
      assert forall i :: 0 <= i < |init| ==> init[i] == personas[i];
      Numbered(init, f) + [f(personas[|personas| - 1], |personas|)]
  }

  /** The three ways a persona gets its name. (1) When some label's pattern
      is found, the name is the stripped group of the match `re.search`
      reports for the first such label, in the order given; it holds no
      `\n`, `(`, `（` or `-`. (2) When no label is found but the first-line
      pattern matches, the name is the group of the match `re.match`
      reports, which is non-empty and holds no whitespace, `（`, `(` or `-`.
      (3) Otherwise the name is `ペルソナ` followed by the persona's number. */
  lemma PersonaNameMeaning(persona: string, idx: nat, labels: seq<string>)
    ensures var name := PersonaName(persona, idx, labels);
      (exists j :: 0 <= j < |labels| && LabelFound(persona, labels[j])) ==>
        && IsStripped(name) && '\n' !in name && '(' !in name && '（' !in name && '-' !in name
        && exists j, m ::
             && 0 <= j < |labels|
             && (forall j' :: 0 <= j' < j ==> !LabelFound(persona, labels[j']))
             && SearchedLabelMatch(persona, labels[j], m)
             && name == Strip(persona[m.start..m.end])
    ensures var name := PersonaName(persona, idx, labels);
      (forall j :: 0 <= j < |labels| ==> !LabelFound(persona, labels[j])) ==>
        && ((exists m :: LineMatch(FirstLine(persona), m)) ==>
              exists m :: MatchedLine(FirstLine(persona), m) && name == FirstLine(persona)[m.start..m.end]
                && name != [] && forall k :: 0 <= k < |name| ==> IsLineNameChar(name[k]))
        && ((forall m :: !LineMatch(FirstLine(persona), m)) ==> name == FallbackPrefix + NatToDecimal(idx))
  {
    LabelledNameMeaning(persona, labels);
    if LabelledName(persona, labels).Some? {
      LabelledNameShape(persona, labels);
    } else {
      var line := FirstLine(persona);
      LineMatchBeforeMeaning(line, |line|);
      if LineMatchBefore(line, |line|).Some? {
        LineNameShape(line, LineMatchBefore(line, |line|).value);
      }
    }
  }
}
