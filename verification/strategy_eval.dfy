/** `parse_strategy_eval_block` of generate_pdf_report.py. It reads the model's
    multi-axis evaluation of a business idea into table rows: an axis, a score
    in points, and a reason. Only a non-blank line that mentions one of the
    five axes can give a row, and it gives at most one. */
module StrategyEval {
  import opened Text

  const Axes: seq<string> := ["市場性", "競争優位性", "収益性", "実現可能性", "成長性"]
  const PointSuffix: string := "点"

  /** One row of the strategy table: `[axis, f"{score}点", reason]`. */
  datatype StrategyRow = StrategyRow(axis: string, score: string, reason: string)

  /** `any(axis in line for axis in [...])`. */
  predicate MentionsAxis(line: string) {
    exists k :: 0 <= k < |Axes| && Contains(line, Axes[k])
  }

  /** A score cell: a non-empty run of digits followed by `点`. */
  predicate IsPointScore(s: string) {
    |s| >= 2 && s[|s| - 1] == '点' && AllDigits(s[..|s| - 1])
  }

  // ---------------------------------------------------------------------------
  // re.match(r'[-\s]*([^\s]+)\s*(\d+)点?[:：]?\s*(.*)', line)

  /** Where the parts of a match of the row pattern begin and end: group 1
      is `l[axisStart..axisEnd]`, group 2 `l[scoreStart..scoreEnd]`, and
      group 3 runs from `reasonStart` to the end of the line. */
  datatype Parts = Parts(axisStart: nat, axisEnd: nat, scoreStart: nat, scoreEnd: nat, reasonStart: nat)

  /** `点?[:：]?\s*` matches the whole of `u`. */
  ghost predicate IsScoreGlue(u: string) {
    || AllSpace(u)
    || (|u| > 0 && (u[0] == '点' || IsColon(u[0])) && AllSpace(u[1..]))
    || (|u| > 1 && u[0] == '点' && IsColon(u[1]) && AllSpace(u[2..]))
  }

  /** The row pattern matches the line `l` as `p` describes. The line holds
      no `\n`, so `(.*)` takes the rest of it. */
  ghost predicate RowMatch(l: string, p: Parts) {
    && p.axisStart < p.axisEnd <= p.scoreStart < p.scoreEnd <= p.reasonStart <= |l|
    && (forall k :: 0 <= k < p.axisStart ==> IsDashOrSpace(l[k]))
    && (forall k :: p.axisStart <= k < p.axisEnd ==> !IsSpace(l[k]))
    && (forall k :: p.axisEnd <= k < p.scoreStart ==> IsSpace(l[k]))
    && (forall k :: p.scoreStart <= k < p.scoreEnd ==> IsDigit(l[k]))
    && IsScoreGlue(l[p.scoreEnd..p.reasonStart])
  }

  ghost predicate CanMatch(l: string) {
    exists p :: RowMatch(l, p)
  }

  /** Backtracking tries group 1 starting as late as possible, and at that
      start ending as late as possible. */
  predicate TriedFirst(p: Parts, p': Parts) {
    p'.axisStart < p.axisStart || (p'.axisStart == p.axisStart && p'.axisEnd <= p.axisEnd)
  }

  /** The end of the run of non-whitespace characters that starts at `i`. */
  function NonSpaceEnd(s: string, i: nat): (j: nat)
    requires i <= |s|
    ensures i <= j <= |s|
    ensures forall k :: i <= k < j ==> !IsSpace(s[k])
    ensures j < |s| ==> IsSpace(s[j])
    decreases |s| - i
  {
    if i < |s| && !IsSpace(s[i]) then NonSpaceEnd(s, i + 1) else i
  }

  /** The greedy `点?[:：]?\s*` from `d`. */
  function GlueEnd(l: string, d: nat): (g: nat)
    requires d <= |l|
    ensures d <= g <= |l|
    ensures IsScoreGlue(l[d..g])
  {
    var e := if d < |l| && l[d] == '点' then d + 1 else d;
    var f := if e < |l| && IsColon(l[e]) then e + 1 else e;
    var g := SkipSpaces(l, f);
    var u := l[d..g];
    assert u[f - d..] == l[f..g];
    SpaceRun(l, f, g);
    assert f > d ==> u[0] == l[d];
    assert f == d + 2 ==> u[1] == l[d + 1];
    g
  }

  lemma SpaceRun(l: string, f: nat, g: nat)
    requires f <= g <= |l|
    requires forall k :: f <= k < g ==> IsSpace(l[k])
    ensures AllSpace(l[f..g])
  {
    assert forall k :: 0 <= k < g - f ==> l[f..g][k] == l[f + k];
  }

  /** What the scanner takes after group 1: the whole digit run for `\d+`,
      and the greedy glue after it. */
  predicate WholeTail(l: string, p: Parts)
    requires p.scoreEnd <= |l|
  {
    && (p.scoreEnd == |l| || !IsDigit(l[p.scoreEnd]))
    && p.reasonStart == GlueEnd(l, p.scoreEnd)
  }

  /** `\d+` and `点?[:：]?\s*` are greedy, and `(.*)` after them matches
      whatever is left, so nothing makes them give characters back: the
      reported match takes the whole digit run and the longest glue. */
  ghost predicate GreedyTail(l: string, p: Parts)
    requires p.scoreEnd <= p.reasonStart <= |l|
  {
    && (p.scoreEnd == |l| || !IsDigit(l[p.scoreEnd]))
    && forall g :: p.scoreEnd <= g <= |l| && IsScoreGlue(l[p.scoreEnd..g]) ==> g <= p.reasonStart
  }

  /** A run of whitespace from `f` ends at or before the end `SkipSpaces`
      finds. */
  lemma SpaceBound(l: string, f: nat, g: nat)
    requires f <= g <= |l|
    requires forall k :: f <= k < g ==> IsSpace(l[k])
    ensures g <= SkipSpaces(l, f)
  {
  }

  /** `GlueEnd` finds the longest glue. */
  lemma GlueLongest(l: string, d: nat, g: nat)
    requires d <= g <= |l| && IsScoreGlue(l[d..g])
    ensures g <= GlueEnd(l, d)
  {
    var u := l[d..g];
    if AllSpace(u) {
      assert forall k :: d <= k < g ==> u[k - d] == l[k];
      GlueOfSpaces(l, d, g);
    } else if |u| > 1 && u[0] == '点' && IsColon(u[1]) && AllSpace(u[2..]) {
      assert forall k :: d + 2 <= k < g ==> u[2..][k - d - 2] == l[k];
      GlueOfPointColon(l, d, g);
    } else {
      assert forall k :: d + 1 <= k < g ==> u[1..][k - d - 1] == l[k];
      GlueOfOneMark(l, d, g);
    }
  }

  lemma GlueOfSpaces(l: string, d: nat, g: nat)
    requires d <= g <= |l|
    requires forall k :: d <= k < g ==> IsSpace(l[k])
    ensures g <= GlueEnd(l, d)
  {
    if g > d {
      SpaceBound(l, d, g);
    }
  }

  lemma GlueOfOneMark(l: string, d: nat, g: nat)
    requires d < g <= |l| && (l[d] == '点' || IsColon(l[d]))
    requires forall k :: d + 1 <= k < g ==> IsSpace(l[k])
    ensures g <= GlueEnd(l, d)
  {
    if l[d] == '点' && g > d + 1 {
      assert IsSpace(l[d + 1]);
    }
    SpaceBound(l, d + 1, g);
  }

  lemma GlueOfPointColon(l: string, d: nat, g: nat)
    requires d + 1 < g <= |l| && l[d] == '点' && IsColon(l[d + 1])
    requires forall k :: d + 2 <= k < g ==> IsSpace(l[k])
    ensures g <= GlueEnd(l, d)
  {
    SpaceBound(l, d + 2, g);
  }

  /** Group 1 starts at `a` and gives back characters from `b` down. The
      `\s*` after it takes the whitespace run that follows; giving any of it
      back would leave `\d+` facing whitespace. The rest of the pattern can
      always match once a digit follows. */
  function TryAxisEnd(l: string, a: nat, b: nat): (r: Option<Parts>)
    requires a <= b <= |l|
    ensures r.Some? ==> r.value.axisStart == a < r.value.axisEnd <= b
    ensures r.Some? ==> r.value.axisEnd <= r.value.scoreStart < r.value.scoreEnd <= r.value.reasonStart <= |l|
    ensures r.Some? ==> WholeTail(l, r.value)
    decreases b - a
  {
    if b == a then None
    else
      var c := SkipSpaces(l, b);
      if c < |l| && IsDigit(l[c]) then
        var d := SkipDigits(l, c);
        Some(Parts(a, b, c, d, GlueEnd(l, d)))
      else TryAxisEnd(l, a, b - 1)
  }

  /** `[-\s]*` gives back characters from `a` down, and group 1 is tried at
      each start in turn. */
  function TryAxisStart(l: string, a: nat): (r: Option<Parts>)
    requires a <= |l|
    ensures r.Some? ==> r.value.axisStart <= a
    ensures r.Some? ==> r.value.axisStart < r.value.axisEnd <= r.value.scoreStart < r.value.scoreEnd <= r.value.reasonStart <= |l|
    ensures r.Some? ==> WholeTail(l, r.value)
    decreases a
  {
    match TryAxisEnd(l, a, NonSpaceEnd(l, a))
    case Some(p) => Some(p)
    case None => if a == 0 then None else TryAxisStart(l, a - 1)
  }

  /** The match `re.match` finds on `l`, if there is one. */
  function MatchParts(l: string): (r: Option<Parts>)
    ensures r.Some? ==> r.value.axisStart < r.value.axisEnd <= r.value.scoreStart < r.value.scoreEnd <= r.value.reasonStart <= |l|
    ensures r.Some? ==> WholeTail(l, r.value)
  {
    TryAxisStart(l, SkipDashOrSpace(l, 0))
  }

  /** The row that a match of `l` gives. */
  function RowOf(l: string, p: Parts): StrategyRow
    requires p.axisStart <= p.axisEnd <= p.scoreStart <= p.scoreEnd <= p.reasonStart <= |l|
  {
    StrategyRow(l[p.axisStart..p.axisEnd], l[p.scoreStart..p.scoreEnd] + PointSuffix, l[p.reasonStart..])
  }

  /** Trying group 1 at `a`, ending at `b` or earlier, finds the match that
      ends latest, and finds nothing only when there is no such match. */
  lemma {:induction false} TryAxisEndMeaning(l: string, a: nat, b: nat)
    requires a <= b <= |l|
    requires forall k :: 0 <= k < a ==> IsDashOrSpace(l[k])
    requires forall k :: a <= k < b ==> !IsSpace(l[k])
    ensures TryAxisEnd(l, a, b).Some? ==> RowMatch(l, TryAxisEnd(l, a, b).value)
    ensures forall p' :: RowMatch(l, p') && p'.axisStart == a && p'.axisEnd <= b ==>
      TryAxisEnd(l, a, b).Some? && p'.axisEnd <= TryAxisEnd(l, a, b).value.axisEnd
    decreases b - a
  {
    if b > a {
      var c := SkipSpaces(l, b);
      forall p' | RowMatch(l, p') && p'.axisStart == a && p'.axisEnd == b
        ensures c < |l| && IsDigit(l[c])
      {
        assert IsDigit(l[p'.scoreStart]);
        SkipSpacesAt(l, b, p'.scoreStart);
      }
      if !(c < |l| && IsDigit(l[c])) {
        TryAxisEndMeaning(l, a, b - 1);
      }
    }
  }

  /** Trying starts from `a` down finds the match backtracking tries first
      among those starting at `a` or earlier, and finds nothing only when
      there is none. */
  lemma {:induction false} TryAxisStartMeaning(l: string, a: nat)
    requires a <= |l|
    requires forall k :: 0 <= k < a ==> IsDashOrSpace(l[k])
    ensures TryAxisStart(l, a).Some? ==> RowMatch(l, TryAxisStart(l, a).value)
    ensures forall p' :: RowMatch(l, p') && p'.axisStart <= a ==>
      TryAxisStart(l, a).Some? && TriedFirst(TryAxisStart(l, a).value, p')
    decreases a
  {
    var e := NonSpaceEnd(l, a);
    TryAxisEndMeaning(l, a, e);
    forall p' | RowMatch(l, p') && p'.axisStart == a ensures p'.axisEnd <= e {
    }
    if TryAxisEnd(l, a, e).None? && a > 0 {
      TryAxisStartMeaning(l, a - 1);
    }
  }

  /** The match `re.match` reports: it matches, backtracking tries its
      group 1 before that of every other match, and it takes the whole
      digit run and the longest glue. */
  ghost predicate ReportedMatch(l: string, p: Parts) {
    && RowMatch(l, p)
    && (forall p' :: RowMatch(l, p') ==> TriedFirst(p, p'))
    && GreedyTail(l, p)
  }

  /** Only one match is the reported one, so the row a line gives is fixed. */
  lemma ReportedMatchUnique(l: string, p: Parts, q: Parts)
    requires ReportedMatch(l, p) && ReportedMatch(l, q)
    ensures p == q
  {
    assert p.axisStart == q.axisStart && p.axisEnd == q.axisEnd;
    SpaceRunEnd(l, p.axisEnd, p.scoreStart, q.scoreStart);
    DigitRunEnd(l, p.scoreStart, p.scoreEnd, q.scoreEnd);
    assert p.reasonStart <= q.reasonStart && q.reasonStart <= p.reasonStart;
  }

  /** Two runs of whitespace from `a`, each followed by a digit, end at the
      same place. */
  lemma SpaceRunEnd(l: string, a: nat, b: nat, c: nat)
    requires a <= b < |l| && a <= c < |l|
    requires forall k :: a <= k < b ==> IsSpace(l[k])
    requires forall k :: a <= k < c ==> IsSpace(l[k])
    requires IsDigit(l[b]) && IsDigit(l[c])
    ensures b == c
  {
  }

  /** Two digit runs from `a` that both stop before a non-digit (or at the
      end) end at the same place. */
  lemma DigitRunEnd(l: string, a: nat, b: nat, c: nat)
    requires a <= b <= |l| && a <= c <= |l|
    requires forall k :: a <= k < b ==> IsDigit(l[k])
    requires forall k :: a <= k < c ==> IsDigit(l[k])
    requires b == |l| || !IsDigit(l[b])
    requires c == |l| || !IsDigit(l[c])
    ensures b == c
  {
  }

  /** `MatchParts` finds the reported match, and finds nothing only when the
      pattern cannot match. */
  lemma MatchPartsMeaning(l: string)
    ensures MatchParts(l).Some? ==> ReportedMatch(l, MatchParts(l).value)
    ensures MatchParts(l).None? <==> !CanMatch(l)
  {
    var a := SkipDashOrSpace(l, 0);
    TryAxisStartMeaning(l, a);
    forall p' | RowMatch(l, p') ensures p'.axisStart <= a {
    }
    if MatchParts(l).Some? {
      var p := MatchParts(l).value;
      forall g | p.scoreEnd <= g <= |l| && IsScoreGlue(l[p.scoreEnd..g]) ensures g <= p.reasonStart {
        GlueLongest(l, p.scoreEnd, g);
      }
    }
  }

  // ---------------------------------------------------------------------------
  // The block

  /** The row one line of the block gives. */
  function LineRow(line: string): Option<StrategyRow> {
    var l := Strip(line);
    if l == [] || !MentionsAxis(l) then None
    else match MatchParts(l)
      case Some(p) => Some(RowOf(l, p))
      case None => None
  }

  function LineRows(lines: seq<string>): (r: seq<Option<StrategyRow>>)
    ensures |r| == |lines|
    ensures forall k :: 0 <= k < |r| ==> r[k] == LineRow(lines[k])
  {
    seq(|lines|, k requires 0 <= k < |lines| => LineRow(lines[k]))
  }

  /** `parse_strategy_eval_block`: the rows of the lines of the block, in
      order. */
  function ParseStrategyEvalBlock(block: string): seq<StrategyRow> {
    Somes(LineRows(Split(block, '\n')))
  }

  /** A line gives a row only when, stripped, it is non-blank, mentions an
      axis, and the pattern matches it. The row is the one the reported
      match gives, and only one match is the reported one. A non-blank line that mentions an axis and that the
      pattern can match does give a row. */
  lemma LineRowMeaning(line: string)
    requires '\n' !in line
    ensures var l := Strip(line);
      LineRow(line).Some? ==>
        && l != [] && MentionsAxis(l)
        && exists p :: ReportedMatch(l, p) && LineRow(line).value == RowOf(l, p)
    ensures var l := Strip(line);
      LineRow(line).Some? ==> forall p :: ReportedMatch(l, p) ==> LineRow(line).value == RowOf(l, p)
    ensures var l := Strip(line);
      l != [] && MentionsAxis(l) && CanMatch(l) ==> LineRow(line).Some?
  {
    var l := Strip(line);
    MatchPartsMeaning(l);
    if LineRow(line).Some? {
      forall p | ReportedMatch(l, p) ensures LineRow(line).value == RowOf(l, p) {
        ReportedMatchUnique(l, p, MatchParts(l).value);
      }
    }
  }

  /** The axis of a row is non-empty and holds no whitespace. The score is a
      digit run followed by `点`. The reason is the end of the stripped line. */
  lemma LineRowShape(line: string)
    requires LineRow(line).Some?
    ensures var row := LineRow(line).value;
      && row.axis != [] && (forall k :: 0 <= k < |row.axis| ==> !IsSpace(row.axis[k]))
      && IsPointScore(row.score)
      && exists i :: 0 <= i <= |Strip(line)| && row.reason == Strip(line)[i..]
  {
    var l := Strip(line);
    MatchPartsMeaning(l);
    RowOfShape(l, MatchParts(l).value);
  }

  lemma RowOfShape(l: string, p: Parts)
    requires RowMatch(l, p)
    ensures var row := RowOf(l, p);
      && row.axis != [] && (forall k :: 0 <= k < |row.axis| ==> !IsSpace(row.axis[k]))
      && IsPointScore(row.score)
      && exists i :: 0 <= i <= |l| && row.reason == l[i..]
  {
    var row := RowOf(l, p);
    assert forall k :: 0 <= k < |row.axis| ==> row.axis[k] == l[p.axisStart + k];
    var digits := l[p.scoreStart..p.scoreEnd];
    assert row.score[..|row.score| - 1] == digits;
    assert forall k :: 0 <= k < |digits| ==> digits[k] == l[p.scoreStart + k];
  }

  /** The rows are the rows of the lines that give one, in the order of
      the lines, one per line: `origin[k]` is the line row `k` comes from. */
  lemma ParseStrategyEvalBlockMeaning(block: string) returns (origin: seq<nat>)
    ensures var lines := Split(block, '\n'); var rows := ParseStrategyEvalBlock(block);
      && |origin| == |rows| <= |lines|
      && (forall k :: 0 <= k < |origin| ==> origin[k] < |lines| && LineRow(lines[origin[k]]) == Some(rows[k]))
      && (forall a, b :: 0 <= a < b < |origin| ==> origin[a] < origin[b])
      && (forall j :: 0 <= j < |lines| && LineRow(lines[j]).Some? ==> j in origin)
  {
    var lines := Split(block, '\n');
    SomesMeaning(LineRows(lines));
    origin := SomeIndices(LineRows(lines));
  }
}
