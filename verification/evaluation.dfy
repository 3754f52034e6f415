/** Parsing the language model's answer to the persona-score prompt
    (`parse_evaluation_output` in app.py) into a score and a reason, and the
    `理由` label remover that the report reuses for its reason cells. */
module Evaluation {
  import opened Text

  const ScoreLabel: string := "評価スコア"
  const ReasonLabel: string := "理由"
  /** The two lines of the output format the prompt asks for, without their
      `- ` markers. */
  const ScorePrompt: string := "評価スコア（1〜5）: "
  const ReasonPrompt: string := "理由（100文字程度）: "

  /** What `parse_evaluation_output` returns: both strings may be empty. */
  datatype Evaluation = Evaluation(score: string, reason: string)

  /** The whole of `p` matches the pattern `[-\s]*理由[:：]?\s*`. */
  ghost predicate IsReasonLabel(p: string) {
    exists a :: ReasonLabelAt(p, a)
  }

  /** `p` matches `[-\s]*理由[:：]?\s*` with the label starting at `a`. */
  ghost predicate ReasonLabelAt(p: string, a: nat) {
    && a + 2 <= |p|
    && (forall k :: 0 <= k < a ==> IsDashOrSpace(p[k]))
    && p[a..a + 2] == ReasonLabel
    && ((forall k :: a + 2 <= k < |p| ==> IsSpace(p[k]))
        || (a + 2 < |p| && IsColon(p[a + 2]) && forall k :: a + 3 <= k < |p| ==> IsSpace(p[k])))
  }

  /** `re.sub(r'^[-\s]*理由[:：]?\s*', '', s)`. The pattern is anchored and
      matches in a single way: `[-\s]*` must stop where `理由` begins. */
  function StripReasonLabel(s: string): string {
    var a := SkipDashOrSpace(s, 0);
    if StartsWith(s[a..], ReasonLabel) then
      var c := if a + 2 < |s| && IsColon(s[a + 2]) then a + 3 else a + 2;
      s[SkipSpaces(s, c)..]
    else s
  }

  /** When a prefix of `s` matches the label pattern, the longest such prefix
      is what is removed; when none does, `s` comes back unchanged. */
  lemma StripReasonLabelMeaning(s: string)
    ensures (forall e: nat :: e <= |s| ==> !IsReasonLabel(s[..e])) ==> StripReasonLabel(s) == s
    ensures forall e: nat :: e <= |s| && IsReasonLabel(s[..e]) ==>
      exists m: nat :: e <= m <= |s| && IsReasonLabel(s[..m]) && StripReasonLabel(s) == s[m..]
  {
    var a := SkipDashOrSpace(s, 0);
    if StartsWith(s[a..], ReasonLabel) {
      assert s[a..a + 2] == s[a..][..2];
      var m := SkipSpaces(s, if a + 2 < |s| && IsColon(s[a + 2]) then a + 3 else a + 2);
      ReasonLabelGreedy(s, a, m);
    } else {
      ReasonLabelNeedsLabel(s, a);
    }
  }

  /** The greedy match ends at `m`, and every match ends no later. */
  lemma ReasonLabelGreedy(s: string, a: nat, m: nat)
    requires a == SkipDashOrSpace(s, 0)
    requires a + 2 <= |s| && s[a..a + 2] == ReasonLabel
    requires m == SkipSpaces(s, if a + 2 < |s| && IsColon(s[a + 2]) then a + 3 else a + 2)
    ensures IsReasonLabel(s[..m])
    ensures forall e: nat :: e <= |s| && IsReasonLabel(s[..e]) ==> e <= m
  {
    var p := s[..m];
    assert p[a..a + 2] == s[a..a + 2];
    assert ReasonLabelAt(p, a);
    var c := if a + 2 < |s| && IsColon(s[a + 2]) then a + 3 else a + 2;
    forall e: nat | e <= |s| && IsReasonLabel(s[..e]) ensures e <= m {
      var q := s[..e];
      var a': nat :| ReasonLabelAt(q, a');
      LabelStartUnique(s, e, a');
      assert forall k :: c <= k < e ==> IsSpace(s[k]) by {
        assert forall k :: 0 <= k < e ==> q[k] == s[k];
      }
    }
  }

  /** A match of a prefix of `s` has its label right after the `[-\s]*` run. */
  lemma LabelStartUnique(s: string, e: nat, a': nat)
    requires e <= |s|
    requires ReasonLabelAt(s[..e], a')
    ensures a' == SkipDashOrSpace(s, 0)
  {
    var q := s[..e];
    assert q[a'..a' + 2][0] == '理';
    assert s[a'] == '理';
    assert !IsDashOrSpace(s[a']);
    assert forall k :: 0 <= k < a' ==> IsDashOrSpace(s[k]) by {
      assert forall k :: 0 <= k < a' ==> q[k] == s[k];
    }
  }

  /** With no `理由` after the `[-\s]*` run, no prefix matches. */
  lemma ReasonLabelNeedsLabel(s: string, a: nat)
    requires a == SkipDashOrSpace(s, 0)
    requires !StartsWith(s[a..], ReasonLabel)
    ensures forall e: nat :: e <= |s| ==> !IsReasonLabel(s[..e])
  {
    forall e: nat | e <= |s| && IsReasonLabel(s[..e]) ensures false {
      MatchHasLabel(s, e);
    }
  }

  lemma MatchHasLabel(s: string, e: nat)
    requires e <= |s| && IsReasonLabel(s[..e])
    ensures StartsWith(s[SkipDashOrSpace(s, 0)..], ReasonLabel)
  {
    var a': nat :| ReasonLabelAt(s[..e], a');
    LabelStartUnique(s, e, a');
    assert s[..e][a'..a' + 2] == s[a'..][..2];
  }

  // ---------------------------------------------------------------------------
  // The two passes of parse_evaluation_output

  /** A line the first pass takes a score from. */
  predicate IsScoreLine(l: string) {
    StartsWith(l, ScoreLabel) && FirstDigitRun(l) != []
  }

  predicate IsReasonLine(l: string) {
    StartsWith(l, ReasonLabel)
  }

  /** The first pass over the lines: the latest score line sets the score and
      the latest `理由` line sets the reason. */
  function ScanScoreAndReason(lines: seq<string>, acc: Evaluation): Evaluation {
    if |lines| == 0 then acc
    else
      var l := lines[0];
      var score := if IsScoreLine(l) then FirstDigitRun(l) else acc.score;
      var reason := if IsReasonLine(l) then StripReasonLabel(l) else acc.reason;
      ScanScoreAndReason(lines[1..], Evaluation(score, reason))
  }

  /** The fallback pass: once a `理由` line is seen every later line is kept,
      with the label removed from the `理由` lines. */
  function CollectReason(lines: seq<string>, inReason: bool): seq<string> {
    if |lines| == 0 then []
    else if IsReasonLine(lines[0]) then [StripReasonLabel(lines[0])] + CollectReason(lines[1..], true)
    else if inReason then [lines[0]] + CollectReason(lines[1..], true)
    else CollectReason(lines[1..], false)
  }

  /** The two passes on the already stripped, non-blank lines. */
  function ParseLines(lines: seq<string>): Evaluation {
    var first := ScanScoreAndReason(lines, Evaluation("", ""));
    if first.reason != [] then first
    else
      var reasonLines := CollectReason(lines, false);
      if |reasonLines| > 0 then Evaluation(first.score, Join(reasonLines, "\n")) else first
  }

  /** A reply that keeps the `- ` markers of the output format the prompt
      asks for gives neither a score nor a reason: its lines start with the
      marker, not with a label. */
  lemma MarkedFormatUnread(answer: string, why: string)
    ensures ParseLines(["- " + ScorePrompt + answer, "- " + ReasonPrompt + why]) == Evaluation("", "")
  {
    var a := "- " + ScorePrompt + answer;
    var b := "- " + ReasonPrompt + why;
    MarkedLineUnread("- ", ScorePrompt + answer);
    MarkedLineUnread("- ", ReasonPrompt + why);
    assert a == "- " + (ScorePrompt + answer) && b == "- " + (ReasonPrompt + why);
    var ab: seq<string> := [a, b];
    var bs: seq<string> := [b];
    assert ab[1..] == bs && |bs[1..]| == 0;
    var none := Evaluation("", "");
    assert ScanScoreAndReason(ab, none) == ScanScoreAndReason(bs, none) == ScanScoreAndReason(bs[1..], none);
    assert CollectReason(ab, false) == CollectReason(bs, false) == CollectReason(bs[1..], false);
  }

  /** A line that starts with `-` is neither a score line nor a reason
      line. */
  lemma MarkedLineUnread(marker: string, rest: string)
    requires |marker| > 0 && marker[0] == '-'
    ensures !IsScoreLine(marker + rest) && !IsReasonLine(marker + rest)
  {
    var l := marker + rest;
    assert l[0] == '-';
    assert ScoreLabel[0] == '評' && ReasonLabel[0] == '理';
  }

  /** Without the markers, the `1` of `（1〜5）` is the first digit run of
      the score line, so the score is `1` whatever the model answered. */
  lemma RangeLabelScore(answer: string)
    ensures ParseLines([ScorePrompt + answer]).score == "1"
  {
    var l := ScorePrompt + answer;
    assert forall k :: 0 <= k < |ScorePrompt| ==> l[k] == ScorePrompt[k];
    assert l[..|ScoreLabel|] == ScoreLabel;
    assert forall k :: 0 <= k < 6 ==> !IsDigit(l[k]);
    assert IsDigit(l[6]) && !IsDigit(l[7]);
    FindDigitAt(l, 0, 6);
    SkipDigitsAt(l, 6, 7);
    assert l[6..7] == [l[6]];
    assert FirstDigitRun(l) == "1";
    assert IsScoreLine(l);
    assert l[0] != ReasonLabel[0] && !IsReasonLine(l);
    var ls: seq<string> := [l];
    assert |ls[1..]| == 0;
    var none := Evaluation("", "");
    assert ScanScoreAndReason(ls, none) == ScanScoreAndReason(ls[1..], Evaluation("1", "")) == Evaluation("1", "");
    assert CollectReason(ls, false) == CollectReason(ls[1..], false) == [];
  }

  // ---------------------------------------------------------------------------
  // The declarative reading

  /** Every line with the `理由` label removed from the lines that carry it. */
  function Unlabel(lines: seq<string>): (r: seq<string>)
    ensures |r| == |lines|
  {
    seq(|lines|, k requires 0 <= k < |lines| =>
      if IsReasonLine(lines[k]) then StripReasonLabel(lines[k]) else lines[k])
  }

  /** `parse_evaluation_output(text)`; `None` stands for Python's `None`.
      The score is the first digit run of the last line that starts with
      `評価スコア` and has a digit, or empty. The reason is empty without a
      `理由` line; it is the last `理由` line without its label when that is
      non-empty, and otherwise every line from the first `理由` line on,
      labels removed, joined with newlines. */
  function ParseEvaluationOutput(text: Option<string>): (r: Evaluation)
    ensures var lines := NonBlankLines(if text.Some? then text.value else "");
      && AllDigits(r.score)
      && (r.score == [] <==> forall i :: 0 <= i < |lines| ==> !IsScoreLine(lines[i]))
      && (forall i :: IsLastWhere(lines, IsScoreLine, i) ==> r.score == FirstDigitRun(lines[i]))
      && ((forall i :: 0 <= i < |lines| ==> !IsReasonLine(lines[i])) ==> r.reason == [])
      && (forall i :: IsLastWhere(lines, IsReasonLine, i) && StripReasonLabel(lines[i]) != [] ==>
            r.reason == StripReasonLabel(lines[i]))
      && (forall f, i :: IsFirstWhere(lines, IsReasonLine, f) && IsLastWhere(lines, IsReasonLine, i)
                         && StripReasonLabel(lines[i]) == [] ==>
            r.reason == Join(Unlabel(lines[f..]), "\n"))
    ensures text.None? || text.value == [] ==> r == Evaluation("", "")
  {
    var lines := NonBlankLines(if text.Some? then text.value else "");
    ParseLinesMeaning(lines);
    ParseLines(lines)
  }

  lemma ParseLinesMeaning(lines: seq<string>)
    ensures var r := ParseLines(lines);
      && AllDigits(r.score)
      && (r.score == [] <==> forall i :: 0 <= i < |lines| ==> !IsScoreLine(lines[i]))
      && (forall i :: IsLastWhere(lines, IsScoreLine, i) ==> r.score == FirstDigitRun(lines[i]))
      && ((forall i :: 0 <= i < |lines| ==> !IsReasonLine(lines[i])) ==> r.reason == [])
      && (forall i :: IsLastWhere(lines, IsReasonLine, i) && StripReasonLabel(lines[i]) != [] ==>
            r.reason == StripReasonLabel(lines[i]))
      && (forall f, i :: IsFirstWhere(lines, IsReasonLine, f) && IsLastWhere(lines, IsReasonLine, i)
                         && StripReasonLabel(lines[i]) == [] ==>
            r.reason == Join(Unlabel(lines[f..]), "\n"))
  {
    var acc := Evaluation("", "");
    ScanAsLastValues(lines, acc);
    LastValueMeaning(lines, IsScoreLine, FirstDigitRun, "");
    LastValueMeaning(lines, IsReasonLine, StripReasonLabel, "");
    if exists i :: 0 <= i < |lines| && IsScoreLine(lines[i]) {
      var i := LastWhereExists(lines, IsScoreLine);
    }
    forall f, i | IsFirstWhere(lines, IsReasonLine, f) && IsLastWhere(lines, IsReasonLine, i)
                  && StripReasonLabel(lines[i]) == []
      ensures ParseLines(lines).reason == Join(Unlabel(lines[f..]), "\n")
    {
      CollectFromFirst(lines, f);
      assert |Unlabel(lines[f..])| > 0;
    }
    if forall i :: 0 <= i < |lines| ==> !IsReasonLine(lines[i]) {
      CollectWithoutReason(lines);
    }
  }

  /** The first pass is two "last line wins" passes run side by side. */
  lemma {:induction false} ScanAsLastValues(lines: seq<string>, acc: Evaluation)
    ensures ScanScoreAndReason(lines, acc)
         == Evaluation(LastValue(lines, IsScoreLine, FirstDigitRun, acc.score),
                       LastValue(lines, IsReasonLine, StripReasonLabel, acc.reason))
  {
    if |lines| > 0 {
      var l := lines[0];
      ScanAsLastValues(lines[1..], Evaluation(if IsScoreLine(l) then FirstDigitRun(l) else acc.score,
                                              if IsReasonLine(l) then StripReasonLabel(l) else acc.reason));
    }
  }

  /** Once inside the reason, the fallback pass keeps every line. */
  lemma {:induction false} CollectInside(lines: seq<string>)
    ensures CollectReason(lines, true) == Unlabel(lines)
  {
    if |lines| > 0 {
      CollectInside(lines[1..]);
      assert Unlabel(lines) == [Unlabel(lines)[0]] + Unlabel(lines[1..]);
    }
  }

  /** Before the first `理由` line, the fallback pass keeps nothing. */
  lemma {:induction false} CollectFromFirst(lines: seq<string>, f: int)
    requires IsFirstWhere(lines, IsReasonLine, f)
    ensures CollectReason(lines, false) == Unlabel(lines[f..])
  {
    if f == 0 {
      CollectInside(lines[1..]);
      assert lines[1..] == lines[f..][1..];
      assert Unlabel(lines[f..]) == [Unlabel(lines[f..])[0]] + Unlabel(lines[f..][1..]);
    } else {
      assert !IsReasonLine(lines[0]);
      assert IsFirstWhere(lines[1..], IsReasonLine, f - 1) by {
        assert forall j :: 0 <= j < f - 1 ==> lines[1..][j] == lines[j + 1];
      }
      CollectFromFirst(lines[1..], f - 1);
      assert lines[1..][f - 1..] == lines[f..];
    }
  }

  lemma {:induction false} CollectWithoutReason(lines: seq<string>)
    requires forall i :: 0 <= i < |lines| ==> !IsReasonLine(lines[i])
    ensures CollectReason(lines, false) == []
  {
    if |lines| > 0 {
      assert forall i :: 0 <= i < |lines| - 1 ==> lines[1..][i] == lines[i + 1];
      CollectWithoutReason(lines[1..]);
    }
  }
}
