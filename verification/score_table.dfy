/** The score tables of the report (`generate_pdf_report` in
    generate_pdf_report.py): one table per business idea, in order of first
    appearance, with a row for every persona of every record of that idea.
    Each row shows the persona's name, the score cut to its first run of up
    to three digits followed by `点`, and the reason without its `理由` label,
    its newlines written as `<br/>`. */
module ScoreTable {
  import opened Text
  import opened Evaluation
  import opened Aggregation
  import PersonaNames
  import StrategyEval
  import PersonaCard

  /** The `{1,3}` of the score pattern. */
  const MaxScoreDigits: nat := 3

  /** The header row of every table. */
  const Header: seq<string> := ["ペルソナ名", "スコア", "理由"]

  /** `str(row.get(key, ""))` for a row of the frame. */
  function Get(row: Row, key: string): string {
    if key in row then row[key] else ""
  }

  // ---------------------------------------------------------------------------
  // The cells

  /** `g` is what `re.search(r"(\d{1,3})", raw)` captures, starting at `i`:
      one to three digits, no digit before them, and no fourth digit that
      the run could have taken. */
  ghost predicate ScoreGroupAt(raw: string, i: nat, g: string) {
    && i + |g| <= |raw|
    && raw[i..i + |g|] == g
    && 1 <= |g| <= MaxScoreDigits
    && AllDigits(g)
    && (forall k :: 0 <= k < i ==> !IsDigit(raw[k]))
    && (|g| == MaxScoreDigits || i + |g| == |raw| || !IsDigit(raw[i + |g|]))
  }

  /** The score cell: the captured digits followed by `点`, or the raw value
      when it holds no digit. */
  function ScoreCell(raw: string): (r: string)
    ensures (forall k :: 0 <= k < |raw| ==> !IsDigit(raw[k])) ==> r == raw
    ensures (exists k :: 0 <= k < |raw| && IsDigit(raw[k])) ==>
      exists i: nat, g :: ScoreGroupAt(raw, i, g) && r == g + StrategyEval.PointSuffix
  {
    var i := FindDigit(raw, 0);
    if i == |raw| then raw
    else
      var j := SkipDigits(raw, i);
      var e := if j - i > MaxScoreDigits then i + MaxScoreDigits else j;
      assert ScoreGroupAt(raw, i, raw[i..e]);
      raw[i..e] + StrategyEval.PointSuffix
  }

  /** The capture is unique: the pattern can capture in one way only. */
  lemma ScoreGroupUnique(raw: string, i: nat, g: string, i': nat, g': string)
    requires ScoreGroupAt(raw, i, g) && ScoreGroupAt(raw, i', g')
    ensures i == i' && g == g'
  {
    assert raw[i..i + |g|][0] == raw[i] && raw[i'..i' + |g'|][0] == raw[i'];
    assert IsDigit(raw[i]) && IsDigit(raw[i']);
    assert i == i';
    assert forall k :: i <= k < i + |g| ==> IsDigit(raw[k]) by {
      forall k | i <= k < i + |g| ensures IsDigit(raw[k]) {
        assert raw[i..i + |g|][k - i] == raw[k];
      }
    }
    assert forall k :: i <= k < i + |g'| ==> IsDigit(raw[k]) by {
      forall k | i <= k < i + |g'| ensures IsDigit(raw[k]) {
        assert raw[i'..i' + |g'|][k - i] == raw[k];
      }
    }
  }

  /** A score of at most three digits gets `点` appended, and an empty score
      stays empty. */
  lemma ScoreCellOfDigits(s: string)
    requires AllDigits(s) && |s| <= MaxScoreDigits
    ensures ScoreCell(s) == if s == [] then [] else s + StrategyEval.PointSuffix
  {
    if s != [] {
      assert FindDigit(s, 0) == 0;
      assert SkipDigits(s, 0) == |s|;
      assert s[0..|s|] == s;
    }
  }

  /** `str(n)` has at most three digits below 1000. */
  lemma {:induction false} DecimalLength(n: nat)
    ensures n < 1000 ==> |NatToDecimal(n)| <= 3
    ensures n < 100 ==> |NatToDecimal(n)| <= 2
    ensures n < 10 ==> |NatToDecimal(n)| == 1
  {
    if n >= 10 {
      DecimalLength(n / 10);
    }
  }

  /** A score below 1000 is shown as itself followed by `点`. */
  lemma ScoreCellOfNumber(n: nat)
    requires n < 1000
    ensures ScoreCell(NatToDecimal(n)) == NatToDecimal(n) + StrategyEval.PointSuffix
  {
    DecimalLength(n);
    ScoreCellOfDigits(NatToDecimal(n));
  }

  /** The reason cell: the `理由` label removed, then every newline replaced
      by `<br/>`. */
  function ReasonCell(raw: string): (r: string)
    ensures '\n' !in r
  {
    ReplaceAll(StripReasonLabel(raw), "\n", PersonaCard.LineBreakTag)
  }

  /** The reason cell shows the lines of the unlabelled reason joined with
      `<br/>`: `lines` are those lines, none holding a newline. */
  lemma ReasonCellMeaning(raw: string) returns (lines: seq<string>)
    ensures Join(lines, "\n") == StripReasonLabel(raw)
    ensures forall k :: 0 <= k < |lines| ==> '\n' !in lines[k]
    ensures ReasonCell(raw) == Join(lines, PersonaCard.LineBreakTag)
  {
    var s := StripReasonLabel(raw);
    lines := Split(s, '\n');
    JoinSplit(s, '\n');
    ReplaceCharAsJoin(s, '\n', PersonaCard.LineBreakTag);
  }

  /** The name shown for persona `i` (1-based): its extracted name, or
      `ペルソナ{i}` past the end of the list. */
  function PersonaLabel(names: seq<string>, i: nat): string
    requires i >= 1
  {
    if i - 1 < |names| then names[i - 1] else PersonaNames.FallbackPrefix + NatToDecimal(i)
  }

  /** With the names extracted from the personas, the label of persona `i` is
      the name the extractor gives it; past the last persona it is the name
      the extractor would give an empty persona at that place. */
  lemma PersonaLabelMeaning(personas: seq<string>, i: nat)
    requires i >= 1
    ensures PersonaLabel(PersonaNames.ExtractPersonaNames(personas, PersonaNames.DefaultLabels), i)
      == PersonaNames.PersonaName(if i <= |personas| then personas[i - 1] else "", i, PersonaNames.DefaultLabels)
  {
    if i > |personas| {
      EmptyPersonaName(i, PersonaNames.DefaultLabels);
    }
  }

  /** An empty persona has no label and no colon line, so it gets the
      numbered fallback name. */
  lemma EmptyPersonaName(i: nat, labels: seq<string>)
    ensures PersonaNames.PersonaName("", i, labels) == PersonaNames.FallbackPrefix + NatToDecimal(i)
  {
    PersonaNames.LabelledNameMeaning("", labels);
    if PersonaNames.LabelledName("", labels).Some? {
      var _, _ := PersonaNames.LabelledNameFrom("", labels);
    }
  }

  // ---------------------------------------------------------------------------
  // The tables

  /** One data row: the persona's name, score cell and reason cell. */
  datatype TableRow = TableRow(persona: string, score: string, reason: string)

  /** A table: the idea it is for, its header row and its data rows. */
  datatype Table = Table(idea: string, header: seq<string>, rows: seq<TableRow>)

  /** `range(1, persona_count + 1)` has this many numbers. */
  function PersonaCount(count: int): nat {
    if count > 0 then count else 0
  }

  /** The row of persona `i` for a record of the frame. */
  function RecordRow(names: seq<string>, row: Row, i: nat): TableRow
    requires i >= 1
  {
    TableRow(PersonaLabel(names, i), ScoreCell(Get(row, ScoreKey(i))), ReasonCell(Get(row, ReasonKey(i))))
  }

  /** The rows of one record: personas `1` to `count`. */
  function RecordRows(names: seq<string>, row: Row, count: int): seq<TableRow> {
    seq(PersonaCount(count), k requires 0 <= k < PersonaCount(count) => RecordRow(names, row, k + 1))
  }

  function Flatten<T>(xss: seq<seq<T>>): seq<T> {
    if |xss| == 0 then [] else xss[0] + Flatten(xss[1..])
  }

  /** Flattening `m` pieces of one length `n` gives `m * n` elements. */
  lemma {:induction false} FlattenLength<T>(xss: seq<seq<T>>, n: nat)
    requires forall q :: 0 <= q < |xss| ==> |xss[q]| == n
    ensures |Flatten(xss)| == |xss| * n
  {
    if |xss| > 0 {
      var m := |xss| - 1;
      FlattenLength(xss[1..], n);
      assert (m + 1) * n == m * n + n;
    }
  }

  /** Flattening pieces of one length `n` puts element `i` of piece `q` at
      `q * n + i`. */
  lemma {:induction false} FlattenAt<T>(xss: seq<seq<T>>, n: nat, q: nat, i: nat)
    requires forall q :: 0 <= q < |xss| ==> |xss[q]| == n
    requires q < |xss| && i < n
    ensures q * n + i < |Flatten(xss)| && Flatten(xss)[q * n + i] == xss[q][i]
    decreases q
  {
    FlattenLength(xss, n);
    if q > 0 {
      var rest := xss[1..];
      FlattenAt(rest, n, q - 1, i);
      FlattenLength(rest, n);
      assert q * n == (q - 1) * n + n;
      assert rest[q - 1] == xss[q];
    }
  }

  /** Every row of the frame has the idea name column. */
  predicate HasNames(frame: seq<Row>) {
    forall k :: 0 <= k < |frame| ==> IdeaNameKey in frame[k]
  }

  /** `df[df["事業アイデア名"] == idea]`, row by row. */
  function Matching(frame: seq<Row>, idea: string): (r: seq<Option<Row>>)
    requires HasNames(frame)
  {
    seq(|frame|, k requires 0 <= k < |frame| => if frame[k][IdeaNameKey] == idea then Some(frame[k]) else None)
  }

  /** The data rows of an idea's table. */
  function IdeaRows(names: seq<string>, frame: seq<Row>, idea: string, count: int): seq<TableRow>
    requires HasNames(frame)
  {
    var records := Somes(Matching(frame, idea));
    Flatten(seq(|records|, q requires 0 <= q < |records| => RecordRows(names, records[q], count)))
  }

  /** The table of one idea. */
  function IdeaTable(names: seq<string>, frame: seq<Row>, idea: string, count: int): (t: Table)
    requires HasNames(frame)
    ensures t.idea == idea && t.header == Header
  {
    Table(idea, Header, IdeaRows(names, frame, idea, count))
  }

  /** `df["事業アイデア名"]`. */
  function IdeaColumn(frame: seq<Row>): (r: seq<string>)
    requires HasNames(frame)
  {
    seq(|frame|, k requires 0 <= k < |frame| => frame[k][IdeaNameKey])
  }

  /** The tables of the report: one per distinct idea name of the frame, with
      no name twice, in order of first appearance, each under the header. */
  function ScoreTables(names: seq<string>, frame: seq<Row>, count: int): (r: seq<Table>)
    requires HasNames(frame)
    ensures forall t, u :: 0 <= t < u < |r| ==> r[t].idea != r[u].idea
    ensures forall k :: 0 <= k < |frame| ==> exists t :: 0 <= t < |r| && r[t].idea == frame[k][IdeaNameKey]
    ensures forall t :: 0 <= t < |r| ==> r[t].idea in IdeaColumn(frame)
    ensures forall t, u :: 0 <= t < u < |r| ==>
      FirstIndex(IdeaColumn(frame), r[t].idea) < FirstIndex(IdeaColumn(frame), r[u].idea)
    ensures forall t :: 0 <= t < |r| ==> r[t].header == Header
  {
    var column := IdeaColumn(frame);
    var ideas := Dedup(column);
    var r := seq(|ideas|, t requires 0 <= t < |ideas| => IdeaTable(names, frame, ideas[t], count));
    assert forall t :: 0 <= t < |r| ==> r[t].idea == ideas[t];
    forall k | 0 <= k < |frame| ensures exists t :: 0 <= t < |r| && r[t].idea == frame[k][IdeaNameKey] {
      assert column[k] in ideas;
    }
    forall t, u | 0 <= t < u < |r|
      ensures FirstIndex(column, r[t].idea) < FirstIndex(column, r[u].idea)
    {
      DedupOrder(column, t, u);
    }
    r
  }

  /** The records of an idea, in frame order: `origin[q]` is the place of
      record `q` in the frame. */
  lemma RecordsMeaning(frame: seq<Row>, idea: string) returns (origin: seq<nat>)
    requires HasNames(frame)
    ensures |origin| == |Somes(Matching(frame, idea))|
    ensures forall q :: 0 <= q < |origin| ==>
      origin[q] < |frame| && frame[origin[q]][IdeaNameKey] == idea && Somes(Matching(frame, idea))[q] == frame[origin[q]]
    ensures forall a, b :: 0 <= a < b < |origin| ==> origin[a] < origin[b]
    ensures forall j :: 0 <= j < |frame| && frame[j][IdeaNameKey] == idea ==> j in origin
  {
    var cs := Matching(frame, idea);
    SomesMeaning(cs);
    origin := SomeIndices(cs);
    forall j | 0 <= j < |frame| && frame[j][IdeaNameKey] == idea ensures j in origin {
      assert cs[j].Some?;
    }
    forall q | 0 <= q < |origin|
      ensures frame[origin[q]][IdeaNameKey] == idea && Somes(cs)[q] == frame[origin[q]]
    {
      assert cs[origin[q]] == Some(Somes(cs)[q]);
    }
  }

  /** The data rows of an idea's table: `origin` lists, in frame order, the
      records of that idea, and every such record is listed. Record `q` gives
      the rows `q * n` to `q * n + n - 1`, one per persona, where `n` is the
      persona count (none when it is not positive). */
  lemma IdeaRowsMeaning(names: seq<string>, frame: seq<Row>, idea: string, count: int) returns (origin: seq<nat>)
    requires HasNames(frame)
    ensures forall q :: 0 <= q < |origin| ==> origin[q] < |frame| && frame[origin[q]][IdeaNameKey] == idea
    ensures forall a, b :: 0 <= a < b < |origin| ==> origin[a] < origin[b]
    ensures forall j :: 0 <= j < |frame| && frame[j][IdeaNameKey] == idea ==> j in origin
    ensures |IdeaRows(names, frame, idea, count)| == |origin| * PersonaCount(count)
    ensures forall q, i :: 0 <= q < |origin| && 1 <= i <= PersonaCount(count) ==>
      var k := q * PersonaCount(count) + i - 1;
      k < |IdeaRows(names, frame, idea, count)| && IdeaRows(names, frame, idea, count)[k] == RecordRow(names, frame[origin[q]], i)
  {
    origin := RecordsMeaning(frame, idea);
    var records := Somes(Matching(frame, idea));
    var n := PersonaCount(count);
    var pieces := seq(|records|, q requires 0 <= q < |records| => RecordRows(names, records[q], count));
    assert IdeaRows(names, frame, idea, count) == Flatten(pieces);
    FlattenLength(pieces, n);
    forall q, i | 0 <= q < |origin| && 1 <= i <= n
      ensures q * n + i - 1 < |Flatten(pieces)| && Flatten(pieces)[q * n + i - 1] == RecordRow(names, frame[origin[q]], i)
    {
      FlattenAt(pieces, n, q, i - 1);
    }
  }
}
