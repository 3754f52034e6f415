/** The per-idea aggregation of the evaluations in app.py: every persona
    evaluates every idea, and the parsed score and reason land in the row of
    the idea's name, under columns numbered by the persona's 1-based place. */
module Aggregation {
  import opened Text
  import opened Evaluation

  const IdeaNameKey: string := "事業アイデア名"
  const PersonaPrefix: string := "ペルソナ"
  const ScoreSuffix: string := "スコア"
  const ReasonSuffix: string := "理由"

  /** The column `ペルソナ{i}スコア`. */
  function ScoreKey(i: nat): string {
    PersonaPrefix + NatToDecimal(i) + ScoreSuffix
  }

  /** The column `ペルソナ{i}理由`. */
  function ReasonKey(i: nat): string {
    PersonaPrefix + NatToDecimal(i) + ReasonSuffix
  }

  /** A generated persona: its segment and its text. */
  datatype Persona = Persona(segment: string, text: string)

  /** A business idea: its name and its description. */
  datatype Idea = Idea(name: string, desc: string)

  type Row = map<string, string>

  /** The model's reply to one call of `evaluate_persona_score`. A call is
      named by the persona's number, from 1, and the idea's place in the
      list, from 0; it is also given the persona's text and the idea's name
      and description. Two calls with the same prompt may get different
      replies. */
  type Replies = (nat, nat, string, string, string) -> string

  /** The parsed evaluation of each call, named the same way. */
  type Assessments = (nat, nat, string, string, string) -> Evaluation

  /** `rows_by_idea`: a dict, which keeps its keys in insertion order. */
  datatype RowsByIdea = RowsByIdea(order: seq<string>, rows: map<string, Row>)

  ghost predicate WellFormed(t: RowsByIdea) {
    NoDup(t.order) && forall n :: n in t.rows <==> n in t.order
  }

  /** The evaluation of an idea by a persona: the model's reply, parsed. */
  function Assess(evaluate: Replies): Assessments {
    (i: nat, j: nat, text: string, name: string, desc: string) => ParseEvaluationOutput(Some(evaluate(i, j, text, name, desc)))
  }

  // ---------------------------------------------------------------------------
  // The columns

  /** The columns never clash: the name column, the score columns and the
      reason columns are all different, and each persona has its own. */
  lemma KeysDistinct(i: nat, j: nat)
    ensures ScoreKey(i) != ReasonKey(j)
    ensures ScoreKey(i) != IdeaNameKey && ReasonKey(i) != IdeaNameKey
    ensures ScoreKey(i) == ScoreKey(j) ==> i == j
    ensures ReasonKey(i) == ReasonKey(j) ==> i == j
  {
    var a := ScoreKey(i);
    var b := ReasonKey(j);
    assert a[|a| - 1] == 'ア' && b[|b| - 1] == '由';
    assert a[0] == 'ペ' && b[0] == 'ペ' && IdeaNameKey[0] == '事';
    SameFrame(i, j, ScoreSuffix);
    SameFrame(i, j, ReasonSuffix);
  }

  /** The persona number can be read back from a column name. */
  lemma SameFrame(i: nat, j: nat, suffix: string)
    ensures PersonaPrefix + NatToDecimal(i) + suffix == PersonaPrefix + NatToDecimal(j) + suffix ==> i == j
  {
    var a := NatToDecimal(i);
    var b := NatToDecimal(j);
    var p := PersonaPrefix;
    if p + a + suffix == p + b + suffix {
      assert |a| == |b|;
      assert a == (p + a + suffix)[|p|..|p| + |a|];
      assert b == (p + b + suffix)[|p|..|p| + |b|];
      NatToDecimalInjective(i, j);
    }
  }

  /** The three kinds of column, as functions of the persona number. The
      rows are stated over any naming whose names do not clash, so that the
      proofs about them need not look inside the column names. */
  datatype Columns = Columns(name: string, score: nat -> string, reason: nat -> string)

  /** The columns of app.py. */
  const Cols: Columns := Columns(IdeaNameKey, ScoreKey, ReasonKey)

  ghost predicate Distinct(c: Columns) {
    && (forall i: nat, j: nat :: c.score(i) != c.reason(j))
    && (forall i: nat :: c.score(i) != c.name && c.reason(i) != c.name)
    && (forall i: nat, j: nat :: c.score(i) == c.score(j) ==> i == j)
    && (forall i: nat, j: nat :: c.reason(i) == c.reason(j) ==> i == j)
  }

  lemma ColsDistinct()
    ensures Distinct(Cols)
  {
    forall i: nat, j: nat
      ensures ScoreKey(i) != ReasonKey(j) && ScoreKey(i) != IdeaNameKey && ReasonKey(i) != IdeaNameKey
      ensures ScoreKey(i) == ScoreKey(j) ==> i == j
      ensures ReasonKey(i) == ReasonKey(j) ==> i == j
    {
      KeysDistinct(i, j);
    }
  }

  // ---------------------------------------------------------------------------
  // The reference rows

  /** The row of an idea once the personas `texts` have evaluated it: the
      name column, then each persona's score and reason columns. */
  function IdeaRow(cols: Columns, texts: seq<string>, idea: Idea, pos: nat,
                   assess: Assessments): Row
    decreases |texts|
  {
    if |texts| == 0 then map[cols.name := idea.name]
    else
      var n := |texts|;
      var e := assess(n, pos, texts[n - 1], idea.name, idea.desc);
      IdeaRow(cols, texts[..n - 1], idea, pos, assess)[cols.score(n) := e.score][cols.reason(n) := e.reason]
  }

  /** The columns of a row after `n` personas. */
  function RowKeys(cols: Columns, n: nat): (ks: set<string>)
    ensures cols.name in ks
    ensures forall i :: 1 <= i <= n ==> cols.score(i) in ks && cols.reason(i) in ks
  {
    if n == 0 then {cols.name} else RowKeys(cols, n - 1) + {cols.score(n), cols.reason(n)}
  }

  /** The row has the name column and one score and one reason column per
      persona. */
  lemma {:induction false} IdeaRowKeys(cols: Columns, texts: seq<string>, idea: Idea, pos: nat,
                                       assess: Assessments)
    ensures IdeaRow(cols, texts, idea, pos, assess).Keys == RowKeys(cols, |texts|)
    decreases |texts|
  {
    if |texts| > 0 {
      IdeaRowKeys(cols, texts[..|texts| - 1], idea, pos, assess);
    }
  }

  /** Each column of the row holds the idea's name or that persona's
      evaluation of the idea. */
  lemma {:induction false} IdeaRowMeaning(cols: Columns, texts: seq<string>, idea: Idea, pos: nat,
                                          assess: Assessments)
    requires Distinct(cols)
    ensures var row := IdeaRow(cols, texts, idea, pos, assess);
      && cols.name in row && row[cols.name] == idea.name
      && forall i :: 1 <= i <= |texts| ==>
           && cols.score(i) in row && row[cols.score(i)] == assess(i, pos, texts[i - 1], idea.name, idea.desc).score
           && cols.reason(i) in row && row[cols.reason(i)] == assess(i, pos, texts[i - 1], idea.name, idea.desc).reason
    decreases |texts|
  {
    IdeaRowKeys(cols, texts, idea, pos, assess);
    if |texts| > 0 {
      var n := |texts|;
      var init := texts[..n - 1];
      IdeaRowMeaning(cols, init, idea, pos, assess);
      var before := IdeaRow(cols, init, idea, pos, assess);
      var e := assess(n, pos, texts[n - 1], idea.name, idea.desc);
      var row := before[cols.score(n) := e.score][cols.reason(n) := e.reason];
      assert row == IdeaRow(cols, texts, idea, pos, assess);
      forall i | 1 <= i < n
        ensures row[cols.score(i)] == assess(i, pos, texts[i - 1], idea.name, idea.desc).score
        ensures row[cols.reason(i)] == assess(i, pos, texts[i - 1], idea.name, idea.desc).reason
      {
        assert init[i - 1] == texts[i - 1];
        assert cols.score(i) != cols.score(n) && cols.score(i) != cols.reason(n);
        assert cols.reason(i) != cols.score(n) && cols.reason(i) != cols.reason(n);
      }
    }
  }

  /** The columns after `n` personas: the name column, and the score and
      reason columns of the personas 1 to `n`. */
  lemma {:induction false} RowKeysMembers(cols: Columns, n: nat)
    ensures forall k :: k in RowKeys(cols, n) <==>
      k == cols.name || exists i :: 1 <= i <= n && (k == cols.score(i) || k == cols.reason(i))
  {
    if n > 0 {
      RowKeysMembers(cols, n - 1);
    }
  }

  /** The row of app.py's columns: `事業アイデア名`, then `ペルソナ{i}スコア`
      and `ペルソナ{i}理由` for every persona number `i` from 1. */
  lemma IdeaRowColumns(texts: seq<string>, idea: Idea, pos: nat, assess: Assessments)
    ensures var row := IdeaRow(Cols, texts, idea, pos, assess);
      && (forall k :: k in row <==>
            k == IdeaNameKey || exists i :: 1 <= i <= |texts| && (k == ScoreKey(i) || k == ReasonKey(i)))
      && row[IdeaNameKey] == idea.name
      && forall i :: 1 <= i <= |texts| ==>
           && ScoreKey(i) in row && row[ScoreKey(i)] == assess(i, pos, texts[i - 1], idea.name, idea.desc).score
           && ReasonKey(i) in row && row[ReasonKey(i)] == assess(i, pos, texts[i - 1], idea.name, idea.desc).reason
  {
    ColsDistinct();
    IdeaRowKeys(Cols, texts, idea, pos, assess);
    IdeaRowMeaning(Cols, texts, idea, pos, assess);
    RowKeysMembers(Cols, |texts|);
  }

  function IdeaNames(ideas: seq<Idea>): (r: seq<string>)
    ensures |r| == |ideas|
    ensures forall k :: 0 <= k < |ideas| ==> r[k] == ideas[k].name
  {
    seq(|ideas|, k requires 0 <= k < |ideas| => ideas[k].name)
  }

  /** The place of the last idea of a given name. */
  function LastIndex(ideas: seq<Idea>, name: string): (k: nat)
    requires name in IdeaNames(ideas)
    ensures k < |ideas| && ideas[k].name == name
    ensures forall j :: k < j < |ideas| ==> ideas[j].name != name
  {
    var n := |ideas|;
    if ideas[n - 1].name == name then n - 1
    else
      var init := ideas[..n - 1];
      assert name in IdeaNames(init) by {
        var k :| 0 <= k < n && IdeaNames(ideas)[k] == name;
        assert k < n - 1 && IdeaNames(init)[k] == name;
      }
      LastIndex(init, name)
  }

  /** The last idea of a given name: the one whose evaluations survive. */
  function LastIdea(ideas: seq<Idea>, name: string): Idea
    requires name in IdeaNames(ideas)
  {
    ideas[LastIndex(ideas, name)]
  }

  // ---------------------------------------------------------------------------
  // The loops

  /** One pass of the inner loop body: the row of the idea's name is taken or
      created with the name column, and the persona's columns are set. */
  function Record(cols: Columns, t: RowsByIdea, idea: Idea, index: nat, e: Evaluation): RowsByIdea {
    var row := Before(cols, t, idea.name);
    RowsByIdea(if idea.name in t.rows then t.order else t.order + [idea.name],
               t.rows[idea.name := row[cols.score(index) := e.score][cols.reason(index) := e.reason]])
  }

  /** The row an idea name has before the current persona evaluates it. */
  function Before(cols: Columns, t: RowsByIdea, name: string): Row {
    if name in t.rows then t.rows[name] else map[cols.name := name]
  }

  /** The inner loop: the persona with text `text` and number `index`
      evaluates each idea in turn. */
  function RecordIdeas(cols: Columns, t: RowsByIdea, ideas: seq<Idea>, index: nat, text: string,
                       assess: Assessments): RowsByIdea
    decreases |ideas|
  {
    if |ideas| == 0 then t
    else
      var idea := ideas[|ideas| - 1];
      Record(cols, RecordIdeas(cols, t, ideas[..|ideas| - 1], index, text, assess), idea, index,
             assess(index, |ideas| - 1, text, idea.name, idea.desc))
  }

  /** The outer loop over the personas `texts`, numbered from 1. */
  function RecordPersonas(cols: Columns, texts: seq<string>, ideas: seq<Idea>,
                          assess: Assessments): RowsByIdea
    decreases |texts|
  {
    if |texts| == 0 then RowsByIdea([], map[])
    else
      var n := |texts|;
      RecordIdeas(cols, RecordPersonas(cols, texts[..n - 1], ideas, assess), ideas, n, texts[n - 1], assess)
  }

  /** What one persona's pass does to the dict's keys: new names are
      appended in order of first appearance, and no other key appears. */
  lemma {:induction false} RecordIdeasKeys(cols: Columns, t: RowsByIdea, ideas: seq<Idea>, index: nat, text: string,
                                           assess: Assessments)
    requires WellFormed(t)
    ensures var r := RecordIdeas(cols, t, ideas, index, text, assess);
      && WellFormed(r)
      && (t.order == [] ==> r.order == Dedup(IdeaNames(ideas)))
      && ((forall k :: 0 <= k < |ideas| ==> ideas[k].name in t.rows) ==> r.order == t.order)
      && (forall n :: n in r.rows <==> n in t.rows || n in IdeaNames(ideas))
    decreases |ideas|
  {
    if |ideas| > 0 {
      var m := |ideas|;
      var init := ideas[..m - 1];
      var idea := ideas[m - 1];
      RecordIdeasKeys(cols, t, init, index, text, assess);
      assert IdeaNames(ideas) == IdeaNames(init) + [idea.name];
      if t.order == [] {
        assert IdeaNames(ideas)[..m - 1] == IdeaNames(init);
      }
      if forall k :: 0 <= k < |ideas| ==> ideas[k].name in t.rows {
        assert forall k :: 0 <= k < |init| ==> init[k].name == ideas[k].name;
      }
    }
  }

  /** What one persona's pass does to the rows: the row of each name it meets
      gains that persona's columns, filled from the last idea of the name. */
  lemma {:induction false} RecordIdeasRows(cols: Columns, t: RowsByIdea, ideas: seq<Idea>, index: nat, text: string,
                                           assess: Assessments)
    requires Distinct(cols)
    ensures var r := RecordIdeas(cols, t, ideas, index, text, assess);
      forall n :: n in IdeaNames(ideas) ==>
        var last := LastIdea(ideas, n);
        var e := assess(index, LastIndex(ideas, n), text, last.name, last.desc);
        n in r.rows && r.rows[n] == Before(cols, t, n)[cols.score(index) := e.score][cols.reason(index) := e.reason]
    decreases |ideas|
  {
    if |ideas| > 0 {
      var m := |ideas|;
      var init := ideas[..m - 1];
      var idea := ideas[m - 1];
      var p := RecordIdeas(cols, t, init, index, text, assess);
      RecordIdeasRows(cols, t, init, index, text, assess);
      var e := assess(index, m - 1, text, idea.name, idea.desc);
      var r := Record(cols, p, idea, index, e);
      assert r == RecordIdeas(cols, t, ideas, index, text, assess);
      assert IdeaNames(ideas) == IdeaNames(init) + [idea.name];
      forall n | n in IdeaNames(ideas)
        ensures var last := LastIdea(ideas, n);
          var e' := assess(index, LastIndex(ideas, n), text, last.name, last.desc);
          n in r.rows && r.rows[n] == Before(cols, t, n)[cols.score(index) := e'.score][cols.reason(index) := e'.reason]
      {
        if n == idea.name {
          assert LastIndex(ideas, n) == m - 1;
          if n in IdeaNames(init) {
            var last := LastIdea(init, n);
            var e' := assess(index, LastIndex(init, n), text, last.name, last.desc);
            assert Before(cols, p, n) == Before(cols, t, n)[cols.score(index) := e'.score][cols.reason(index) := e'.reason];
            OverwriteTwice(Before(cols, t, n), cols.score(index), cols.reason(index), e'.score, e'.reason, e.score, e.reason);
          } else {
            NotYetRecorded(cols, t, init, index, text, assess, n);
          }
        } else {
          assert n in IdeaNames(init);
          assert LastIndex(ideas, n) == LastIndex(init, n);
        }
      }
    }
  }

  /** A name the pass has not met keeps its row. */
  lemma {:induction false} NotYetRecorded(cols: Columns, t: RowsByIdea, ideas: seq<Idea>, index: nat, text: string,
                                          assess: Assessments, n: string)
    requires n !in IdeaNames(ideas)
    ensures Before(cols, RecordIdeas(cols, t, ideas, index, text, assess), n) == Before(cols, t, n)
    decreases |ideas|
  {
    if |ideas| > 0 {
      var init := ideas[..|ideas| - 1];
      assert IdeaNames(ideas) == IdeaNames(init) + [ideas[|ideas| - 1].name];
      NotYetRecorded(cols, t, init, index, text, assess, n);
    }
  }

  /** Setting the same two columns twice keeps the second values. */
  lemma OverwriteTwice(row: Row, a: string, b: string, x: string, y: string, x': string, y': string)
    requires a != b
    ensures row[a := x][b := y][a := x'][b := y'] == row[a := x'][b := y']
  {
  }

  /** The outcome of the outer loop: with no persona there is no row; else
      there is one row per distinct idea name, in order of first appearance,
      and it is the reference row of the last idea of that name. */
  lemma {:induction false} RecordPersonasMeaning(cols: Columns, texts: seq<string>, ideas: seq<Idea>,
                                                 assess: Assessments)
    requires Distinct(cols)
    ensures var r := RecordPersonas(cols, texts, ideas, assess);
      && WellFormed(r)
      && r.order == (if |texts| == 0 then [] else Dedup(IdeaNames(ideas)))
      && forall n :: n in r.rows ==> n in IdeaNames(ideas) && r.rows[n] == IdeaRow(cols, texts, LastIdea(ideas, n), LastIndex(ideas, n), assess)
    decreases |texts|
  {
    if |texts| > 0 {
      var n := |texts|;
      var init := texts[..n - 1];
      var p := RecordPersonas(cols, init, ideas, assess);
      RecordPersonasMeaning(cols, init, ideas, assess);
      RecordIdeasKeys(cols, p, ideas, n, texts[n - 1], assess);
      RecordIdeasRows(cols, p, ideas, n, texts[n - 1], assess);
      if n > 1 {
        forall k | 0 <= k < |ideas| ensures ideas[k].name in p.rows {
          assert IdeaNames(ideas)[k] == ideas[k].name;
        }
      }
      var r := RecordPersonas(cols, texts, ideas, assess);
      forall x | x in r.rows ensures r.rows[x] == IdeaRow(cols, texts, LastIdea(ideas, x), LastIndex(ideas, x), assess) {
        var last := LastIdea(ideas, x);
        assert last.name == x;
      }
    }
  }

  /** The rows in insertion order: `list(rows_by_idea.values())`. */
  function Values(t: RowsByIdea): (rows: seq<Row>)
    requires forall k :: 0 <= k < |t.order| ==> t.order[k] in t.rows
    ensures |rows| == |t.order|
  {
    seq(|t.order|, k requires 0 <= k < |t.order| => t.rows[t.order[k]])
  }

  // ---------------------------------------------------------------------------
  // The aggregation

  /** The inner loop of app.py: persona number `i` evaluates every idea in
      turn, each evaluation writing that persona's two columns of the idea's
      row. */
  method EvaluateIdeas(t0: RowsByIdea, persona: Persona, i: nat, ideas: seq<Idea>, evaluate: Replies)
    returns (t: RowsByIdea)
    ensures t == RecordIdeas(Cols, t0, ideas, i, persona.text, Assess(evaluate))
  {
    t := t0;
    var j := 0;
    while j < |ideas|
      invariant j <= |ideas|
      invariant t == RecordIdeas(Cols, t0, ideas[..j], i, persona.text, Assess(evaluate))
    {
      var idea := ideas[j];
      var e := ParseEvaluationOutput(Some(evaluate(i, j, persona.text, idea.name, idea.desc)));
      assert e == Assess(evaluate)(i, j, persona.text, idea.name, idea.desc);
      var row := if idea.name in t.rows then t.rows[idea.name] else map[IdeaNameKey := idea.name];
      var order := if idea.name in t.rows then t.order else t.order + [idea.name];
      row := row[ScoreKey(i) := e.score];
      row := row[ReasonKey(i) := e.reason];
      t := RowsByIdea(order, t.rows[idea.name := row]);
      assert ideas[..j + 1][..j] == ideas[..j];
      j := j + 1;
    }
    assert ideas[..j] == ideas;
  }

  /** The outer loop of app.py: every persona, numbered from 1, evaluates
      every idea. */
  method EvaluatePersonas(personas: seq<Persona>, ideas: seq<Idea>, evaluate: Replies)
    returns (t: RowsByIdea)
    ensures t == RecordPersonas(Cols, PersonaTexts(personas), ideas, Assess(evaluate))
  {
    var texts := PersonaTexts(personas);
    t := RowsByIdea([], map[]);
    var p := 0;
    while p < |personas|
      invariant p <= |personas|
      invariant t == RecordPersonas(Cols, texts[..p], ideas, Assess(evaluate))
    {
      t := EvaluateIdeas(t, personas[p], p + 1, ideas, evaluate);
      assert texts[..p + 1][..p] == texts[..p];
      p := p + 1;
    }
    assert texts[..p] == texts;
  }

  /** The evaluation loop of app.py. With no persona there is no row;
      otherwise there is exactly one row per distinct idea name, in order of
      first appearance, and it is the reference row of the last idea of that
      name: the name column plus the score and reason columns of every
      persona, numbered from 1, parsed from that persona's evaluation. */
  method AggregateRows(personas: seq<Persona>, ideas: seq<Idea>, evaluate: Replies)
    returns (rows: seq<Row>)
    ensures |personas| == 0 ==> rows == []
    ensures |personas| > 0 ==> |rows| == |Dedup(IdeaNames(ideas))|
    ensures |personas| > 0 ==> forall k :: 0 <= k < |rows| ==>
      var name := Dedup(IdeaNames(ideas))[k];
      rows[k] == IdeaRow(Cols, PersonaTexts(personas), LastIdea(ideas, name), LastIndex(ideas, name), Assess(evaluate))
  {
    var t := EvaluatePersonas(personas, ideas, evaluate);
    ColsDistinct();
    RecordPersonasMeaning(Cols, PersonaTexts(personas), ideas, Assess(evaluate));
    rows := Values(t);
  }

  function PersonaTexts(personas: seq<Persona>): (r: seq<string>)
    ensures |r| == |personas|
    ensures forall k :: 0 <= k < |personas| ==> r[k] == personas[k].text
  {
    seq(|personas|, k requires 0 <= k < |personas| => personas[k].text)
  }

  /** Every score cell of the aggregation is empty or a run of digits. */
  lemma ScoresAreDigits(texts: seq<string>, idea: Idea, pos: nat, evaluate: Replies, i: nat)
    requires 1 <= i <= |texts|
    ensures var row := IdeaRow(Cols, texts, idea, pos, Assess(evaluate));
      ScoreKey(i) in row && AllDigits(row[ScoreKey(i)])
  {
    IdeaRowColumns(texts, idea, pos, Assess(evaluate));
    var e := ParseEvaluationOutput(Some(evaluate(i, pos, texts[i - 1], idea.name, idea.desc)));
    assert Assess(evaluate)(i, pos, texts[i - 1], idea.name, idea.desc) == e;
  }
}
