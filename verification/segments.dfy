/** The segment proposals parsed from the model's reply in app.py, lifted out
    of the user interface: each line naming a segment opens a segment, and a
    reason line fills in the reason of the segment opened last. */
module Segments {
  import opened Text

  const NameLabel: string := "セグメント名："
  const SegmentReasonLabel: string := "理由："

  datatype Segment = Segment(name: string, reason: string)

  predicate IsNameLine(block: string) {
    Contains(block, NameLabel)
  }

  predicate IsReasonLine(block: string) {
    Contains(block, SegmentReasonLabel)
  }

  /** `block.replace("セグメント名：", "").strip()`. */
  function NameOf(block: string): string {
    Strip(RemoveAll(block, NameLabel))
  }

  /** `block.replace("理由：", "").strip()`. */
  function ReasonOf(block: string): string {
    Strip(RemoveAll(block, SegmentReasonLabel))
  }

  /** What the parsing loop asks of a line: whether it names a segment or
      gives a reason, and which name or reason. The loop and its reading by
      groups are stated over these, so that the proofs about them do not
      depend on how a line is tested. */
  datatype LineRules = LineRules(isName: string -> bool, nameOf: string -> string,
                                 isReason: string -> bool, reasonOf: string -> string)

  /** The rules of app.py. */
  const Rules: LineRules := LineRules(IsNameLine, NameOf, IsReasonLine, ReasonOf)

  /** One iteration of the parsing loop. */
  function Step(rules: LineRules, acc: seq<Segment>, block: string): seq<Segment> {
    if rules.isName(block) then acc + [Segment(rules.nameOf(block), "")]
    else if rules.isReason(block) && |acc| > 0 then
      acc[..|acc| - 1] + [acc[|acc| - 1].(reason := rules.reasonOf(block))]
    else acc
  }

  /** The parsing loop, from the segments parsed so far. */
  function ParseBlocks(rules: LineRules, acc: seq<Segment>, blocks: seq<string>): seq<Segment>
    decreases |blocks|
  {
    if |blocks| == 0 then acc else ParseBlocks(rules, Step(rules, acc, blocks[0]), blocks[1..])
  }

  // ---------------------------------------------------------------------------
  // The reading by groups

  /** The place of the first line naming a segment, or `|blocks|`. */
  function NextNameLine(rules: LineRules, blocks: seq<string>): (k: nat)
    ensures k <= |blocks|
    ensures k < |blocks| ==> rules.isName(blocks[k])
    ensures forall j :: 0 <= j < k ==> !rules.isName(blocks[j])
  {
    if |blocks| == 0 || rules.isName(blocks[0]) then 0 else 1 + NextNameLine(rules, blocks[1..])
  }

  /** The segments read group by group: a line naming a segment together with
      the lines up to the next one makes one segment, whose reason is taken
      from the last reason line of the group, or is empty; lines before the
      first segment are dropped. */
  function Grouped(rules: LineRules, blocks: seq<string>): seq<Segment>
    decreases |blocks|
  {
    if |blocks| == 0 then []
    else if rules.isName(blocks[0]) then
      var rest := blocks[1..];
      var k := NextNameLine(rules, rest);
      [Segment(rules.nameOf(blocks[0]), LastValue(rest[..k], rules.isReason, rules.reasonOf, ""))]
        + Grouped(rules, rest[k..])
    else Grouped(rules, blocks[1..])
  }

  /** The reason lines of a group, read in order, fill in the segment parsed
      last; with none parsed yet they are ignored. */
  function Absorb(rules: LineRules, acc: seq<Segment>, group: seq<string>): seq<Segment> {
    if |acc| == 0 then []
    else
      var last := acc[|acc| - 1];
      acc[..|acc| - 1] + [last.(reason := LastValue(group, rules.isReason, rules.reasonOf, last.reason))]
  }

  /** The loop parses a line sequence into what it held, completed by the
      leading reason lines, followed by the groups. */
  lemma {:induction false} ParseBlocksGrouped(rules: LineRules, acc: seq<Segment>, blocks: seq<string>)
    ensures var k := NextNameLine(rules, blocks);
      ParseBlocks(rules, acc, blocks) == Absorb(rules, acc, blocks[..k]) + Grouped(rules, blocks[k..])
    decreases |blocks|, 1
  {
    if |blocks| == 0 {
      AbsorbNothing(rules, acc);
      assert blocks[..0] == blocks[0..] == [];
    } else if rules.isName(blocks[0]) {
      OpeningLine(rules, acc, blocks);
    } else {
      GroupLine(rules, acc, blocks);
    }
  }

  lemma {:induction false} OpeningLine(rules: LineRules, acc: seq<Segment>, blocks: seq<string>)
    requires |blocks| > 0 && rules.isName(blocks[0])
    ensures ParseBlocks(rules, acc, blocks) == acc + Grouped(rules, blocks)
    decreases |blocks|, 0
  {
    var rest := blocks[1..];
    var seg := Segment(rules.nameOf(blocks[0]), "");
    var k := NextNameLine(rules, rest);
    var filled := seg.(reason := LastValue(rest[..k], rules.isReason, rules.reasonOf, ""));
    var later := Grouped(rules, rest[k..]);
    calc {
      ParseBlocks(rules, acc, blocks);
      { assert Step(rules, acc, blocks[0]) == acc + [seg]; }
      ParseBlocks(rules, acc + [seg], rest);
      { ParseBlocksGrouped(rules, acc + [seg], rest); }
      Absorb(rules, acc + [seg], rest[..k]) + later;
      { AbsorbOpened(rules, acc, seg, rest[..k]); }
      (acc + [filled]) + later;
      acc + ([filled] + later);
    }
  }

  lemma {:induction false} GroupLine(rules: LineRules, acc: seq<Segment>, blocks: seq<string>)
    requires |blocks| > 0 && !rules.isName(blocks[0])
    ensures var k := NextNameLine(rules, blocks);
      ParseBlocks(rules, acc, blocks) == Absorb(rules, acc, blocks[..k]) + Grouped(rules, blocks[k..])
    decreases |blocks|, 0
  {
    var k := NextNameLine(rules, blocks);
    var rest := blocks[1..];
    var k' := NextNameLine(rules, rest);
    assert k == k' + 1;
    assert ParseBlocks(rules, acc, blocks) == ParseBlocks(rules, Step(rules, acc, blocks[0]), rest);
    ParseBlocksGrouped(rules, Step(rules, acc, blocks[0]), rest);
    assert blocks[k..] == rest[k'..];
    assert blocks[..k] == [blocks[0]] + rest[..k'];
    AbsorbStep(rules, acc, blocks[0], rest[..k']);
  }

  lemma AbsorbNothing(rules: LineRules, acc: seq<Segment>)
    ensures Absorb(rules, acc, []) == acc
  {
    if |acc| > 0 {
      assert acc[..|acc| - 1] + [acc[|acc| - 1]] == acc;
    }
  }

  lemma AbsorbOpened(rules: LineRules, acc: seq<Segment>, seg: Segment, group: seq<string>)
    ensures Absorb(rules, acc + [seg], group)
         == acc + [seg.(reason := LastValue(group, rules.isReason, rules.reasonOf, seg.reason))]
  {
    assert (acc + [seg])[..|acc|] == acc;
  }

  /** A line that names no segment is one more line of the current group. */
  lemma AbsorbStep(rules: LineRules, acc: seq<Segment>, block: string, group: seq<string>)
    requires !rules.isName(block)
    ensures Absorb(rules, Step(rules, acc, block), group) == Absorb(rules, acc, [block] + group)
  {
    assert ([block] + group)[1..] == group;
    if |acc| > 0 {
      var last := acc[|acc| - 1];
      var d := if rules.isReason(block) then rules.reasonOf(block) else last.reason;
      assert Step(rules, acc, block) == acc[..|acc| - 1] + [last.(reason := d)];
      assert (acc[..|acc| - 1] + [last.(reason := d)])[..|acc| - 1] == acc[..|acc| - 1];
    }
  }

  /** Lines before the first segment do not change the groups. */
  lemma {:induction false} GroupedSkips(rules: LineRules, blocks: seq<string>)
    ensures Grouped(rules, blocks) == Grouped(rules, blocks[NextNameLine(rules, blocks)..])
    decreases |blocks|
  {
    if |blocks| > 0 && !rules.isName(blocks[0]) {
      GroupedSkips(rules, blocks[1..]);
      assert blocks[NextNameLine(rules, blocks)..] == blocks[1..][NextNameLine(rules, blocks[1..])..];
    }
  }

  /** The names of the lines that name a segment, in order. */
  function NameLines(rules: LineRules, blocks: seq<string>): (r: seq<string>)
    ensures |r| <= |blocks|
    decreases |blocks|
  {
    if |blocks| == 0 then []
    else (if rules.isName(blocks[0]) then [rules.nameOf(blocks[0])] else []) + NameLines(rules, blocks[1..])
  }

  function Names(segs: seq<Segment>): (r: seq<string>)
    ensures |r| == |segs|
  {
    seq(|segs|, k requires 0 <= k < |segs| => segs[k].name)
  }

  /** One segment per line naming a segment, carrying that line's name. */
  lemma {:induction false} GroupedNames(rules: LineRules, blocks: seq<string>)
    ensures Names(Grouped(rules, blocks)) == NameLines(rules, blocks)
    decreases |blocks|
  {
    if |blocks| > 0 {
      var rest := blocks[1..];
      if rules.isName(blocks[0]) {
        var k := NextNameLine(rules, rest);
        GroupedNames(rules, rest[k..]);
        NameLinesSkip(rules, rest, k);
        var g := Grouped(rules, rest[k..]);
        var seg := Segment(rules.nameOf(blocks[0]), LastValue(rest[..k], rules.isReason, rules.reasonOf, ""));
        assert Grouped(rules, blocks) == [seg] + g;
        assert Names([seg] + g) == [seg.name] + Names(g);
      } else {
        GroupedNames(rules, rest);
      }
    }
  }

  lemma {:induction false} NameLinesSkip(rules: LineRules, blocks: seq<string>, k: nat)
    requires k <= |blocks|
    requires forall j :: 0 <= j < k ==> !rules.isName(blocks[j])
    ensures NameLines(rules, blocks) == NameLines(rules, blocks[k..])
    decreases k
  {
    if k > 0 {
      NameLinesSkip(rules, blocks[1..], k - 1);
      assert blocks[1..][k - 1..] == blocks[k..];
    }
  }

  // ---------------------------------------------------------------------------
  // The parser

  /** The segments parsed from the reply: the loop over the lines of the
      stripped reply, which reads them group by group, so there is one
      segment per line naming a segment, in order, named after that line. */
  function ParseSegments(raw: string): (r: seq<Segment>)
    ensures r == Grouped(Rules, Split(Strip(raw), '\n'))
    ensures Names(r) == NameLines(Rules, Split(Strip(raw), '\n'))
  {
    var blocks := Split(Strip(raw), '\n');
    ParseBlocksGrouped(Rules, [], blocks);
    GroupedSkips(Rules, blocks);
    GroupedNames(Rules, blocks);
    ParseBlocks(Rules, [], blocks)
  }

  /** A reason line fills in the reason of the segment parsed last and leaves
      the others alone; before any segment it is ignored. */
  lemma ReasonLineEffect(acc: seq<Segment>, block: string)
    requires !IsNameLine(block) && IsReasonLine(block)
    ensures |acc| == 0 ==> Step(Rules, acc, block) == acc
    ensures |acc| > 0 ==>
      && |Step(Rules, acc, block)| == |acc|
      && Step(Rules, acc, block)[|acc| - 1] == Segment(acc[|acc| - 1].name, ReasonOf(block))
      && forall j :: 0 <= j < |acc| - 1 ==> Step(Rules, acc, block)[j] == acc[j]
  {
  }

  /** No segment name spans lines. */
  lemma NamesOneLine(raw: string)
    ensures forall k :: 0 <= k < |ParseSegments(raw)| ==> '\n' !in ParseSegments(raw)[k].name
  {
    var blocks := Split(Strip(raw), '\n');
    NameLinesOneLine(blocks);
    var r := ParseSegments(raw);
    forall k | 0 <= k < |r| ensures '\n' !in r[k].name {
      assert r[k].name == Names(r)[k];
    }
  }

  lemma {:induction false} NameLinesOneLine(blocks: seq<string>)
    requires forall k :: 0 <= k < |blocks| ==> '\n' !in blocks[k]
    ensures forall k :: 0 <= k < |NameLines(Rules, blocks)| ==> '\n' !in NameLines(Rules, blocks)[k]
    decreases |blocks|
  {
    if |blocks| > 0 {
      NameLinesOneLine(blocks[1..]);
      if IsNameLine(blocks[0]) {
        RemoveAllChars(blocks[0], NameLabel, '\n');
        StripChars(RemoveAll(blocks[0], NameLabel), '\n');
      }
    }
  }

  /** The segment list kept for editing: the names, one per line. */
  function SegmentsText(segs: seq<Segment>): string {
    Join(Names(segs), "\n")
  }

  /** Reading the kept list back line by line gives the parsed names again,
      whenever a segment was parsed. */
  lemma SegmentsTextRoundTrip(raw: string)
    requires |ParseSegments(raw)| > 0
    ensures Split(SegmentsText(ParseSegments(raw)), '\n') == Names(ParseSegments(raw))
  {
    var r := ParseSegments(raw);
    NamesOneLine(raw);
    forall k | 0 <= k < |Names(r)| ensures '\n' !in Names(r)[k] {
      assert Names(r)[k] == r[k].name;
    }
    SplitJoin(Names(r), '\n');
  }
}
