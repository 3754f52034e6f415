/** The text of a persona card (`persona_card_block` in
    generate_pdf_report.py): the persona's non-blank lines, with a trailing
    lone `#` dropped, each formatted as ReportLab paragraph markup and joined
    with `<br/>`. A line with a colon shows the part before its first colon in
    bold. */
module PersonaCard {
  import opened Text

  const LineBreakTag: string := "<br/>"
  const BoldOpen: string := "<b>"
  /** What follows the bold head: the colon, the closing tag and a space. */
  const BoldClose: string := ":</b> "

  // ---------------------------------------------------------------------------
  // html.escape

  /** What `html.escape` (with `quote=True`) turns one character into. */
  function EscapeChar(c: char): string {
    if c == '&' then "&amp;"
    else if c == '<' then "&lt;"
    else if c == '>' then "&gt;"
    else if c == '"' then "&quot;"
    else if c == '\'' then "&#x27;"
    else [c]
  }

  /** `html.escape(s)`. It replaces `&` first, so no entity is escaped
      twice, and that is the same as escaping character by character. */
  function Escape(s: string): string {
    if |s| == 0 then "" else EscapeChar(s[0]) + Escape(s[1..])
  }

  /** The entity `s` begins with, if it begins with one of the five that
      `Escape` writes: the character it stands for and its length. */
  function EntityAt(s: string): (r: Option<(char, nat)>)
    ensures r.Some? ==> 0 < r.value.1 <= |s|
  {
    if |s| < 2 || s[0] != '&' then None
    else if s[1] == 'a' && StartsWith(s, "&amp;") then Some(('&', 5))
    else if s[1] == 'l' && StartsWith(s, "&lt;") then Some(('<', 4))
    else if s[1] == 'g' && StartsWith(s, "&gt;") then Some(('>', 4))
    else if s[1] == 'q' && StartsWith(s, "&quot;") then Some(('"', 6))
    else if s[1] == '#' && StartsWith(s, "&#x27;") then Some(('\'', 6))
    else None
  }

  /** Reads back the five entities `Escape` writes. */
  function Unescape(s: string): string
    decreases |s|
  {
    if |s| == 0 then ""
    else match EntityAt(s)
      case Some((c, n)) => [c] + Unescape(s[n..])
      case None => [s[0]] + Unescape(s[1..])
  }

  lemma UnescapeChar(c: char, rest: string)
    ensures Unescape(EscapeChar(c) + rest) == [c] + Unescape(rest)
  {
    var x := EscapeChar(c);
    var e := x + rest;
    assert e[..|x|] == x && e[|x|..] == rest;
    if |x| > 1 {
      assert e[0] == '&' && e[1] == x[1];
      assert EntityAt(e) == Some((c, |x|));
    } else {
      assert e[0] == c && c != '&';
    }
  }

  /** Escaping loses nothing: unescaping gives the text back. */
  lemma {:induction false} EscapeRoundTrip(s: string)
    ensures Unescape(Escape(s)) == s
  {
    if |s| > 0 {
      UnescapeChar(s[0], Escape(s[1..]));
      EscapeRoundTrip(s[1..]);
      assert s == [s[0]] + s[1..];
    }
  }

  lemma EscapeCharMarkupFree(c: char)
    ensures var e := EscapeChar(c);
      '<' !in e && '>' !in e && '"' !in e && '\'' !in e && (':' in e <==> c == ':')
  {
  }

  /** Escaped text holds none of `<`, `>`, `"` and `'`, and it holds a colon
      exactly when the text does. */
  lemma {:induction false} EscapeMarkupFree(s: string)
    ensures '<' !in Escape(s) && '>' !in Escape(s) && '"' !in Escape(s) && '\'' !in Escape(s)
    ensures ':' in Escape(s) <==> ':' in s
  {
    if |s| > 0 {
      EscapeMarkupFree(s[1..]);
      assert s == [s[0]] + s[1..];
      EscapeCharMarkupFree(s[0]);
    }
  }

  // ---------------------------------------------------------------------------
  // One line

  /** What a card shows of a line: for a line with a colon, the stripped
      parts before and after its first colon; otherwise the line as it is. */
  datatype CardLine = Field(head: string, tail: string) | Plain(text: string)

  function LineParts(line: string): CardLine {
    if ':' in line then
      var i := FindChar(line, ':');
      Field(Strip(line[..i]), Strip(line[i + 1..]))
    else Plain(line)
  }

  /** One formatted line: `<b>{head}:</b> {tail}` with both parts escaped, or
      the escaped line. */
  function FormatLine(line: string): string {
    match LineParts(line)
    case Field(head, tail) => BoldOpen + Escape(head) + BoldClose + Escape(tail)
    case Plain(text) => Escape(text)
  }

  /** Reads a formatted line back: markup begins with `<`, which escaped
      text never does. The bold head ends at the first colon. */
  function ReadLine(f: string): CardLine {
    if |f| > 0 && f[0] == '<' then
      var i := FindChar(f, ':');
      if 3 <= i && i + |BoldClose| <= |f| then Field(Unescape(f[3..i]), Unescape(f[i + |BoldClose|..]))
      else Plain(Unescape(f))
    else Plain(Unescape(f))
  }

  /** A head has no colon: it comes before the first one. */
  lemma HeadHasNoColon(line: string)
    requires ':' in line
    ensures ':' !in Strip(line[..FindChar(line, ':')])
  {
    var i := FindChar(line, ':');
    assert ':' !in line[..i];
    StripChars(line[..i], ':');
  }

  /** A bold field can be read back. */
  lemma FieldRoundTrip(head: string, tail: string)
    requires ':' !in head
    ensures ReadLine(BoldOpen + Escape(head) + BoldClose + Escape(tail)) == Field(head, tail)
  {
    EscapeRoundTrip(head);
    EscapeRoundTrip(tail);
    EscapeMarkupFree(head);
    FieldParts(Escape(head), Escape(tail));
  }

  /** In a bold field, the first colon is the one after the escaped head. */
  lemma FieldParts(eh: string, et: string)
    requires ':' !in eh
    ensures var f := BoldOpen + eh + BoldClose + et;
      && FindChar(f, ':') == 3 + |eh|
      && f[0] == '<' && f[3..3 + |eh|] == eh && f[3 + |eh| + |BoldClose|..] == et
  {
    var f := BoldOpen + eh + BoldClose + et;
    assert ':' !in BoldOpen + eh;
    assert f == (BoldOpen + eh) + [':'] + ("</b> " + et);
    FindCharPrefix(BoldOpen + eh, ':', "</b> " + et);
    assert f[3..3 + |eh|] == eh;
    assert f[3 + |eh| + |BoldClose|..] == et;
  }

  /** An escaped line can be read back. */
  lemma PlainRoundTrip(text: string)
    ensures ReadLine(Escape(text)) == Plain(text)
  {
    EscapeMarkupFree(text);
    EscapeRoundTrip(text);
    var f := Escape(text);
    if |f| > 0 {
      assert f[0] in f;
    }
  }

  /** Formatting a line loses nothing the card shows: the head, the tail or
      the whole line can be read back. */
  lemma FormatLineRoundTrip(line: string)
    ensures ReadLine(FormatLine(line)) == LineParts(line)
  {
    match LineParts(line)
    case Field(head, tail) =>
      HeadHasNoColon(line);
      FieldRoundTrip(head, tail);
    case Plain(text) =>
      PlainRoundTrip(text);
  }

  // ---------------------------------------------------------------------------
  // The card

  /** `[l for l in lines if l.strip()]`, keeping the lines unstripped. */
  function NonBlankCandidates(lines: seq<string>): (r: seq<Option<string>>)
    ensures |r| == |lines|
    ensures forall k :: 0 <= k < |r| ==> r[k] == if Strip(lines[k]) != [] then Some(lines[k]) else None
  {
    seq(|lines|, k requires 0 <= k < |lines| => if Strip(lines[k]) != [] then Some(lines[k]) else None)
  }

  /** The lines of the stripped persona text. */
  function PersonaLines(persona: string): seq<string> {
    Split(Strip(persona), '\n')
  }

  /** The lines a card shows of `lines`: the non-blank ones, unstripped,
      without the last of them when it strips to `#`. */
  function ShownLines(lines: seq<string>): seq<string> {
    var ls := Somes(NonBlankCandidates(lines));
    if |ls| > 0 && Strip(ls[|ls| - 1]) == "#" then ls[..|ls| - 1] else ls
  }

  function CardLines(persona: string): seq<string> {
    ShownLines(PersonaLines(persona))
  }

  /** The line `j` is non-blank and every line after it is blank. */
  ghost predicate LastNonBlank(lines: seq<string>, j: int) {
    0 <= j < |lines| && Strip(lines[j]) != [] && forall j' :: j < j' < |lines| ==> Strip(lines[j']) == []
  }

  /** `ls` are the non-blank lines of `lines`, in order, `idx` their places. */
  ghost predicate Kept(lines: seq<string>, ls: seq<string>, idx: seq<nat>) {
    && |idx| == |ls|
    && (forall k :: 0 <= k < |ls| ==> idx[k] < |lines| && ls[k] == lines[idx[k]] && Strip(ls[k]) != [])
    && (forall a, b :: 0 <= a < b < |idx| ==> idx[a] < idx[b])
    && (forall j :: 0 <= j < |lines| && Strip(lines[j]) != [] ==> j in idx)
  }

  lemma NonBlankKept(lines: seq<string>) returns (idx: seq<nat>)
    ensures Kept(lines, Somes(NonBlankCandidates(lines)), idx)
  {
    var cs := NonBlankCandidates(lines);
    SomesMeaning(cs);
    idx := SomeIndices(cs);
    var ls := Somes(cs);
    forall k | 0 <= k < |ls| ensures ls[k] == lines[idx[k]] && Strip(ls[k]) != [] {
      assert cs[idx[k]] == Some(ls[k]);
    }
    forall j | 0 <= j < |lines| && Strip(lines[j]) != [] ensures j in idx {
      assert cs[j].Some?;
    }
  }

  /** The last kept line is the last non-blank line. */
  lemma KeptLast(lines: seq<string>, ls: seq<string>, idx: seq<nat>)
    requires Kept(lines, ls, idx) && |idx| > 0
    ensures LastNonBlank(lines, idx[|idx| - 1])
    ensures forall j :: LastNonBlank(lines, j) ==> j == idx[|idx| - 1]
  {
    var last := idx[|idx| - 1];
    KeptMax(lines, ls, idx);
    assert ls[|ls| - 1] == lines[last];
  }

  /** No non-blank line comes after the last kept one. */
  lemma KeptMax(lines: seq<string>, ls: seq<string>, idx: seq<nat>)
    requires Kept(lines, ls, idx) && |idx| > 0
    ensures forall j :: 0 <= j < |lines| && Strip(lines[j]) != [] ==> j <= idx[|idx| - 1]
  {
    forall j | 0 <= j < |lines| && Strip(lines[j]) != [] ensures j <= idx[|idx| - 1] {
      AtMostLast(idx, j);
    }
  }

  /** An element of an increasing sequence is at most its last element. */
  lemma AtMostLast(idx: seq<nat>, j: nat)
    requires forall a, b :: 0 <= a < b < |idx| ==> idx[a] < idx[b]
    requires j in idx
    ensures j <= idx[|idx| - 1]
  {
    var k :| 0 <= k < |idx| && idx[k] == j;
    if k < |idx| - 1 {
      assert idx[k] < idx[|idx| - 1];
    }
  }

  /** What the card shows and where each shown line comes from. */
  ghost predicate ShownFrom(lines: seq<string>, shown: seq<string>, origin: seq<nat>) {
    && |origin| == |shown|
    && (forall k :: 0 <= k < |shown| ==> origin[k] < |lines| && shown[k] == lines[origin[k]] && Strip(shown[k]) != [])
    && (forall a, b :: 0 <= a < b < |origin| ==> origin[a] < origin[b])
    && (forall j :: 0 <= j < |lines| && Strip(lines[j]) != [] && j !in origin ==> LastNonBlank(lines, j) && Strip(lines[j]) == "#")
    && (forall j :: LastNonBlank(lines, j) && Strip(lines[j]) == "#" ==> j !in origin)
  }

  lemma DropLastShown(lines: seq<string>, ls: seq<string>, idx: seq<nat>)
    requires Kept(lines, ls, idx) && |ls| > 0 && Strip(ls[|ls| - 1]) == "#"
    ensures ShownFrom(lines, ls[..|ls| - 1], idx[..|idx| - 1])
  {
    KeptLast(lines, ls, idx);
    DropLastPrefix(lines, ls, idx);
    DroppedIsLast(lines, ls, idx);
    LastIsDropped(lines, ls, idx);
  }

  /** Dropping the last kept line keeps the others in place and in order. */
  lemma DropLastPrefix(lines: seq<string>, ls: seq<string>, idx: seq<nat>)
    requires Kept(lines, ls, idx) && |ls| > 0
    ensures var n := |idx| - 1;
      && |idx[..n]| == |ls[..n]|
      && (forall k :: 0 <= k < n ==> idx[..n][k] < |lines| && ls[..n][k] == lines[idx[..n][k]] && Strip(ls[..n][k]) != [])
      && (forall a, b :: 0 <= a < b < n ==> idx[..n][a] < idx[..n][b])
  {
    var n := |idx| - 1;
    assert forall k :: 0 <= k < n ==> idx[..n][k] == idx[k] && ls[..n][k] == ls[k];
  }

  /** A non-blank line the card leaves out is the last one, a lone `#`. */
  lemma DroppedIsLast(lines: seq<string>, ls: seq<string>, idx: seq<nat>)
    requires Kept(lines, ls, idx) && |ls| > 0 && Strip(ls[|ls| - 1]) == "#"
    requires LastNonBlank(lines, idx[|idx| - 1])
    ensures forall j :: 0 <= j < |lines| && Strip(lines[j]) != [] && j !in idx[..|idx| - 1] ==>
      LastNonBlank(lines, j) && Strip(lines[j]) == "#"
  {
    var n := |idx| - 1;
    forall j | 0 <= j < |lines| && Strip(lines[j]) != [] && j !in idx[..n]
      ensures j == idx[n]
    {
      var k :| 0 <= k < |idx| && idx[k] == j;
    }
  }

  /** The last non-blank line, when it is a lone `#`, is left out. */
  lemma LastIsDropped(lines: seq<string>, ls: seq<string>, idx: seq<nat>)
    requires Kept(lines, ls, idx) && |ls| > 0
    requires LastNonBlank(lines, idx[|idx| - 1])
    requires forall j :: LastNonBlank(lines, j) ==> j == idx[|idx| - 1]
    ensures forall j :: LastNonBlank(lines, j) ==> j !in idx[..|idx| - 1]
  {
    var n := |idx| - 1;
    forall j, k | LastNonBlank(lines, j) && 0 <= k < n ensures idx[..n][k] != j {
      assert idx[k] < idx[n];
    }
  }

  lemma KeepAllShown(lines: seq<string>, ls: seq<string>, idx: seq<nat>)
    requires Kept(lines, ls, idx) && !(|ls| > 0 && Strip(ls[|ls| - 1]) == "#")
    ensures ShownFrom(lines, ls, idx)
  {
    if |idx| > 0 {
      KeptLast(lines, ls, idx);
    }
  }

  /** The card shows the non-blank lines of `lines`, unstripped and in order:
      `origin[k]` is the place of card line `k`. The one non-blank line it
      may leave out is the last non-blank line, and it leaves that line out
      exactly when the line strips to `#`. */
  lemma ShownLinesMeaning(lines: seq<string>) returns (origin: seq<nat>)
    ensures ShownFrom(lines, ShownLines(lines), origin)
  {
    var ls := Somes(NonBlankCandidates(lines));
    var idx := NonBlankKept(lines);
    if |ls| > 0 && Strip(ls[|ls| - 1]) == "#" {
      DropLastShown(lines, ls, idx);
      origin := idx[..|idx| - 1];
    } else {
      KeepAllShown(lines, ls, idx);
      origin := idx;
    }
  }

  /** The card text: the formatted lines joined with `<br/>`. */
  function CardContent(persona: string): string {
    var ls := CardLines(persona);
    Join(seq(|ls|, k requires 0 <= k < |ls| => FormatLine(ls[k])), LineBreakTag)
  }

  /** `s` holds no `<br/>`, so joining at `<br/>` keeps the pieces apart. */
  predicate NoBreakTag(s: string) {
    forall i :: 0 <= i <= |s| - |LineBreakTag| ==> !BreakTagAt(s, i)
  }

  predicate BreakTagAt(s: string, i: int) {
    0 <= i <= |s| - |LineBreakTag| && s[i..i + |LineBreakTag|] == LineBreakTag
  }

  lemma EscapedNoBreakTag(x: string)
    ensures NoBreakTag(Escape(x))
  {
    var e := Escape(x);
    EscapeMarkupFree(x);
    forall i | 0 <= i <= |e| - |LineBreakTag| ensures !BreakTagAt(e, i) {
      assert e[i..i + |LineBreakTag|][0] == e[i];
      assert e[i] in e;
    }
  }

  /** In a bold field, `<` opens only the two tags, and neither is `<br/>`. */
  lemma FieldNoBreakTag(head: string, tail: string)
    ensures NoBreakTag(BoldOpen + Escape(head) + BoldClose + Escape(tail))
  {
    EscapeMarkupFree(head);
    EscapeMarkupFree(tail);
    MarkupNoBreakTag(Escape(head), Escape(tail));
  }

  lemma MarkupNoBreakTag(a: string, b: string)
    requires '<' !in a && '<' !in b
    ensures NoBreakTag(BoldOpen + a + BoldClose + b)
  {
    var f := BoldOpen + a + BoldClose + b;
    TagOpenings(a, b);
    forall i | 0 <= i <= |f| - |LineBreakTag| ensures !BreakTagAt(f, i) {
      BreakTagStart(f, i);
    }
  }

  /** The only `<` of a bold field are those of its two tags, at `0` and
      after the head's colon. */
  lemma TagOpenings(a: string, b: string)
    requires '<' !in a && '<' !in b
    ensures var f := BoldOpen + a + BoldClose + b;
      && f[1] == 'b' && f[2] == '>' && f[|a| + 5] == '/'
      && forall i :: 0 <= i < |f| && f[i] == '<' ==> i == 0 || i == |a| + 4
  {
    var f := BoldOpen + a + BoldClose + b;
    forall i | 3 <= i < 3 + |a| ensures f[i] != '<' {
      assert f[i] == a[i - 3] && a[i - 3] in a;
    }
    forall i | 3 + |a| + |BoldClose| <= i < |f| ensures f[i] != '<' {
      assert f[i] == b[i - 3 - |a| - |BoldClose|] && b[i - 3 - |a| - |BoldClose|] in b;
    }
  }

  /** `<br/>` begins with `<`, `b`, `r`. */
  lemma BreakTagStart(f: string, i: int)
    ensures BreakTagAt(f, i) ==> f[i] == '<' && f[i + 1] == 'b' && f[i + 2] == 'r'
  {
    if BreakTagAt(f, i) {
      var w := f[i..i + |LineBreakTag|];
      assert w[0] == f[i] && w[1] == f[i + 1] && w[2] == f[i + 2];
    }
  }

  /** No formatted line holds `<br/>`. */
  lemma FormatLineNoBreakTag(line: string)
    ensures NoBreakTag(FormatLine(line))
  {
    match LineParts(line)
    case Field(head, tail) => FieldNoBreakTag(head, tail);
    case Plain(text) => EscapedNoBreakTag(text);
  }

  /** The card text is its shown lines, formatted, joined with `<br/>`:
      `pieces[k]` is the piece of shown line `k`. Each piece reads back to
      what the card shows of its line, and none holds `<br/>`. */
  lemma CardContentMeaning(persona: string) returns (pieces: seq<string>)
    ensures CardContent(persona) == Join(pieces, LineBreakTag)
    ensures |pieces| == |CardLines(persona)|
    ensures forall k :: 0 <= k < |pieces| ==>
      ReadLine(pieces[k]) == LineParts(CardLines(persona)[k]) && NoBreakTag(pieces[k])
  {
    var ls := CardLines(persona);
    pieces := seq(|ls|, k requires 0 <= k < |ls| => FormatLine(ls[k]));
    forall k | 0 <= k < |pieces|
      ensures ReadLine(pieces[k]) == LineParts(ls[k]) && NoBreakTag(pieces[k])
    {
      FormatLineRoundTrip(ls[k]);
      FormatLineNoBreakTag(ls[k]);
    }
  }
}
