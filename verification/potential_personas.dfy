/** `parse_potential_personas` of generate_pdf_report.py. It cuts the model's
    list of new potential personas into one text per persona. The text is
    split at every line break that, after any whitespace, is followed by a
    list marker. A piece is kept, stripped, when it mentions `名前` and is
    longer than 8 characters once stripped. */
module PotentialPersonas {
  import opened Text

  const NameWord: string := "名前"
  const BoldName: string := "**名前**"
  const NewPersonaHeading: string := "新たな顧客ペルソナ"
  /** A kept piece is longer than this once stripped. */
  const MinLength: nat := 8

  // ---------------------------------------------------------------------------
  // The lookahead (?=\d+\.|\-+\s*\*\*名前\*\*|#|新たな顧客ペルソナ\d|^\s*$)

  /** `\d+\.` at `t`. A digit is never `.`, so `\d+` never gives one back. */
  predicate NumberedAt(s: string, t: nat)
    requires t <= |s|
  {
    t < |s| && IsDigit(s[t]) && SkipDigits(s, t) < |s| && s[SkipDigits(s, t)] == '.'
  }

  /** The end of the run of `-` that starts at `i`. */
  function SkipDashes(s: string, i: nat): (j: nat)
    requires i <= |s|
    ensures i <= j <= |s|
    ensures forall k :: i <= k < j ==> s[k] == '-'
    ensures j < |s| ==> s[j] != '-'
    decreases |s| - i
  {
    if i < |s| && s[i] == '-' then SkipDashes(s, i + 1) else i
  }

  /** `\-+\s*\*\*名前\*\*` at `t`. Neither `-+` nor `\s*` can give a character
      back, since the next item could not begin with it. */
  predicate BoldNameAt(s: string, t: nat)
    requires t <= |s|
  {
    t < |s| && s[t] == '-' && StartsWith(s[SkipSpaces(s, SkipDashes(s, t))..], BoldName)
  }

  /** `新たな顧客ペルソナ\d` at `t`. */
  predicate HeadingAt(s: string, t: nat)
    requires t <= |s|
  {
    StartsWith(s[t..], NewPersonaHeading) && t + |NewPersonaHeading| < |s| && IsDigit(s[t + |NewPersonaHeading|])
  }

  /** The lookahead at `t`. Its last alternative `^\s*$` would need `t` to be
      the start of the text, since the pattern has no MULTILINE flag. The
      lookahead always follows a line break, so that alternative never
      holds and is left out. */
  predicate MarkerAt(s: string, t: nat)
    requires t <= |s|
  {
    NumberedAt(s, t) || BoldNameAt(s, t) || (t < |s| && s[t] == '#') || HeadingAt(s, t)
  }

  /** Every marker begins with a character that is not whitespace. */
  lemma MarkerNotSpace(s: string, t: nat)
    requires t <= |s| && MarkerAt(s, t)
    ensures t < |s| && !IsSpace(s[t])
  {
    if HeadingAt(s, t) {
      assert s[t] == s[t..][..|NewPersonaHeading|][0];
    }
  }

  // ---------------------------------------------------------------------------
  // The separator \n\s*(?=...)

  /** The separator pattern matches `s[i..u]`. */
  ghost predicate SeparatorAt(s: string, i: nat, u: nat) {
    && i < u <= |s|
    && s[i] == '\n'
    && (forall k :: i + 1 <= k < u ==> IsSpace(s[k]))
    && MarkerAt(s, u)
  }

  /** A separator match starts at `i`; it ends where the whitespace ends. */
  predicate SplitPoint(s: string, i: nat) {
    i < |s| && s[i] == '\n' && MarkerAt(s, SkipSpaces(s, i + 1))
  }

  /** A separator can start at `i` exactly when `i` is a split point. Then
      it has a single end, where the whitespace run after `i` ends: `\s*`
      never gives back a character that a marker could begin with. */
  lemma SplitPointMeaning(s: string, i: nat, u: nat)
    ensures SeparatorAt(s, i, u) ==> SplitPoint(s, i) && u == SkipSpaces(s, i + 1)
    ensures SplitPoint(s, i) ==> SeparatorAt(s, i, SkipSpaces(s, i + 1))
  {
    if SeparatorAt(s, i, u) {
      MarkerNotSpace(s, u);
      SkipSpacesAt(s, i + 1, u);
    }
  }

  /** The first split point at or after `from`. */
  function NextSplit(s: string, from: nat): (r: Option<nat>)
    requires from <= |s|
    ensures r.Some? ==> from <= r.value < |s| && SplitPoint(s, r.value)
    ensures forall i :: from <= i < |s| && (r.None? || i < r.value) ==> !SplitPoint(s, i)
    decreases |s| - from
  {
    if from == |s| then None
    else if SplitPoint(s, from) then Some(from)
    else NextSplit(s, from + 1)
  }

  /** A separator the split removes: `s[at..end]`. */
  datatype Cut = Cut(at: nat, end: nat)

  /** `cuts` lie in order between `from` and the end of `s`, without overlap. */
  predicate CutsFrom(s: string, from: nat, cuts: seq<Cut>)
    decreases |cuts|
  {
    if |cuts| == 0 then from <= |s|
    else from <= cuts[0].at < cuts[0].end <= |s| && CutsFrom(s, cuts[0].end, cuts[1..])
  }

  /** The separators `re.split` finds from `from` on: scanning left to right,
      each match taken whole, the scan going on where it ended. */
  function Cuts(s: string, from: nat): (r: seq<Cut>)
    requires from <= |s|
    ensures CutsFrom(s, from, r)
    decreases |s| - from
  {
    match NextSplit(s, from)
    case None => []
    case Some(i) => [Cut(i, SkipSpaces(s, i + 1))] + Cuts(s, SkipSpaces(s, i + 1))
  }

  /** Every cut is a separator match, and every split point at or after
      `from` lies inside a cut: the pieces between the cuts hold no split
      point of their own. */
  lemma {:induction false} CutsMeaning(s: string, from: nat)
    requires from <= |s|
    ensures forall k :: 0 <= k < |Cuts(s, from)| ==> SeparatorAt(s, Cuts(s, from)[k].at, Cuts(s, from)[k].end)
    ensures forall i :: from <= i < |s| && SplitPoint(s, i) ==>
      exists k :: 0 <= k < |Cuts(s, from)| && Cuts(s, from)[k].at <= i < Cuts(s, from)[k].end
    decreases |s| - from
  {
    var r := Cuts(s, from);
    if NextSplit(s, from).Some? {
      var i := NextSplit(s, from).value;
      var e := SkipSpaces(s, i + 1);
      var rest := Cuts(s, e);
      CutsMeaning(s, e);
      assert r == [Cut(i, e)] + rest;
      SplitPointMeaning(s, i, e);
      forall k | 0 < k < |r| ensures r[k] == rest[k - 1] {
      }
      forall i' | from <= i' < |s| && SplitPoint(s, i')
        ensures exists k :: 0 <= k < |r| && r[k].at <= i' < r[k].end
      {
        if i' < e {
          assert r[0].at <= i' < r[0].end;
        } else {
          var k :| 0 <= k < |rest| && rest[k].at <= i' < rest[k].end;
          assert r[k + 1] == rest[k];
        }
      }
    }
  }

  /** The pieces of `s[from..]` between the cuts. */
  function Between(s: string, from: nat, cuts: seq<Cut>): (r: seq<string>)
    requires CutsFrom(s, from, cuts)
    ensures |r| == |cuts| + 1
    decreases |cuts|
  {
    if |cuts| == 0 then [s[from..]]
    else [s[from..cuts[0].at]] + Between(s, cuts[0].end, cuts[1..])
  }

  /** The text of each cut. */
  function Separators(s: string, from: nat, cuts: seq<Cut>): (r: seq<string>)
    requires CutsFrom(s, from, cuts)
    ensures |r| == |cuts|
    decreases |cuts|
  {
    if |cuts| == 0 then [] else [s[cuts[0].at..cuts[0].end]] + Separators(s, cuts[0].end, cuts[1..])
  }

  /** `p0 + q0 + p1 + q1 + ... + pn`. */
  function Interleave(pieces: seq<string>, seps: seq<string>): string
    requires |pieces| == |seps| + 1
    decreases |seps|
  {
    if |seps| == 0 then pieces[0] else pieces[0] + seps[0] + Interleave(pieces[1..], seps[1..])
  }

  /** The pieces with the separators put back between them give the text
      back: `re.split` loses nothing but the separators. */
  lemma {:induction false} BetweenRejoin(s: string, from: nat, cuts: seq<Cut>)
    requires CutsFrom(s, from, cuts)
    ensures Interleave(Between(s, from, cuts), Separators(s, from, cuts)) == s[from..]
    decreases |cuts|
  {
    if |cuts| > 0 {
      var c := cuts[0];
      BetweenRejoin(s, c.end, cuts[1..]);
      assert Separators(s, from, cuts)[1..] == Separators(s, c.end, cuts[1..]);
      assert Between(s, from, cuts)[1..] == Between(s, c.end, cuts[1..]);
      calc {
        Interleave(Between(s, from, cuts), Separators(s, from, cuts));
        s[from..c.at] + s[c.at..c.end] + Interleave(Between(s, c.end, cuts[1..]), Separators(s, c.end, cuts[1..]));
        s[from..c.at] + s[c.at..c.end] + s[c.end..];
        { assert s[from..] == s[from..c.at] + s[c.at..c.end] + s[c.end..]; }
        s[from..];
      }
    }
  }

  /** `re.split(...)` of the whole text. */
  function Pieces(text: string): (r: seq<string>)
    ensures |r| >= 1
  {
    Between(text, 0, Cuts(text, 0))
  }

  // ---------------------------------------------------------------------------
  // The filter

  /** A piece is kept when it mentions `名前` and is longer than 8 characters
      once stripped. */
  predicate Keeps(c: string) {
    Contains(c, NameWord) && |Strip(c)| > MinLength
  }

  /** What the comprehension makes of one piece. */
  function Candidate(c: string): Option<string> {
    if Keeps(c) then Some(Strip(c)) else None
  }

  function Candidates(pieces: seq<string>): (r: seq<Option<string>>)
    ensures |r| == |pieces|
    ensures forall k :: 0 <= k < |r| ==> r[k] == Candidate(pieces[k])
  {
    seq(|pieces|, k requires 0 <= k < |pieces| => Candidate(pieces[k]))
  }

  /** `parse_potential_personas`: no text gives no persona; every persona text
      returned is stripped, mentions `名前` and is longer than 8 characters. */
  function ParsePotentialPersonas(text: string): (r: seq<string>)
    ensures text == [] ==> r == []
    ensures forall k :: 0 <= k < |r| ==> IsStripped(r[k]) && Contains(r[k], NameWord) && |r[k]| > MinLength
  {
    if text == [] then []
    else
      var cs := Candidates(Pieces(text));
      SomesMeaning(cs);
      forall k | 0 <= k < |Somes(cs)|
        ensures IsStripped(Somes(cs)[k]) && Contains(Somes(cs)[k], NameWord) && |Somes(cs)[k]| > MinLength
      {
        var c := Pieces(text)[SomeIndices(cs)[k]];
        ContainsStrip(c, NameWord);
      }
      Somes(cs)
  }

  /** The kept pieces, stripped, in order: `origin[k]` is the place of the
      piece persona `k` comes from, and every kept piece has its place there. */
  lemma KeptPieces(ps: seq<string>) returns (origin: seq<nat>)
    ensures |origin| == |Somes(Candidates(ps))| <= |ps|
    ensures forall k :: 0 <= k < |origin| ==>
      origin[k] < |ps| && Keeps(ps[origin[k]]) && Somes(Candidates(ps))[k] == Strip(ps[origin[k]])
    ensures forall a, b :: 0 <= a < b < |origin| ==> origin[a] < origin[b]
    ensures forall j :: 0 <= j < |ps| && Keeps(ps[j]) ==> j in origin
  {
    var cs := Candidates(ps);
    SomesMeaning(cs);
    origin := SomeIndices(cs);
    forall j | 0 <= j < |ps| && Keeps(ps[j]) ensures j in origin {
      assert cs[j].Some?;
    }
  }

  /** The personas are exactly the kept pieces of the split, stripped, in the
      order of the pieces: persona `k` comes from piece `origin[k]`. */
  lemma ParsePotentialPersonasMeaning(text: string) returns (origin: seq<nat>)
    ensures |origin| == |ParsePotentialPersonas(text)| <= |Pieces(text)|
    ensures forall k :: 0 <= k < |origin| ==>
      origin[k] < |Pieces(text)| && Keeps(Pieces(text)[origin[k]])
      && ParsePotentialPersonas(text)[k] == Strip(Pieces(text)[origin[k]])
    ensures forall a, b :: 0 <= a < b < |origin| ==> origin[a] < origin[b]
    ensures forall j :: 0 <= j < |Pieces(text)| && Keeps(Pieces(text)[j]) ==> j in origin
  {
    origin := KeptPieces(Pieces(text));
    if text == [] {
      assert Pieces(text) == [[]];
      assert !Keeps([]);
      origin := [];
    } else {
      assert ParsePotentialPersonas(text) == Somes(Candidates(Pieces(text)));
    }
  }
}
