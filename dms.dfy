/**
 * `convert_to_decimal`: find the leftmost substring matching
 *   `: ([0-9.]+) deg ([0-9.]+)' ([0-9.]+)" ([NSEW])`
 * in one line of the exiftool report and turn the degrees, minutes and seconds
 * into signed decimal degrees.
 *
 * Each `[0-9.]+` group is followed by a character outside the class (a space or
 * a quote), so the only way a group can match is as the maximal run of digits
 * and dots: the regular-expression search is modelled by a deterministic scan
 * (MatchAt, SearchFrom), and proved equal to the declarative reading
 * "Render(g) occurs at position i" (OccursAt).
 */
module Dms {
  import opened Wrappers
  import opened FloatLiteral

  /** The four capture groups of the pattern. */
  datatype Fields = Fields(degrees: string, minutes: string, seconds: string, direction: char)

  /** The three outcomes of `convert_to_decimal`: `None`, a raised `ValueError`, or a value. */
  datatype Conversion = NoMatch | Malformed | Decimal(value: real)

  predicate IsDirection(c: char) {
    c == 'N' || c == 'S' || c == 'E' || c == 'W'
  }

  predicate IsNegative(c: char) {
    c == 'S' || c == 'W'
  }

  /** A string one `[0-9.]+` group can capture. */
  predicate IsToken(t: string) {
    |t| > 0 && AllNumChars(t)
  }

  predicate WellShaped(g: Fields) {
    IsToken(g.degrees) && IsToken(g.minutes) && IsToken(g.seconds) && IsDirection(g.direction)
  }

  /** The text of the pattern from the seconds' opening literal on. */
  function SecondsText(g: Fields): string {
    "' " + (g.seconds + ("\" " + [g.direction]))
  }

  /** The text of the pattern from the minutes' opening literal on. */
  function MinutesText(g: Fields): string {
    " deg " + (g.minutes + SecondsText(g))
  }

  /** The text the pattern matches when its groups capture g. */
  function Render(g: Fields): string {
    ": " + (g.degrees + MinutesText(g))
  }

  /** The pattern matches s at position i, with groups g. */
  ghost predicate OccursAt(s: string, i: int, g: Fields) {
    && WellShaped(g)
    && 0 <= i && i + |Render(g)| <= |s|
    && s[i..i + |Render(g)|] == Render(g)
  }

  /** End of the longest run of `[0-9.]` characters of s starting at i. */
  function RunEnd(s: string, i: nat): (e: nat)
    requires i <= |s|
    ensures i <= e <= |s|
    decreases |s| - i
  {
    if i < |s| && IsNumChar(s[i]) then RunEnd(s, i + 1) else i
  }

  /** The literal lit occurs in s at position i. */
  predicate LiteralAt(s: string, i: nat, lit: string) {
    i + |lit| <= |s| && s[i..i + |lit|] == lit
  }

  /** The literal lit at position i followed by one greedy `[0-9.]+` group: the group's end. */
  function GroupEnd(s: string, i: nat, lit: string): (r: Option<nat>)
    requires i <= |s|
    ensures r.Some? ==> i + |lit| < r.value <= |s|
  {
    if LiteralAt(s, i, lit) then
      var e := RunEnd(s, i + |lit|);
      if e == i + |lit| then None else Some(e)
    else
      None
  }

  /** The ends of the three groups when the whole pattern matches at position i of s. */
  function Ends(s: string, i: nat): (r: Option<(nat, nat, nat)>)
    requires i <= |s|
    ensures r.Some? ==> i + 2 < r.value.0 && r.value.0 + 5 < r.value.1 && r.value.1 + 2 < r.value.2 && r.value.2 + 2 < |s|
  {
    var e1 :- GroupEnd(s, i, ": ");
    var e2 :- GroupEnd(s, e1, " deg ");
    var e3 :- GroupEnd(s, e2, "' ");
    if LiteralAt(s, e3, "\" ") && e3 + 2 < |s| && IsDirection(s[e3 + 2]) then Some((e1, e2, e3)) else None
  }

  /** Match the whole pattern at position i of s (the `re.match` of the pattern there). */
  function MatchAt(s: string, i: nat): Option<Fields>
    requires i <= |s|
  {
    var e :- Ends(s, i);
    Some(Fields(s[i + 2..e.0], s[e.0 + 5..e.1], s[e.1 + 2..e.2], s[e.2 + 2]))
  }

  /** `re.search` from position i on: the leftmost match position and its groups. */
  function SearchFrom(s: string, i: nat): Option<(nat, Fields)>
    requires i <= |s|
    decreases |s| - i
  {
    match MatchAt(s, i)
    case Some(g) => Some((i, g))
    case None => if i == |s| then None else SearchFrom(s, i + 1)
  }

  function Search(s: string): Option<(nat, Fields)> {
    SearchFrom(s, 0)
  }

  /** The groups' value: `float(D) + float(M)/60 + float(S)/3600`, negated for S and W. */
  function Evaluate(g: Fields): (c: Conversion)
    requires WellShaped(g)
    ensures c != NoMatch
    ensures c == Malformed <==>
      (ParseFloat(g.degrees).None? || ParseFloat(g.minutes).None? || ParseFloat(g.seconds).None?)
    ensures c.Decimal? ==>
      var magnitude := ParseFloat(g.degrees).value + ParseFloat(g.minutes).value / 60.0
                       + ParseFloat(g.seconds).value / 3600.0;
      && magnitude >= 0.0
      && c.value == (if IsNegative(g.direction) then -magnitude else magnitude)
  {
    match (ParseFloat(g.degrees), ParseFloat(g.minutes), ParseFloat(g.seconds))
    case (Some(d), Some(m), Some(s)) =>
      var magnitude := d + m / 60.0 + s / 3600.0;
      Decimal(if IsNegative(g.direction) then -magnitude else magnitude)
    case _ => Malformed
  }

  /** The conversion raises exactly when one of the three groups is not a decimal literal. */
  lemma EvaluateMalformedIff(g: Fields)
    requires WellShaped(g)
    ensures Evaluate(g) == Malformed <==>
      !(IsFloatLiteral(g.degrees) && IsFloatLiteral(g.minutes) && IsFloatLiteral(g.seconds))
  {
    ParseFloatSomeIff(g.degrees);
    ParseFloatSomeIff(g.minutes);
    ParseFloatSomeIff(g.seconds);
  }

  /**
   * The value clause of Evaluate restated for callers that already know the
   * three readings d, m and s: the result is d + m/60 + s/3600 degrees,
   * negated for S and W.
   */
  lemma EvaluateDecimal(g: Fields, d: real, m: real, s: real)
    requires WellShaped(g)
    requires ParseFloat(g.degrees) == Some(d) && ParseFloat(g.minutes) == Some(m) && ParseFloat(g.seconds) == Some(s)
    ensures d >= 0.0 && m >= 0.0 && s >= 0.0
    ensures Evaluate(g) == Decimal(if IsNegative(g.direction) then -(d + m / 60.0 + s / 3600.0) else d + m / 60.0 + s / 3600.0)
  {
  }

  /** `convert_to_decimal(line)`. */
  function Convert(line: string): Conversion {
    match Search(line)
    case None => NoMatch
    case Some((i, g)) =>
      SearchFromFound(line, 0, i, g);
      Evaluate(g)
  }

  // ---------------------------------------------------------------------------
  // The scan agrees with the declarative reading of the pattern.

  lemma {:induction false} RunEndMaximal(s: string, i: nat)
    requires i <= |s|
    ensures forall k :: i <= k < RunEnd(s, i) ==> IsNumChar(s[k])
    ensures RunEnd(s, i) < |s| ==> !IsNumChar(s[RunEnd(s, i)])
    decreases |s| - i
  {
    if i < |s| && IsNumChar(s[i]) {
      RunEndMaximal(s, i + 1);
    }
  }

  /** A run of `[0-9.]` followed by a character outside the class ends exactly there. */
  lemma {:induction false} RunEndOfToken(s: string, i: nat, e: nat)
    requires i <= e <= |s|
    requires forall k :: i <= k < e ==> IsNumChar(s[k])
    requires e == |s| || !IsNumChar(s[e])
    ensures RunEnd(s, i) == e
    decreases e - i
  {
    if i < e {
      RunEndOfToken(s, i + 1, e);
    }
  }

  /** What a group the scan accepts consists of. */
  lemma GroupEndSpec(s: string, i: nat, lit: string)
    requires i <= |s| && GroupEnd(s, i, lit).Some?
    ensures LiteralAt(s, i, lit)
    ensures IsToken(s[i + |lit|..GroupEnd(s, i, lit).value])
    ensures GroupEnd(s, i, lit).value == |s| || !IsNumChar(s[GroupEnd(s, i, lit).value])
  {
    var a := i + |lit|;
    var e := GroupEnd(s, i, lit).value;
    RunEndMaximal(s, a);
    forall k | 0 <= k < e - a ensures IsNumChar(s[a..e][k]) {
      assert s[a..e][k] == s[a + k];
    }
  }

  /** A literal followed by a token that the next character ends: the group the scan takes. */
  lemma GroupEndOf(s: string, i: nat, lit: string, t: string)
    requires LiteralAt(s, i, lit) && IsToken(t)
    requires i + |lit| + |t| < |s| && s[i + |lit|..i + |lit| + |t|] == t
    requires !IsNumChar(s[i + |lit| + |t|])
    ensures GroupEnd(s, i, lit) == Some(i + |lit| + |t|)
  {
    var a := i + |lit|;
    forall k | a <= k < a + |t| ensures IsNumChar(s[k]) {
      assert s[k] == t[k - a];
    }
    RunEndOfToken(s, a, a + |t|);
  }

  /** Two adjacent slices of s whose texts are p and q make one slice whose text is p + q. */
  lemma SliceJoin(s: string, a: nat, e: nat, p: string, q: string)
    requires a + |p| + |q| == e <= |s|
    requires s[a..a + |p|] == p && s[a + |p|..e] == q
    ensures s[a..e] == p + q
  {
    assert s[a..e] == s[a..a + |p|] + s[a + |p|..e];
  }

  /** A slice of s whose text is p + q splits at |p|. */
  lemma SliceSplit(s: string, a: nat, e: nat, p: string, q: string)
    requires a + |p| + |q| == e <= |s|
    requires s[a..e] == p + q
    ensures s[a..a + |p|] == p && s[a + |p|..e] == q
  {
    assert s[a..e] == s[a..a + |p|] + s[a + |p|..e];
    assert s[a..a + |p|] == (p + q)[..|p|];
    assert s[a + |p|..e] == (p + q)[|p|..];
  }

  /** The pieces of the pattern from the seconds' opening literal on, laid out from position e2. */
  ghost predicate SecondsPiecesAt(s: string, e2: nat, g: Fields) {
    var e3 := e2 + 2 + |g.seconds|;
    && e3 + 3 <= |s|
    && s[e2..e2 + 2] == "' "
    && s[e2 + 2..e3] == g.seconds
    && s[e3..e3 + 2] == "\" "
    && s[e3 + 2] == g.direction
  }

  /** The pieces of the pattern from the minutes' opening literal on, laid out from position e1. */
  ghost predicate MinutesPiecesAt(s: string, e1: nat, g: Fields) {
    var e2 := e1 + 5 + |g.minutes|;
    && e2 <= |s|
    && s[e1..e1 + 5] == " deg "
    && s[e1 + 5..e2] == g.minutes
    && SecondsPiecesAt(s, e2, g)
  }

  /** The pieces of the pattern, laid out from position i. */
  ghost predicate PiecesAt(s: string, i: nat, g: Fields) {
    var e1 := i + 2 + |g.degrees|;
    && e1 <= |s|
    && s[i..i + 2] == ": "
    && s[i + 2..e1] == g.degrees
    && MinutesPiecesAt(s, e1, g)
  }

  lemma SecondsPiecesOfText(s: string, e2: nat, e: nat, g: Fields)
    requires e2 + |SecondsText(g)| == e <= |s| && s[e2..e] == SecondsText(g)
    ensures SecondsPiecesAt(s, e2, g)
  {
    var e3 := e2 + 2 + |g.seconds|;
    var q3 := "\" " + [g.direction];
    SliceSplit(s, e2, e, "' ", g.seconds + q3);
    SliceSplit(s, e2 + 2, e, g.seconds, q3);
    SliceSplit(s, e3, e, "\" ", [g.direction]);
    SliceSplit(s, e3 + 2, e, [g.direction], []);
  }

  lemma SecondsTextOfPieces(s: string, e2: nat, g: Fields)
    requires SecondsPiecesAt(s, e2, g)
    ensures s[e2..e2 + |SecondsText(g)|] == SecondsText(g)
  {
    var e3 := e2 + 2 + |g.seconds|;
    var e := e3 + 3;
    var q3 := "\" " + [g.direction];
    SliceJoin(s, e3 + 2, e, [g.direction], []);
    SliceJoin(s, e3, e, "\" ", [g.direction]);
    SliceJoin(s, e2 + 2, e, g.seconds, q3);
    SliceJoin(s, e2, e, "' ", g.seconds + q3);
  }

  lemma MinutesPiecesOfText(s: string, e1: nat, e: nat, g: Fields)
    requires e1 + |MinutesText(g)| == e <= |s| && s[e1..e] == MinutesText(g)
    ensures MinutesPiecesAt(s, e1, g)
  {
    SliceSplit(s, e1, e, " deg ", g.minutes + SecondsText(g));
    SliceSplit(s, e1 + 5, e, g.minutes, SecondsText(g));
    SecondsPiecesOfText(s, e1 + 5 + |g.minutes|, e, g);
  }

  lemma MinutesTextOfPieces(s: string, e1: nat, g: Fields)
    requires MinutesPiecesAt(s, e1, g)
    ensures s[e1..e1 + |MinutesText(g)|] == MinutesText(g)
  {
    var e := e1 + |MinutesText(g)|;
    SecondsTextOfPieces(s, e1 + 5 + |g.minutes|, g);
    SliceJoin(s, e1 + 5, e, g.minutes, SecondsText(g));
    SliceJoin(s, e1, e, " deg ", g.minutes + SecondsText(g));
  }

  lemma DegreesPiecesOfText(s: string, a: nat, e: nat, g: Fields)
    requires a + |g.degrees| + |MinutesText(g)| == e <= |s| && s[a..e] == g.degrees + MinutesText(g)
    ensures s[a..a + |g.degrees|] == g.degrees && MinutesPiecesAt(s, a + |g.degrees|, g)
  {
    SliceSplit(s, a, e, g.degrees, MinutesText(g));
    MinutesPiecesOfText(s, a + |g.degrees|, e, g);
  }

  lemma PiecesOfOccurrence(s: string, i: nat, g: Fields)
    requires i + |Render(g)| <= |s| && s[i..i + |Render(g)|] == Render(g)
    ensures PiecesAt(s, i, g)
  {
    var e := i + |Render(g)|;
    SliceSplit(s, i, e, ": ", g.degrees + MinutesText(g));
    DegreesPiecesOfText(s, i + 2, e, g);
  }

  lemma OccurrenceOfPieces(s: string, i: nat, g: Fields)
    requires PiecesAt(s, i, g)
    ensures i + |Render(g)| <= |s| && s[i..i + |Render(g)|] == Render(g)
  {
    var e := i + |Render(g)|;
    MinutesTextOfPieces(s, i + 2 + |g.degrees|, g);
    SliceJoin(s, i + 2, e, g.degrees, MinutesText(g));
    SliceJoin(s, i, e, ": ", g.degrees + MinutesText(g));
  }

  /** A group the scan accepts from a to e: the literal, then the token, and nothing between. */
  lemma GroupPiece(s: string, a: nat, lit: string, e: nat)
    requires a <= |s| && GroupEnd(s, a, lit) == Some(e)
    ensures s[a..a + |lit|] == lit && IsToken(s[a + |lit|..e]) && a + |lit| + |s[a + |lit|..e]| == e
  {
    GroupEndSpec(s, a, lit);
  }

  lemma SecondsPiecesOfEnds(s: string, e2: nat, e3: nat, g: Fields)
    requires e2 <= |s| && GroupEnd(s, e2, "' ") == Some(e3)
    requires LiteralAt(s, e3, "\" ") && e3 + 2 < |s| && IsDirection(s[e3 + 2])
    requires g.seconds == s[e2 + 2..e3] && g.direction == s[e3 + 2]
    ensures SecondsPiecesAt(s, e2, g) && IsToken(g.seconds) && IsDirection(g.direction)
  {
    GroupPiece(s, e2, "' ", e3);
  }

  lemma MinutesPiecesOfEnds(s: string, e1: nat, e2: nat, g: Fields)
    requires e1 <= |s| && GroupEnd(s, e1, " deg ") == Some(e2)
    requires g.minutes == s[e1 + 5..e2] && SecondsPiecesAt(s, e2, g)
    ensures MinutesPiecesAt(s, e1, g) && IsToken(g.minutes)
  {
    GroupPiece(s, e1, " deg ", e2);
  }

  /** Groups the scan accepts at i with ends e1, e2, e3 are laid out as the pattern's pieces. */
  lemma PiecesOfEnds(s: string, i: nat, e1: nat, e2: nat, e3: nat, g: Fields)
    requires i <= |s| && Ends(s, i) == Some((e1, e2, e3))
    requires g == Fields(s[i + 2..e1], s[e1 + 5..e2], s[e2 + 2..e3], s[e3 + 2])
    ensures WellShaped(g) && PiecesAt(s, i, g)
  {
    SecondsPiecesOfEnds(s, e2, e3, g);
    MinutesPiecesOfEnds(s, e1, e2, g);
    GroupPiece(s, i, ": ", e1);
  }

  /** The scan's groups are laid out as the pattern's pieces. */
  lemma MatchAtPieces(s: string, i: nat)
    requires i <= |s| && MatchAt(s, i).Some?
    ensures WellShaped(MatchAt(s, i).value) && PiecesAt(s, i, MatchAt(s, i).value)
  {
    var (e1, e2, e3) := Ends(s, i).value;
    var g := MatchAt(s, i).value;
    assert g == Fields(s[i + 2..e1], s[e1 + 5..e2], s[e2 + 2..e3], s[e3 + 2]);
    PiecesOfEnds(s, i, e1, e2, e3, g);
  }

  /** The scan at i, once its three groups' ends are known. */
  lemma EndsOfGroups(s: string, i: nat, e1: nat, e2: nat, e3: nat)
    requires i <= e1 <= e2 <= e3 <= |s|
    requires GroupEnd(s, i, ": ") == Some(e1) && GroupEnd(s, e1, " deg ") == Some(e2)
    requires GroupEnd(s, e2, "' ") == Some(e3)
    requires LiteralAt(s, e3, "\" ") && e3 + 2 < |s| && IsDirection(s[e3 + 2])
    ensures Ends(s, i) == Some((e1, e2, e3))
  {
  }

  /** The scan's group ends at i are those of g's pieces, and g holds the slices between them. */
  ghost predicate EndsOf(s: string, i: nat, g: Fields) {
    var e1 := i + 2 + |g.degrees|;
    var e2 := e1 + 5 + |g.minutes|;
    var e3 := e2 + 2 + |g.seconds|;
    && i <= |s|
    && Ends(s, i) == Some((e1, e2, e3))
    && g == Fields(s[i + 2..e1], s[e1 + 5..e2], s[e2 + 2..e3], s[e3 + 2])
  }

  /** The groups the scan returns, once its three groups' ends are known. */
  lemma MatchAtOfEnds(s: string, i: nat, g: Fields)
    requires EndsOf(s, i, g)
    ensures MatchAt(s, i) == Some(g)
  {
  }

  /** The first character of a literal found at position a. */
  lemma LiteralHead(s: string, a: nat, lit: string)
    requires LiteralAt(s, a, lit) && |lit| > 0
    ensures s[a] == lit[0]
  {
    assert s[a] == s[a..a + |lit|][0];
  }

  /** The seconds' pieces of a well-shaped g at e2 are what the scan's last group finds there. */
  lemma SecondsMatch(s: string, e2: nat, g: Fields)
    requires IsToken(g.seconds) && IsDirection(g.direction) && SecondsPiecesAt(s, e2, g)
    ensures var e3 := e2 + 2 + |g.seconds|;
      && GroupEnd(s, e2, "' ") == Some(e3)
      && LiteralAt(s, e3, "\" ") && e3 + 2 < |s| && IsDirection(s[e3 + 2])
  {
    var e3 := e2 + 2 + |g.seconds|;
    LiteralHead(s, e3, "\" ");
    GroupEndOf(s, e2, "' ", g.seconds);
  }

  /** The minutes' pieces of a well-shaped g at e1 are what the scan's second group finds there. */
  lemma MinutesMatch(s: string, e1: nat, g: Fields)
    requires IsToken(g.minutes) && MinutesPiecesAt(s, e1, g)
    ensures GroupEnd(s, e1, " deg ") == Some(e1 + 5 + |g.minutes|)
  {
    var e2 := e1 + 5 + |g.minutes|;
    LiteralHead(s, e2, "' ");
    GroupEndOf(s, e1, " deg ", g.minutes);
  }

  /** The degrees' pieces of a well-shaped g at i are what the scan's first group finds there. */
  lemma DegreesMatch(s: string, i: nat, g: Fields)
    requires IsToken(g.degrees) && PiecesAt(s, i, g)
    ensures GroupEnd(s, i, ": ") == Some(i + 2 + |g.degrees|)
  {
    LiteralHead(s, i + 2 + |g.degrees|, " deg ");
    GroupEndOf(s, i, ": ", g.degrees);
  }

  /** The groups laid out as pieces at i are the slices between the pieces' literals. */
  lemma FieldsOfPieces(s: string, i: nat, g: Fields)
    requires PiecesAt(s, i, g)
    ensures var e1 := i + 2 + |g.degrees|;
      var e2 := e1 + 5 + |g.minutes|;
      var e3 := e2 + 2 + |g.seconds|;
      g == Fields(s[i + 2..e1], s[e1 + 5..e2], s[e2 + 2..e3], s[e3 + 2])
  {
  }

  /** The ends of the groups the scan finds where a well-shaped g is laid out as pieces. */
  lemma PiecesEnds(s: string, i: nat, g: Fields)
    requires WellShaped(g) && PiecesAt(s, i, g)
    ensures var e1 := i + 2 + |g.degrees|;
      var e2 := e1 + 5 + |g.minutes|;
      Ends(s, i) == Some((e1, e2, e2 + 2 + |g.seconds|))
  {
    var e1 := i + 2 + |g.degrees|;
    var e2 := e1 + 5 + |g.minutes|;
    var e3 := e2 + 2 + |g.seconds|;
    SecondsMatch(s, e2, g);
    MinutesMatch(s, e1, g);
    DegreesMatch(s, i, g);
    EndsOfGroups(s, i, e1, e2, e3);
  }

  /** Pieces of a well-shaped g at i are what the scan finds there: its ends, and g as the slices between them. */
  lemma PiecesMatch(s: string, i: nat, g: Fields)
    requires WellShaped(g) && PiecesAt(s, i, g)
    ensures EndsOf(s, i, g)
  {
    PiecesEnds(s, i, g);
    FieldsOfPieces(s, i, g);
  }

  /** Whatever the scan accepts at i is an occurrence of the pattern at i. */
  lemma MatchAtSound(s: string, i: nat)
    requires i <= |s| && MatchAt(s, i).Some?
    ensures OccursAt(s, i, MatchAt(s, i).value)
  {
    MatchAtPieces(s, i);
    OccurrenceOfPieces(s, i, MatchAt(s, i).value);
  }

  /** Every occurrence of the pattern at i is what the scan finds there. */
  lemma MatchAtComplete(s: string, i: nat, g: Fields)
    requires OccursAt(s, i, g)
    ensures MatchAt(s, i) == Some(g)
  {
    PiecesOfOccurrence(s, i, g);
    PiecesMatch(s, i, g);
    MatchAtOfEnds(s, i, g);
  }

  lemma OccursAtIff(s: string, i: nat, g: Fields)
    requires i <= |s|
    ensures OccursAt(s, i, g) <==> MatchAt(s, i) == Some(g)
  {
    if OccursAt(s, i, g) {
      MatchAtComplete(s, i, g);
    }
    if MatchAt(s, i) == Some(g) {
      MatchAtSound(s, i);
    }
  }

  /** Two matches at the same position capture the same groups. */
  lemma OccursAtUnique(s: string, i: nat, g: Fields, h: Fields)
    requires OccursAt(s, i, g) && OccursAt(s, i, h)
    ensures g == h
  {
    OccursAtIff(s, i, g);
    OccursAtIff(s, i, h);
  }

  /** Where the scan fails, the pattern does not occur. */
  lemma NoMatchNoOccurrence(s: string, i: nat)
    requires i <= |s| && MatchAt(s, i).None?
    ensures forall h :: !OccursAt(s, i, h)
  {
    forall h ensures !OccursAt(s, i, h) {
      OccursAtIff(s, i, h);
    }
  }

  lemma {:induction false} SearchFromFound(s: string, i: nat, k: nat, g: Fields)
    requires i <= |s| && SearchFrom(s, i) == Some((k, g))
    ensures i <= k && OccursAt(s, k, g)
    ensures forall j, h :: i <= j < k ==> !OccursAt(s, j, h)
    decreases |s| - i
  {
    if MatchAt(s, i).Some? {
      assert k == i && MatchAt(s, i) == Some(g);
      OccursAtIff(s, i, g);
    } else {
      assert SearchFrom(s, i + 1) == Some((k, g));
      SearchFromFound(s, i + 1, k, g);
      NoMatchNoOccurrence(s, i);
    }
  }

  lemma {:induction false} SearchFromNone(s: string, i: nat)
    requires i <= |s| && SearchFrom(s, i).None?
    ensures forall j, h :: i <= j ==> !OccursAt(s, j, h)
    decreases |s| - i
  {
    NoMatchNoOccurrence(s, i);
    if i < |s| {
      SearchFromNone(s, i + 1);
    }
  }

  /** `re.search` returns `None` exactly when the pattern occurs nowhere in s. */
  lemma SearchNoneIff(s: string)
    ensures Search(s).None? <==> forall i, g :: !OccursAt(s, i, g)
  {
    if Search(s).None? {
      SearchFromNone(s, 0);
    } else {
      var (k, f) := Search(s).value;
      SearchFromFound(s, 0, k, f);
    }
  }

  /** `re.search` finds position i with groups g exactly when that is the leftmost occurrence. */
  lemma SearchLeftmost(s: string, i: nat, g: Fields)
    ensures Search(s) == Some((i, g)) <==>
      OccursAt(s, i, g) && forall j, h :: 0 <= j < i ==> !OccursAt(s, j, h)
  {
    if Search(s).Some? {
      var (k, f) := Search(s).value;
      SearchFromFound(s, 0, k, f);
      if OccursAt(s, i, g) && forall j, h :: 0 <= j < i ==> !OccursAt(s, j, h) {
        assert !(k < i);
        assert !(i < k);
        OccursAtUnique(s, i, f, g);
      }
    } else {
      SearchFromNone(s, 0);
    }
  }

  // ---------------------------------------------------------------------------
  // Properties of `convert_to_decimal`.

  /** The result is `None` exactly when no substring of the line matches the pattern. */
  lemma ConvertNoMatchIff(line: string)
    ensures Convert(line) == NoMatch <==> forall i, g :: !OccursAt(line, i, g)
  {
    SearchNoneIff(line);
  }

  /** Only the leftmost match counts: the result is the value of its groups. */
  lemma ConvertLeftmost(line: string, i: nat, g: Fields)
    requires OccursAt(line, i, g)
    requires forall j, h :: 0 <= j < i ==> !OccursAt(line, j, h)
    ensures Convert(line) == Evaluate(g)
  {
    SearchLeftmost(line, i, g);
  }

  /** ':' appears in a match only at its first position. */
  lemma ColonOnlyFirst(s: string, j: nat, h: Fields, k: int)
    requires OccursAt(s, j, h) && 0 < k < |Render(h)|
    ensures s[j + k] != ':'
  {
    var r := Render(h);
    assert s[j + k] == s[j..j + |r|][k] == r[k];
    var tail := " " + (h.degrees + MinutesText(h));
    assert r == [':'] + tail;
    assert r[k] == tail[k - 1];
    assert tail[k - 1] in tail;
  }

  /** An occurrence in s + t that starts before an occurrence in s lies within s. */
  lemma EarlierStaysInside(s: string, t: string, i: nat, g: Fields, j: nat, h: Fields)
    requires OccursAt(s, i, g) && OccursAt(s + t, j, h) && j < i
    ensures OccursAt(s, j, h)
  {
    var M := |Render(h)|;
    assert (s + t)[i] == s[i] == s[i..i + |Render(g)|][0] == ':';
    if i - j < M {
      ColonOnlyFirst(s + t, j, h, i - j);
    }
    assert j + M <= |s|;
    assert (s + t)[j..j + M] == s[j..j + M];
  }

  /** An occurrence in s is still one in s + t. */
  lemma OccursAtExtend(s: string, t: string, i: nat, g: Fields)
    requires OccursAt(s, i, g)
    ensures OccursAt(s + t, i, g)
  {
    assert (s + t)[i..i + |Render(g)|] == s[i..i + |Render(g)|];
  }

  /** Text appended after a line that already matches does not change the result. */
  lemma ConvertExtend(s: string, t: string)
    requires Convert(s) != NoMatch
    ensures Convert(s + t) == Convert(s)
  {
    SearchNoneIff(s);
    var (i, g) := Search(s).value;
    SearchLeftmost(s, i, g);
    OccursAtExtend(s, t, i, g);
    forall j, h | 0 <= j < i ensures !OccursAt(s + t, j, h) {
      if OccursAt(s + t, j, h) {
        EarlierStaysInside(s, t, i, g, j, h);
      }
    }
    SearchLeftmost(s + t, i, g);
  }

  /** A match whose numeric groups `float()` rejects makes the conversion raise. */
  lemma ConvertMalformedToken(line: string, i: nat, g: Fields)
    requires OccursAt(line, i, g)
    requires forall j, h :: 0 <= j < i ==> !OccursAt(line, j, h)
    requires !IsFloatLiteral(g.degrees) || !IsFloatLiteral(g.minutes) || !IsFloatLiteral(g.seconds)
    ensures Convert(line) == Malformed
  {
    ConvertLeftmost(line, i, g);
    EvaluateMalformedIff(g);
  }

  // ---------------------------------------------------------------------------
  // Two lines as exiftool prints them.

  /** Every occurrence of the pattern starts with ':'. */
  lemma OccursAtColon(s: string, j: int, h: Fields)
    requires OccursAt(s, j, h)
    ensures s[j] == ':'
  {
    assert s[j] == s[j..j + |Render(h)|][0];
  }

  /** The leftmost match of a line is the first ':' that starts an occurrence. */
  lemma FirstColonOccurrence(line: string, i: nat, g: Fields)
    requires OccursAt(line, i, g)
    requires forall j :: 0 <= j < i ==> line[j] != ':'
    ensures Convert(line) == Evaluate(g)
  {
    forall j, h | 0 <= j < i ensures !OccursAt(line, j, h) {
      if OccursAt(line, j, h) {
        OccursAtColon(line, j, h);
      }
    }
    ConvertLeftmost(line, i, g);
  }

  /** 40 deg 26' 46.00" N is 40 + 26/60 + 46/3600 degrees north. */
  lemma ExampleLatitude()
    ensures Convert("GPS Latitude : 40 deg 26' 46.00\" N") == Decimal(40.0 + 26.0 / 60.0 + 46.0 / 3600.0)
  {
    var line := "GPS Latitude : 40 deg 26' 46.00\" N";
    var g := Fields("40", "26", "46.00", 'N');
    ExampleLatitudeOccurs();
    FirstColonOccurrence(line, 13, g);
    ExampleLatitudeValue(g);
  }

  lemma ExampleLatitudeOccurs()
    ensures OccursAt("GPS Latitude : 40 deg 26' 46.00\" N", 13, Fields("40", "26", "46.00", 'N'))
  {
    var line := "GPS Latitude : 40 deg 26' 46.00\" N";
    var g := Fields("40", "26", "46.00", 'N');
    assert line[13..13 + |Render(g)|] == Render(g);
  }

  lemma ExampleLatitudeValue(g: Fields)
    requires g == Fields("40", "26", "46.00", 'N')
    ensures WellShaped(g)
    ensures Evaluate(g) == Decimal(40.0 + 26.0 / 60.0 + 46.0 / 3600.0)
  {
    ExampleLatitudeShaped(g);
    ExampleTokenValues();
    EvaluateDecimal(g, 40.0, 26.0, 46.0);
  }

  lemma ExampleLatitudeShaped(g: Fields)
    requires g == Fields("40", "26", "46.00", 'N')
    ensures WellShaped(g)
  {
  }

  lemma ExampleTokenValues()
    ensures ParseFloat("40") == Some(40.0) && ParseFloat("26") == Some(26.0)
    ensures ParseFloat("46.00") == Some(46.0)
  {
    ParseFloatOfDigits(40);
    assert Digits(40) == "40";
    ParseFloatOfDigits(26);
    assert Digits(26) == "26";
    ExampleSecondsValue();
  }

  lemma ExampleSecondsValue()
    ensures ParseFloat("46.00") == Some(46.0)
  {
    assert DotIndex("46.00") == 2;
    assert "46.00"[..2] == "46" && "46.00"[3..] == "00";
    assert DigitsValue("46") == 46 by {
      assert "46"[..1] == "4";
    }
    assert FractionValue("00") == 0.0 by {
      assert "00"[1..] == "0";
    }
  }

  /** A seconds group with two dots matches the pattern, and `float()` raises on it. */
  lemma ExampleMalformed()
    ensures Convert("GPS Longitude : 2 deg 17' 1.2.3\" W") == Malformed
  {
    var g := Fields("2", "17", "1.2.3", 'W');
    ExampleMalformedOccurs();
    FirstColonOccurrence("GPS Longitude : 2 deg 17' 1.2.3\" W", 14, g);
    ExampleMalformedGroups(g);
  }

  lemma ExampleMalformedOccurs()
    ensures OccursAt("GPS Longitude : 2 deg 17' 1.2.3\" W", 14, Fields("2", "17", "1.2.3", 'W'))
  {
    var line := "GPS Longitude : 2 deg 17' 1.2.3\" W";
    var g := Fields("2", "17", "1.2.3", 'W');
    assert line[14..14 + |Render(g)|] == Render(g);
  }

  lemma ExampleMalformedGroups(g: Fields)
    requires g == Fields("2", "17", "1.2.3", 'W')
    ensures WellShaped(g) && Evaluate(g) == Malformed
  {
    assert !IsFloatLiteral("1.2.3") by {
      assert "1.2.3"[1] == '.' && "1.2.3"[3] == '.';
    }
    EvaluateMalformedIff(g);
  }
}
