/**
 * The scan inside `get_gps_info`: split exiftool's report into lines, feed
 * every latitude line and every longitude line to `convert_to_decimal`, and
 * keep the last result of each. A `ValueError` raised by a conversion is caught
 * by the bare `except` and turns the whole result into `(None, None)`.
 *
 * Running exiftool and decoding its output are not modelled: the report is an
 * input, and `None` stands for any failure of that step (the tool missing, a
 * non-zero exit status, undecodable bytes), which the same `except` catches.
 */
module Report {
  import opened Wrappers
  import opened Dms

  // ---------------------------------------------------------------------------
  // `str.split('\n')` and its inverse `'\n'.join`.

  /** `s.split('\n')`: the pieces between line feeds, never an empty list. */
  function Split(s: string): (r: seq<string>)
    ensures |r| >= 1
    ensures forall k :: 0 <= k < |r| ==> '\n' !in r[k]
  {
    if s == [] then [[]]
    else
      var rest := Split(s[1..]);
      if s[0] == '\n' then [[]] + rest else [[s[0]] + rest[0]] + rest[1..]
  }

  /** `'\n'.join(ls)`. */
  function Join(ls: seq<string>): string
    requires |ls| >= 1
  {
    if |ls| == 1 then ls[0] else ls[0] + "\n" + Join(ls[1..])
  }

  /** Joining the pieces gives back the report. */
  lemma {:induction false} JoinSplit(s: string)
    ensures Join(Split(s)) == s
  {
    if s != [] {
      JoinSplit(s[1..]);
      var rest := Split(s[1..]);
      if s[0] != '\n' {
        var r := Split(s);
        if |rest| == 1 {
          assert Join(r) == [s[0]] + rest[0];
        } else {
          assert r[1..] == rest[1..];
          assert Join(r) == [s[0]] + rest[0] + "\n" + Join(rest[1..]);
        }
      }
    }
  }

  /** Splitting text without line feeds that is followed by more text. */
  lemma {:induction false} SplitPrefix(w: string, t: string)
    requires '\n' !in w
    ensures Split(w + t) == [w + Split(t)[0]] + Split(t)[1..]
  {
    if w != [] {
      assert (w + t)[1..] == w[1..] + t;
      SplitPrefix(w[1..], t);
      var rest := Split(w[1..] + t);
      assert (w + t)[0] == w[0] && w[0] != '\n';
      assert rest[0] == w[1..] + Split(t)[0];
      assert rest[1..] == Split(t)[1..];
      assert [w[0]] + rest[0] == w + Split(t)[0];
    } else {
      assert w + t == t;
      assert w + Split(t)[0] == Split(t)[0];
      assert Split(t) == [Split(t)[0]] + Split(t)[1..];
    }
  }

  /** Splitting the joined lines gives back the lines when none holds a line feed. */
  lemma {:induction false} SplitJoin(ls: seq<string>)
    requires |ls| >= 1
    requires forall k :: 0 <= k < |ls| ==> '\n' !in ls[k]
    ensures Split(Join(ls)) == ls
  {
    if |ls| == 1 {
      SplitPrefix(ls[0], []);
      assert ls[0] + [] == ls[0];
      assert Split([]) == [[]];
      assert ls == [ls[0]];
    } else {
      SplitJoin(ls[1..]);
      var t := "\n" + Join(ls[1..]);
      assert Join(ls) == ls[0] + t;
      SplitPrefix(ls[0], t);
      assert t[1..] == Join(ls[1..]);
      assert Split(t) == [[]] + ls[1..];
      assert ls[0] + [] == ls[0];
      assert ls == [ls[0]] + ls[1..];
    }
  }

  // ---------------------------------------------------------------------------
  // Substrings and the classification of one report line.

  /** Python's `pat in s` on strings. */
  predicate Contains(s: string, pat: string)
    decreases |s|
  {
    pat <= s || (s != [] && Contains(s[1..], pat))
  }

  /** `pat in s` holds exactly when pat occurs at some position of s. */
  lemma {:induction false} ContainsIff(s: string, pat: string)
    ensures Contains(s, pat) <==> exists i: nat :: LiteralAt(s, i, pat)
    decreases |s|
  {
    if pat <= s {
      assert LiteralAt(s, 0, pat);
    } else if s != [] {
      ContainsIff(s[1..], pat);
      if Contains(s[1..], pat) {
        var i: nat :| LiteralAt(s[1..], i, pat);
        assert s[1..][i..i + |pat|] == s[i + 1..i + 1 + |pat|];
        assert LiteralAt(s, i + 1, pat);
      }
      if exists i: nat :: LiteralAt(s, i, pat) {
        var i: nat :| LiteralAt(s, i, pat);
        if i != 0 {
          assert s[1..][i - 1..i - 1 + |pat|] == s[i..i + |pat|];
          assert LiteralAt(s[1..], i - 1, pat);
        }
      }
    }
  }

  /** Which branch of the `if`/`elif` a report line takes. */
  datatype LineKind = LatitudeLine | LongitudeLine | OtherLine

  function Classify(line: string): LineKind {
    if Contains(line, "GPS Latitude") && !Contains(line, "Ref") then LatitudeLine
    else if Contains(line, "GPS Longitude") && !Contains(line, "Ref") then LongitudeLine
    else OtherLine
  }

  /** What a conversion that did not raise leaves in `lat` or `lon`. */
  function Reading(c: Conversion): Option<real> {
    if c.Decimal? then Some(c.value) else None
  }

  // ---------------------------------------------------------------------------
  // What the scan computes, stated over the whole list of lines.

  /** The conversion of the last line of the given kind, or `None` when there is none. */
  function LastReading(ls: seq<string>, kind: LineKind): Option<real> {
    if ls == [] then None
    else if Classify(ls[|ls| - 1]) == kind then Reading(Convert(ls[|ls| - 1]))
    else LastReading(ls[..|ls| - 1], kind)
  }

  /** A latitude or longitude line on which `convert_to_decimal` raises. */
  predicate Voids(line: string) {
    Classify(line) != OtherLine && Convert(line) == Malformed
  }

  /** Some line of the report makes `convert_to_decimal` raise. */
  ghost predicate Raises(ls: seq<string>) {
    exists k :: 0 <= k < |ls| && Voids(ls[k])
  }

  /** The pair `get_gps_info` returns for the tool's output (`None`: the tool step failed). */
  ghost function GpsInfo(output: Option<string>): (Option<real>, Option<real>) {
    match output
    case None => (None, None)
    case Some(text) =>
      var ls := Split(text);
      if Raises(ls) then (None, None)
      else (LastReading(ls, LatitudeLine), LastReading(ls, LongitudeLine))
  }

  /** The loop of `get_gps_info` over the report. */
  method GetGpsInfo(output: Option<string>) returns (lat: Option<real>, lon: Option<real>)
    ensures (lat, lon) == GpsInfo(output)
  {
    if output.None? {
      return None, None;
    }
    var lines := Split(output.value);
    lat, lon := None, None;
    for i := 0 to |lines|
      invariant !Raises(lines[..i])
      invariant lat == LastReading(lines[..i], LatitudeLine)
      invariant lon == LastReading(lines[..i], LongitudeLine)
    {
      var line := lines[i];
      assert lines[..i + 1] == lines[..i] + [line];
      assert lines[..i + 1][..i] == lines[..i];
      var kind := Classify(line);
      if kind == LatitudeLine {
        var c := Convert(line);
        if c == Malformed {
          assert Voids(lines[i]);
          return None, None;
        }
        lat := Reading(c);
      } else if kind == LongitudeLine {
        var c := Convert(line);
        if c == Malformed {
          assert Voids(lines[i]);
          return None, None;
        }
        lon := Reading(c);
      }
      assert !Raises(lines[..i + 1]) by {
        var done := lines[..i + 1];
        forall k | 0 <= k < |done| ensures !Voids(done[k]) {
          if k < i {
            assert done[k] == lines[..i][k];
          }
        }
      }
    }
    assert lines[..|lines|] == lines;
  }

  // ---------------------------------------------------------------------------
  // Properties of the scan.

  /** The reading of a kind is the conversion of the last line of that kind. */
  lemma {:induction false} LastReadingIsLast(ls: seq<string>, kind: LineKind, k: nat)
    requires k < |ls| && Classify(ls[k]) == kind
    requires forall j :: k < j < |ls| ==> Classify(ls[j]) != kind
    ensures LastReading(ls, kind) == Reading(Convert(ls[k]))
  {
    if k < |ls| - 1 {
      var front := ls[..|ls| - 1];
      assert front[k] == ls[k];
      forall j | k < j < |front| ensures Classify(front[j]) != kind {
        assert front[j] == ls[j];
      }
      LastReadingIsLast(front, kind, k);
    }
  }

  /** Without a line of the kind, the reading stays `None`. */
  lemma {:induction false} LastReadingAbsent(ls: seq<string>, kind: LineKind)
    requires forall j :: 0 <= j < |ls| ==> Classify(ls[j]) != kind
    ensures LastReading(ls, kind) == None
  {
    if ls != [] {
      var front := ls[..|ls| - 1];
      forall j | 0 <= j < |front| ensures Classify(front[j]) != kind {
        assert front[j] == ls[j];
      }
      LastReadingAbsent(front, kind);
    }
  }

  /** A line that mentions "Ref" changes neither `lat` nor `lon`. */
  lemma RefLineIgnored(ls: seq<string>, line: string)
    requires Contains(line, "Ref")
    ensures LastReading(ls + [line], LatitudeLine) == LastReading(ls, LatitudeLine)
    ensures LastReading(ls + [line], LongitudeLine) == LastReading(ls, LongitudeLine)
  {
    assert (ls + [line])[..|ls|] == ls;
  }

  /** A qualifying line whose pattern is absent resets the reading to `None`. */
  lemma UnmatchedLineResets(ls: seq<string>, line: string)
    requires Classify(line) != OtherLine && Convert(line) == NoMatch
    ensures LastReading(ls + [line], Classify(line)) == None
  {
  }

  /** A line naming both fields (and not "Ref") is a latitude line: the `elif` never sees it. */
  lemma LatitudeTakesPrecedence(line: string)
    requires Contains(line, "GPS Latitude") && Contains(line, "GPS Longitude")
    requires !Contains(line, "Ref")
    ensures Classify(line) == LatitudeLine
  {
  }

  /** One raising latitude or longitude line voids the whole report, whatever else it holds. */
  lemma RaisingLineVoidsReport(before: seq<string>, bad: string, after: seq<string>)
    requires forall k :: 0 <= k < |before| ==> '\n' !in before[k]
    requires forall k :: 0 <= k < |after| ==> '\n' !in after[k]
    requires '\n' !in bad
    requires Voids(bad)
    ensures GpsInfo(Some(Join(before + [bad] + after))) == (None, None)
  {
    var ls := before + [bad] + after;
    forall k | 0 <= k < |ls| ensures '\n' !in ls[k] {
      if k < |before| {
        assert ls[k] == before[k];
      } else if k > |before| {
        assert ls[k] == after[k - |before| - 1];
      }
    }
    SplitJoin(ls);
    assert ls[|before|] == bad;
  }

  /**
   * For a report without raising lines, `lat` is the conversion of its last
   * latitude line and `lon` that of its last longitude line.
   */
  lemma ReportReadings(ls: seq<string>, kind: LineKind, k: nat)
    requires |ls| >= 1 && forall j :: 0 <= j < |ls| ==> '\n' !in ls[j]
    requires !Raises(ls)
    requires k < |ls| && kind != OtherLine && Classify(ls[k]) == kind
    requires forall j :: k < j < |ls| ==> Classify(ls[j]) != kind
    ensures (if kind == LatitudeLine then GpsInfo(Some(Join(ls))).0 else GpsInfo(Some(Join(ls))).1)
            == Reading(Convert(ls[k]))
  {
    SplitJoin(ls);
    LastReadingIsLast(ls, kind, k);
  }
}
