# exifosint: reading GPS coordinates from exiftool output, modelled in Dafny

exifosint is a small desktop tool. The user picks a photo. The tool runs
`exiftool` on it, reads the GPS latitude and longitude out of the text
report, turns the degrees/minutes/seconds notation into signed decimal
degrees, asks a reverse geocoder for the address, and shows a summary with a
map link. All of it lives in `main.py`.

This project models the parts of that file that compute something:

- `convert_to_decimal` (module `Dms`, with `FloatLiteral` for Python's
  `float()`). It finds the leftmost match of
  `: ([0-9.]+) deg ([0-9.]+)' ([0-9.]+)" ([NSEW])` in a line and evaluates
  `D + M/60 + S/3600`, negated for `S` and `W`. There are three outcomes: no
  match (`None`), a group `float()` rejects (`ValueError`), or a value. The
  regular-expression search is an index-based scan. It is proved equal to the
  declarative reading "the pattern's text with these groups occurs at
  position i", in both directions.
- The line loop of `get_gps_info` (module `Report`). It is an imperative
  method over `lat` and `lon`. The method is proved equal to a specification
  function over the split report: the reading of the last qualifying line of
  each kind, or `(None, None)` as soon as any qualifying line raises.
- `show_result` up to the message box (module `Summary`). It is an imperative
  method that appends the lines one guard at a time. It is proved equal to a
  function listing the present entries in order, followed by the map line.
- `select_file` (module `Selection`). It models the guards that stop the
  pipeline: no path chosen, not an image, no GPS data, no address. Calls to
  the outside world are parameters of the method.

`Wrappers` holds the `Option` type shared by all modules.

## Model

| member | source | states |
|---|---|---|
| FloatLiteral.ParseFloat | main.py:13 | `float()` of a `[0-9.]` token is never negative |
| FloatLiteral.ParseFloatSomeIff | main.py:13 | `float()` accepts a `[0-9.]` token exactly when it holds at least one digit and at most one dot; otherwise it raises |
| FloatLiteral.ParseFloatOfDigits | main.py:13 | round trip: `float()` of the decimal rendering of a natural number n is n |
| FloatLiteral.ParseFloatWhole | main.py:13 | `float()` of a non-empty string of digits is the number those digits denote |
| FloatLiteral.ParseFloatDecimal | main.py:13 | `float()` of `w.f` (digits, a dot, digits, at least one digit in all) is the value of w plus the fraction `0.f` |
| FloatLiteral.FractionValueScaled | main.py:13 | the fraction value of the digits f, multiplied by 10 to the number of digits, is the natural number f denotes, so FractionValue is `0.f` |
| FloatLiteral.DigitsValueCons | main.py:13 | a leading digit adds its value followed by as many zeros as there are digits after it |
| FloatLiteral.DigitsValueOfDigits | main.py:13 | the digits of the rendering of n denote n |
| Dms.Evaluate | main.py:12-15 | evaluating matched groups never yields "no match"; it raises exactly when a group fails `float()`; otherwise the magnitude is `D + M/60 + S/3600`, it is non-negative, and it is negated exactly for `S` and `W` |
| Dms.EvaluateMalformedIff | main.py:13 | evaluation raises exactly when degrees, minutes or seconds is not a decimal literal (no digit, or two dots) |
| Dms.EvaluateDecimal | main.py:13-15 | a restatement of Evaluate's value clause for callers that know the readings d, m, s: these are non-negative and the result is `d + m/60 + s/3600`, negated for `S`/`W` |
| Dms.MatchAt | main.py:9 | the pattern matched at one fixed position; characterised by MatchAtSound, MatchAtComplete and OccursAtIff |
| Dms.SearchFrom | main.py:9 | `re.search` from a position on; characterised by SearchFromFound, SearchFromNone, SearchNoneIff and SearchLeftmost |
| Dms.Search | main.py:9 | `re.search` over the whole line; characterised by SearchNoneIff and SearchLeftmost |
| Dms.Convert | main.py:8-16 | `convert_to_decimal`; characterised by ConvertNoMatchIff, ConvertLeftmost, ConvertExtend and ConvertMalformedToken |
| Dms.MatchAtSound | main.py:9 | when the scan reports groups g at position i, the pattern's text with groups g occurs there |
| Dms.MatchAtComplete | main.py:9 | every occurrence of the pattern at position i is found by the scan at i, with the same groups |
| Dms.OccursAtIff | main.py:9 | the scan at i yields g exactly when the pattern occurs at i with groups g |
| Dms.OccursAtUnique | main.py:9 | the groups of an occurrence at a given position are unique (each group is followed by a space or a quote, which is outside `[0-9.]`, so it can only end where its run of digits and dots ends) |
| Dms.SearchNoneIff | main.py:9-11 | `re.search` finds nothing exactly when the pattern occurs nowhere in the line |
| Dms.SearchLeftmost | main.py:9 | `re.search` returns the leftmost occurrence and its groups |
| Dms.ConvertNoMatchIff | main.py:9-11 | `convert_to_decimal` returns `None` exactly when no substring of the line matches |
| Dms.ConvertLeftmost | main.py:9-16 | the result is the evaluation of the leftmost match's groups |
| Dms.ConvertExtend | main.py:9 | appending text after a line that already matches leaves the result unchanged |
| Dms.ConvertMalformedToken | main.py:13 | when the leftmost match holds a group `float()` rejects, for example `1.2.3` or `.`, the conversion raises |
| Dms.FirstColonOccurrence | main.py:9 | an occurrence with no `:` before it is the leftmost one, so it decides the result |
| Dms.ExampleLatitude | main.py:8-16 | `GPS Latitude : 40 deg 26' 46.00" N` converts to `40 + 26/60 + 46/3600` |
| Dms.ExampleMalformed | main.py:9-13 | `GPS Longitude : 2 deg 17' 1.2.3" W` matches the pattern, and its conversion raises |
| Report.Split | main.py:22 | `split('\n')` gives at least one piece, and no piece holds a line feed |
| Report.Join | main.py:22 | `'\n'.join`, the inverse of Split; characterised by JoinSplit and SplitJoin |
| Report.JoinSplit | main.py:22 | joining the pieces with `'\n'` gives back the report |
| Report.SplitJoin | main.py:22 | splitting joined lines without line feeds gives back the lines |
| Report.Contains | main.py:23 | Python's `pat in line`; characterised by ContainsIff |
| Report.ContainsIff | main.py:23 | `pat in line` holds exactly when pat occurs at some position of the line |
| Report.Classify | main.py:23-25 | the `if`/`elif` test on a line; characterised by LatitudeTakesPrecedence and RefLineIgnored |
| Report.GpsInfo | main.py:18-29 | the pair `get_gps_info` returns; GetGpsInfo's loop is proved equal to it, and LastReadingIsLast, LastReadingAbsent, RaisingLineVoidsReport and ReportReadings state what it is |
| Report.GetGpsInfo | main.py:18-29 | the loop returns the reading of the last latitude line and of the last longitude line, or `(None, None)` when the tool step fails or any qualifying line raises |
| Report.LastReadingIsLast | main.py:22-26 | the reading of a kind is the conversion of the last line of that kind, `None` included |
| Report.LastReadingAbsent | main.py:21-26 | with no line of a kind, its reading stays `None` |
| Report.RefLineIgnored | main.py:23-26 | a line mentioning `Ref` changes neither `lat` nor `lon` |
| Report.UnmatchedLineResets | main.py:23-26 | a later qualifying line without a match resets its reading to `None` |
| Report.LatitudeTakesPrecedence | main.py:23-26 | a line naming both fields, without `Ref`, is a latitude line, and the `elif` never sees it |
| Report.RaisingLineVoidsReport | main.py:22-29 | one raising qualifying line makes the result `(None, None)`, whatever the other lines hold |
| Report.ReportReadings | main.py:22-27 | for a report where no line raises, `lat` (or `lon`) is the conversion of the last latitude (or longitude) line |
| Summary.Get | main.py:54 | `address.get(key)` is the value when the key is present and `None` otherwise |
| Summary.Or | main.py:58 | Python's `x or y`: x when x is truthy, y otherwise |
| Summary.CityValue | main.py:58 | the city line's value; characterised by CityValueFirstTruthy and CityValueFallback |
| Summary.MapLink | main.py:62 | the map link; ShowResult's ensures ties the opened link to it |
| Summary.SummaryLines | main.py:52-63 | the lines `show_result` builds; ShowResult's loop of guards is proved equal to it, and SummaryShape, EntriesPresent, EntriesOrdered and LineShownIff state what it is |
| Summary.ShowResult | main.py:51-63 | the appended lines are the listed entries' lines followed by the map line, and the link is `https://www.google.com/maps?q=<lat>,<lon>` |
| Summary.EntriesPresent | main.py:53-60 | an entry is listed exactly when its key (for the city: city, town or village) is present |
| Summary.EntriesOrdered | main.py:53-60 | listed entries keep the order country, state, city, road |
| Summary.SummaryShape | main.py:52-63 | the summary has one to five lines: the listed entries' lines in order, and the map line always last |
| Summary.LineShownIff | main.py:53-60 | an entry's line is among the lines before the map line exactly when its guard holds |
| Summary.LineNamesEntry | main.py:54-60 | the label at the head of a line tells which entry it is |
| Summary.CityValueFirstTruthy | main.py:58 | the city line shows the first of city, town and village with a non-empty value |
| Summary.CityValueFallback | main.py:58 | with none of them non-empty, the value is `address.get('village')` |
| Summary.EmptyCityShowsNone | main.py:57-58 | an address holding only an empty city shows the city line as `None`, then the map line |
| Selection.HasGps | main.py:79 | the guard lets a pair through only when both coordinates are truthy; SelectFile's ensures and ZeroIsNoGps use it |
| Selection.HasAddress | main.py:84 | the guard lets an address through only when it is neither `None` nor empty; SelectFile's ensures uses it |
| Selection.SelectFile | main.py:67-88 | each guard's outcome (cancelled, not an image, no GPS, no address) and the shown summary; the summary is shown exactly when a path was chosen, the file is an image, both coordinates are truthy and the address is non-empty |
| Selection.ZeroIsNoGps | main.py:79 | a coordinate that is exactly 0 counts as missing GPS data |

## Left out

- Running `exiftool` and decoding its output (main.py:20) are not modelled. The report text is an `Option<string>` input, and `None` stands for any failure of that step.
- `reverse_geocode` (main.py:31-49) is an HTTP request, and the model leaves it out. Its result is the `geocode` parameter of `SelectFile`. Address values are taken to be strings: JSON numbers or nested objects are not modelled.
- The file dialog, the message boxes, `webbrowser.open` and the Tk window (main.py:64-65, 68, 75, 80, 85, 90-101) are user-interface effects and are not modelled. `ShowResult` returns the lines it would show and the link it would open.
- `PIL.Image.open` (main.py:73) is a foreign library. Whether it succeeds is the `opensAsImage` parameter.
- Floating point: arithmetic is exact over `real`, so IEEE rounding and the sign of `-0.0` are not modelled. Python's `str()` of a float inside the map link is the `render` parameter.
- FloatLiteral.ParseFloat: only models `float()` on strings of digits and dots. That is all the pattern's groups can capture. Signs, exponents, whitespace, `inf`/`nan` and underscores never reach it.
- The regular-expression engine itself is not modelled. Only this one pattern is, as a direct scan.
- `main.py` does no range checks on the coordinates, has no optional minutes or seconds groups, no "no details" line and no JPEG-only filter, and neither does the model. An empty address never reaches `show_result`: the guard at main.py:84 stops it.
