/**
 * The text part of `show_result`: the list of summary lines built from the
 * reverse-geocoded address and the map link. Showing the lines in a message
 * box and opening the link in a browser are not modelled.
 *
 * The address is the `address` object of the geocoder's JSON answer, taken as
 * a map from keys to string values. The coordinates enter the link through
 * Python's rendering of a float, which is a parameter here (`render`).
 */
module Summary {
  import opened Wrappers

  type Address = map<string, string>

  /** The four address lines the summary can hold, in the order it lists them. */
  datatype Entry = Country | State | City | Road

  const AllEntries: seq<Entry> := [Country, State, City, Road]

  /** Position of an entry in the summary's fixed order. */
  function Rank(e: Entry): nat {
    match e
    case Country => 0
    case State => 1
    case City => 2
    case Road => 3
  }

  /** The line prefixes (emoji and Russian caption) of the entries and of the map line. */
  function Label(e: Entry): string {
    match e
    case Country => "🌍 Страна: "
    case State => "🏞️ Регион: "
    case City => "🏙️ Город: "
    case Road => "🛣️ Улица: "
  }

  const MapLabel: string := "🗺️ Карта: "

  const MapPrefix: string := "https://www.google.com/maps?q="

  /** `address.get(key)`. */
  function Get(a: Address, key: string): (r: Option<string>)
    ensures r.Some? <==> key in a
    ensures r.Some? ==> r.value == a[key]
  {
    if key in a then Some(a[key]) else None
  }

  /** A value's truth in Python: `None` and the empty string are false. */
  predicate Truthy(v: Option<string>) {
    v.Some? && v.value != ""
  }

  /** Python's `x or y`: x when x is true, y otherwise. */
  function Or(x: Option<string>, y: Option<string>): (r: Option<string>)
    ensures Truthy(x) ==> r == x
    ensures !Truthy(x) ==> r == y
  {
    if Truthy(x) then x else y
  }

  /** How an f-string shows `address.get(...)`: the value, or `None` when the key is missing. */
  function Show(v: Option<string>): string {
    match v
    case None => "None"
    case Some(s) => s
  }

  /** The keys the city line falls back through. */
  const CityKeys: seq<string> := ["city", "town", "village"]

  /** `address.get('city') or address.get('town') or address.get('village')`. */
  function CityValue(a: Address): Option<string> {
    Or(Or(Get(a, "city"), Get(a, "town")), Get(a, "village"))
  }

  /** The guard under which `show_result` appends the line of an entry. */
  predicate Present(a: Address, e: Entry) {
    match e
    case Country => "country" in a
    case State => "state" in a
    case City => "city" in a || "town" in a || "village" in a
    case Road => "road" in a
  }

  /** The value the line of an entry shows. */
  function Value(a: Address, e: Entry): string {
    match e
    case Country => Show(Get(a, "country"))
    case State => Show(Get(a, "state"))
    case City => Show(CityValue(a))
    case Road => Show(Get(a, "road"))
  }

  function Line(a: Address, e: Entry): string {
    Label(e) + Value(a, e)
  }

  /** The entries of es whose guard holds, in the order of es. */
  function Filter(es: seq<Entry>, a: Address): (r: seq<Entry>)
    ensures |r| <= |es|
  {
    if es == [] then []
    else (if Present(a, es[0]) then [es[0]] else []) + Filter(es[1..], a)
  }

  /** The entries the summary lists for an address. */
  function Entries(a: Address): seq<Entry> {
    Filter(AllEntries, a)
  }

  function Lines(a: Address, es: seq<Entry>): (r: seq<string>)
    ensures |r| == |es|
  {
    if es == [] then [] else [Line(a, es[0])] + Lines(a, es[1..])
  }

  /** `f"https://www.google.com/maps?q={lat},{lon}"`. */
  function MapLink(lat: real, lon: real, render: real -> string): string {
    MapPrefix + render(lat) + "," + render(lon)
  }

  /** The lines of the summary: one per listed entry, then the map line. */
  function SummaryLines(a: Address, link: string): seq<string> {
    Lines(a, Entries(a)) + [MapLabel + link]
  }

  /** `show_result` up to the message box: the lines it joins and the link it opens. */
  method ShowResult(lat: real, lon: real, address: Address, render: real -> string)
    returns (lines: seq<string>, mapLink: string)
    ensures mapLink == MapLink(lat, lon, render)
    ensures lines == SummaryLines(address, mapLink)
  {
    lines := [];
    ghost var listed: seq<Entry> := [];
    if "country" in address {
      LinesSnoc(address, listed, Country);
      lines := lines + [Label(Country) + Show(Get(address, "country"))];
      listed := listed + [Country];
    }
    assert lines == Lines(address, listed);
    if "state" in address {
      LinesSnoc(address, listed, State);
      lines := lines + [Label(State) + Show(Get(address, "state"))];
      listed := listed + [State];
    }
    assert lines == Lines(address, listed);
    if "city" in address || "town" in address || "village" in address {
      var city := Or(Or(Get(address, "city"), Get(address, "town")), Get(address, "village"));
      LinesSnoc(address, listed, City);
      lines := lines + [Label(City) + Show(city)];
      listed := listed + [City];
    }
    assert lines == Lines(address, listed);
    if "road" in address {
      LinesSnoc(address, listed, Road);
      lines := lines + [Label(Road) + Show(Get(address, "road"))];
      listed := listed + [Road];
    }
    assert lines == Lines(address, listed);
    EntriesUnfold(address);
    assert listed == Entries(address);
    mapLink := MapPrefix + render(lat) + "," + render(lon);
    lines := lines + [MapLabel + mapLink];
  }

  // ---------------------------------------------------------------------------
  // Helpers for the method's proof.

  /** The four guards, tested one after the other. */
  lemma EntriesUnfold(a: Address)
    ensures Entries(a) ==
      (if Present(a, Country) then [Country] else []) +
      (if Present(a, State) then [State] else []) +
      (if Present(a, City) then [City] else []) +
      (if Present(a, Road) then [Road] else [])
  {
    var road := if Present(a, Road) then [Road] else [];
    var city := if Present(a, City) then [City] else [];
    var state := if Present(a, State) then [State] else [];
    assert [Road][1..] == [];
    assert Filter([Road], a) == road;
    assert [City, Road][1..] == [Road];
    assert Filter([City, Road], a) == city + road;
    assert [State, City, Road][1..] == [City, Road];
    assert Filter([State, City, Road], a) == state + (city + road);
    assert AllEntries[1..] == [State, City, Road];
  }

  /** Appending an entry appends its line. */
  lemma {:induction false} LinesSnoc(a: Address, es: seq<Entry>, e: Entry)
    ensures Lines(a, es + [e]) == Lines(a, es) + [Line(a, e)]
  {
    if es != [] {
      assert (es + [e])[1..] == es[1..] + [e];
      LinesSnoc(a, es[1..], e);
    } else {
      assert es + [e] == [e];
    }
  }

  /** The line of each listed entry, one by one. */
  lemma {:induction false} LinesOfEntries(a: Address, es: seq<Entry>)
    ensures forall k :: 0 <= k < |es| ==> Lines(a, es)[k] == Line(a, es[k])
  {
    if es != [] {
      LinesOfEntries(a, es[1..]);
    }
  }

  // ---------------------------------------------------------------------------
  // Properties of the summary.

  /** An entry is listed exactly when `show_result`'s guard for it holds. */
  lemma {:induction false} FilterMembers(es: seq<Entry>, a: Address, e: Entry)
    ensures e in Filter(es, a) <==> e in es && Present(a, e)
  {
    if es != [] {
      FilterMembers(es[1..], a, e);
      assert es == [es[0]] + es[1..];
    }
  }

  /** Filtering keeps entries in their original relative order. */
  lemma {:induction false} FilterOrdered(es: seq<Entry>, a: Address)
    requires forall j, k :: 0 <= j < k < |es| ==> Rank(es[j]) < Rank(es[k])
    ensures forall j, k :: 0 <= j < k < |Filter(es, a)| ==> Rank(Filter(es, a)[j]) < Rank(Filter(es, a)[k])
  {
    if es != [] {
      FilterOrdered(es[1..], a);
      forall e | e in Filter(es[1..], a) ensures Rank(es[0]) < Rank(e) {
        FilterMembers(es[1..], a, e);
        var k :| 0 <= k < |es[1..]| && es[1..][k] == e;
        assert es[k + 1] == e;
      }
    }
  }

  /** The entries are listed in the order country, state, city, road. */
  lemma EntriesOrdered(a: Address)
    ensures forall j, k :: 0 <= j < k < |Entries(a)| ==> Rank(Entries(a)[j]) < Rank(Entries(a)[k])
  {
    FilterOrdered(AllEntries, a);
  }

  lemma EntriesPresent(a: Address, e: Entry)
    ensures e in Entries(a) <==> Present(a, e)
  {
    FilterMembers(AllEntries, a, e);
  }

  /**
   * The summary holds one to five lines: the line of each listed entry in
   * order, and the map line last.
   */
  lemma SummaryShape(a: Address, link: string)
    ensures |SummaryLines(a, link)| == |Entries(a)| + 1
    ensures 1 <= |SummaryLines(a, link)| <= 5
    ensures SummaryLines(a, link)[|SummaryLines(a, link)| - 1] == MapLabel + link
    ensures forall k :: 0 <= k < |Entries(a)| ==> SummaryLines(a, link)[k] == Line(a, Entries(a)[k])
  {
    LinesOfEntries(a, Entries(a));
  }

  /** The line of an entry appears in the summary exactly when its guard holds. */
  lemma LineShownIff(a: Address, link: string, e: Entry)
    ensures Line(a, e) in SummaryLines(a, link)[..|Entries(a)|] <==> Present(a, e)
  {
    var es := Entries(a);
    var ls := SummaryLines(a, link)[..|es|];
    SummaryShape(a, link);
    EntriesPresent(a, e);
    if Present(a, e) {
      var k :| 0 <= k < |es| && es[k] == e;
      assert ls[k] == Line(a, e);
    }
    if Line(a, e) in ls {
      var k :| 0 <= k < |ls| && ls[k] == Line(a, e);
      LineNamesEntry(a, es[k], e);
      assert es[k] in es;
    }
  }

  /** A line's label tells which entry it is. */
  lemma LineNamesEntry(a: Address, e: Entry, f: Entry)
    requires Line(a, e) == Line(a, f)
    ensures e == f
  {
    assert Line(a, e)[0] == Label(e)[0];
    assert Line(a, f)[0] == Label(f)[0];
  }

  /** The city line shows the first of city, town and village whose value is non-empty. */
  lemma CityValueFirstTruthy(a: Address, k: nat)
    requires k < |CityKeys| && Truthy(Get(a, CityKeys[k]))
    requires forall j :: 0 <= j < k ==> !Truthy(Get(a, CityKeys[j]))
    ensures CityValue(a) == Get(a, CityKeys[k])
  {
    if k == 2 {
      assert !Truthy(Get(a, CityKeys[0])) && !Truthy(Get(a, CityKeys[1]));
    } else if k == 1 {
      assert !Truthy(Get(a, CityKeys[0]));
    }
  }

  /** With no non-empty value among them, `or` falls through to `address.get('village')`. */
  lemma CityValueFallback(a: Address)
    requires forall j :: 0 <= j < |CityKeys| ==> !Truthy(Get(a, CityKeys[j]))
    ensures CityValue(a) == Get(a, "village")
  {
    assert !Truthy(Get(a, CityKeys[0])) && !Truthy(Get(a, CityKeys[1]));
  }

  /** An address with an empty city and nothing else shows the city line as "None". */
  lemma EmptyCityShowsNone(link: string)
    ensures SummaryLines(map["city" := ""], link) == [Label(City) + "None", MapLabel + link]
  {
    var a := map["city" := ""];
    EntriesUnfold(a);
    assert Entries(a) == [City];
  }
}
