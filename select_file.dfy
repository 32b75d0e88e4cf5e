/**
 * `select_file`: the steps from a chosen file to the shown summary, and the
 * guards that stop it early. The file dialog, the image check, exiftool and
 * the geocoder are outside the model: their results are parameters.
 */
module Selection {
  import opened Wrappers
  import opened Report
  import opened Summary

  /** Where `select_file` stops, and what it shows when it gets to the end. */
  datatype Outcome =
    | Cancelled                                  // the dialog returned no path
    | NotAnImage                                 // `Image.open` raised
    | NoGps                                      // "GPS data not found" warning
    | NoAddress                                  // "could not determine the address" warning
    | Shown(lines: seq<string>, mapLink: string) // the summary and the link opened

  /** Python's truth of a coordinate: `None` and `0.0` are false. */
  predicate CoordTruthy(v: Option<real>) {
    v.Some? && v.value != 0.0
  }

  /** The guard at main.py line 79 lets the pair through: `not (not lat or not lon)`. */
  predicate HasGps(lat: Option<real>, lon: Option<real>) {
    CoordTruthy(lat) && CoordTruthy(lon)
  }

  /** The guard at main.py line 84 lets the address through: neither `None` nor `{}`. */
  predicate HasAddress(address: Option<Address>) {
    address.Some? && |address.value| > 0
  }

  /**
   * `select_file` once the user picked `path`. `opensAsImage` is whether
   * `Image.open(path)` succeeds, `report` what exiftool prints for the file
   * (`None` when running it fails), `geocode` the result of `reverse_geocode`
   * and `render` Python's rendering of a float.
   */
  method SelectFile(path: string, opensAsImage: bool, report: Option<string>,
                    geocode: (real, real) -> Option<Address>, render: real -> string)
    returns (outcome: Outcome)
    ensures path == [] ==> outcome == Cancelled
    ensures path != [] && !opensAsImage ==> outcome == NotAnImage
    ensures path != [] && opensAsImage ==>
      var (lat, lon) := GpsInfo(report);
      if !HasGps(lat, lon) then outcome == NoGps
      else
        var address := geocode(lat.value, lon.value);
        if !HasAddress(address) then outcome == NoAddress
        else
          var link := MapLink(lat.value, lon.value, render);
          outcome == Shown(SummaryLines(address.value, link), link)
    ensures outcome.Shown? <==>
      && path != [] && opensAsImage
      && HasGps(GpsInfo(report).0, GpsInfo(report).1)
      && HasAddress(geocode(GpsInfo(report).0.value, GpsInfo(report).1.value))
  {
    if path == [] {
      return Cancelled;
    }
    if !opensAsImage {
      return NotAnImage;
    }
    var lat, lon := GetGpsInfo(report);
    if !CoordTruthy(lat) || !CoordTruthy(lon) {
      return NoGps;
    }
    var address := geocode(lat.value, lon.value);
    if address.None? || |address.value| == 0 {
      return NoAddress;
    }
    var lines, mapLink := ShowResult(lat.value, lon.value, address.value, render);
    return Shown(lines, mapLink);
  }

  /** A coordinate of exactly zero counts as missing GPS data. */
  lemma ZeroIsNoGps(lat: Option<real>, lon: Option<real>)
    requires lat == Some(0.0) || lon == Some(0.0)
    ensures !HasGps(lat, lon)
  {
  }
}
