/** The pure parts of the Pelias place-search client: the coordinate-text test, the
    input guards in front of the two HTTP requests, and the conversion of a GeoJSON
    feature collection into the search results the rest of the tool stores. */
module Pelias {
  import opened JsValues

  /** A longitude or latitude. The client only copies and reorders coordinates,
      never computes on them, so any value type with equality would do. */
  type Coord = int

  /** Number of results asked of the search service, forward and reverse. */
  const ResultSize: nat := 5

  /** The parts of a GeoJSON feature the client reads: `geometry.coordinates`,
      `properties.label` and, when it is an array, `bbox`. */
  datatype Feature = Feature(coordinates: seq<Coord>, labelText: Option<string>, bbox: Option<seq<Coord>>)

  /** The body of a search-service response: `data.features`. */
  datatype GeocodeResponse = GeocodeResponse(features: seq<Feature>)

  /** A Leaflet `[lat, lng]` pair. */
  datatype LatLng = LatLng(lat: Coord, lng: Coord)

  /** Leaflet bounds `[[south, west], [north, east]]`. */
  datatype Bounds = Bounds(southWest: LatLng, northEast: LatLng)

  /** One search result as the client hands it on: the point (`x` longitude, `y`
      latitude), the label, the bounds of an area result and the raw feature. */
  datatype Place = Place(x: Option<Coord>, y: Option<Coord>, labelText: Option<string>, bounds: Option<Bounds>, raw: Feature)

  /** Query parameters of a forward search. */
  datatype SearchParams = SearchParams(text: string, size: nat)

  /** Query parameters of a reverse search. */
  datatype ReverseParams = ReverseParams(lat: Scalar, lon: Scalar, size: nat)

  // ---------------------------------------------------------------------------
  // The coordinate-text test

  predicate IsDigit(c: char) { '0' <= c <= '9' }

  /** `\s` of an ECMAScript regular expression: white space and line terminators. */
  predicate IsSpace(c: char)
  {
    c == '\t' || c == '\n' || c == '\U{000B}' || c == '\U{000C}' || c == '\r' || c == ' '
    || c == '\U{00A0}' || c == '\U{1680}' || ('\U{2000}' <= c <= '\U{200A}')
    || c == '\U{2028}' || c == '\U{2029}' || c == '\U{202F}' || c == '\U{205F}'
    || c == '\U{3000}' || c == '\U{FEFF}'
  }

  /** `\d+` */
  ghost predicate Digits(t: string)
  {
    |t| > 0 && forall k :: 0 <= k < |t| ==> IsDigit(t[k])
  }

  /** `\d+(\.\d+)?` */
  ghost predicate Unsigned(t: string)
  {
    Digits(t) || exists k :: 0 < k < |t| && t[k] == '.' && Digits(t[..k]) && Digits(t[k + 1..])
  }

  /** `(\-?|\+?)?\d+(\.\d+)?`: at most one sign, then an unsigned decimal. */
  ghost predicate Signed(t: string)
  {
    Unsigned(t) || (|t| > 0 && (t[0] == '-' || t[0] == '+') && Unsigned(t[1..]))
  }

  /** `\s*` */
  ghost predicate Spaces(t: string)
  {
    forall k :: 0 <= k < |t| ==> IsSpace(t[k])
  }

  /** The whole string matches `^(signed),\s*(signed)$`. */
  ghost predicate IsLatLngText(s: string)
  {
    exists i, j :: 0 <= i < j <= |s| && s[i] == ',' && Signed(s[..i]) && Spaces(s[i + 1..j]) && Signed(s[j..])
  }

  /** End of the run of digits that starts at `p`. */
  function DigitsEnd(s: string, p: nat): (q: nat)
    requires p <= |s|
    ensures p <= q <= |s|
    ensures forall k :: p <= k < q ==> IsDigit(s[k])
    ensures q == |s| || !IsDigit(s[q])
    decreases |s| - p
  {
    if p < |s| && IsDigit(s[p]) then DigitsEnd(s, p + 1) else p
  }

  /** End of the run of white space that starts at `p`. */
  function SpacesEnd(s: string, p: nat): (q: nat)
    requires p <= |s|
    ensures p <= q <= |s|
    ensures forall k :: p <= k < q ==> IsSpace(s[k])
    ensures q == |s| || !IsSpace(s[q])
    decreases |s| - p
  {
    if p < |s| && IsSpace(s[p]) then SpacesEnd(s, p + 1) else p
  }

  /** Index of the first comma at or after `p`, or `|s|` when there is none. */
  function CommaIndex(s: string, p: nat): (q: nat)
    requires p <= |s|
    ensures p <= q <= |s|
    ensures forall k :: p <= k < q ==> s[k] != ','
    ensures q == |s| || s[q] == ','
    decreases |s| - p
  {
    if p < |s| && s[p] != ',' then CommaIndex(s, p + 1) else p
  }

  /** A digit run from `p` that reaches the end of `t`, or a non-digit, makes
      `DigitsEnd` stop there. */
  lemma {:induction false} DigitsEndAt(t: string, p: nat, q: nat)
    requires p <= q <= |t|
    requires forall k :: p <= k < q ==> IsDigit(t[k])
    requires q == |t| || !IsDigit(t[q])
    ensures DigitsEnd(t, p) == q
    decreases q - p
  {
    if p < q {
      DigitsEndAt(t, p + 1, q);
    }
  }

  /** The digits of a slice are the digits of the text in that range. */
  lemma DigitsSlice(t: string, a: nat, b: nat)
    requires a <= b <= |t|
    ensures Digits(t[a..b]) <==> a < b && forall k :: a <= k < b ==> IsDigit(t[k])
  {
    if a < b && forall k :: a <= k < b ==> IsDigit(t[k]) {
      forall m | 0 <= m < b - a ensures IsDigit(t[a..b][m]) {
        assert t[a..b][m] == t[a + m];
      }
    }
    if Digits(t[a..b]) {
      forall k | a <= k < b ensures IsDigit(t[k]) {
        assert t[k] == t[a..b][k - a];
      }
    }
  }

  /** An unsigned decimal is scanned as a digit run that ends the text, or one
      followed by a dot and a second digit run that ends it. */
  lemma UnsignedScanned(t: string)
    ensures Unsigned(t) ==>
      var q := DigitsEnd(t, 0);
      0 < q && (q == |t| || (t[q] == '.' && q + 1 < |t| && DigitsEnd(t, q + 1) == |t|))
  {
    if Digits(t) {
      DigitsSlice(t, 0, |t|);
      assert t[0..|t|] == t;
      DigitsEndAt(t, 0, |t|);
    } else if Unsigned(t) {
      var k :| 0 < k < |t| && t[k] == '.' && Digits(t[..k]) && Digits(t[k + 1..]);
      assert DigitsEnd(t, 0) == k by {
        DigitsSlice(t, 0, k);
        assert t[0..k] == t[..k];
        DigitsEndAt(t, 0, k);
      }
      assert DigitsEnd(t, k + 1) == |t| by {
        DigitsSlice(t, k + 1, |t|);
        assert t[k + 1..|t|] == t[k + 1..];
        DigitsEndAt(t, k + 1, |t|);
      }
    }
  }

  /** Scanner for `\d+(\.\d+)?`: digits, then either the end or a dot and digits to the end. */
  function ScanUnsigned(t: string): (r: bool)
    ensures r <==> Unsigned(t)
  {
    var q := DigitsEnd(t, 0);
    var r := 0 < q && (q == |t| || (t[q] == '.' && q + 1 < |t| && DigitsEnd(t, q + 1) == |t|));
    UnsignedScanned(t);
    DigitsSlice(t, 0, q);
    assert t[0..q] == t[..q];
    assert q == |t| ==> t[..q] == t;
    if q + 1 <= |t| then
      DigitsSlice(t, q + 1, |t|);
      assert t[q + 1..|t|] == t[q + 1..];
      r
    else
      r
  }

  /** Scanner for `(\-?|\+?)?\d+(\.\d+)?`. */
  function ScanSigned(t: string): (r: bool)
    ensures r <==> Signed(t)
  {
    ScanUnsigned(t) || (|t| > 0 && (t[0] == '-' || t[0] == '+') && ScanUnsigned(t[1..]))
  }

  /** An unsigned decimal starts with a digit and holds only digits and dots. */
  lemma UnsignedShape(u: string)
    requires Unsigned(u)
    ensures |u| > 0 && IsDigit(u[0])
    ensures forall m :: 0 <= m < |u| ==> IsDigit(u[m]) || u[m] == '.'
  {
    if Digits(u) {
      DigitsSlice(u, 0, |u|);
      assert u[0..|u|] == u;
    } else {
      var k :| 0 < k < |u| && u[k] == '.' && Digits(u[..k]) && Digits(u[k + 1..]);
      DigitsSlice(u, 0, k);
      assert u[0..k] == u[..k];
      DigitsSlice(u, k + 1, |u|);
      assert u[k + 1..|u|] == u[k + 1..];
    }
  }

  /** A signed decimal holds no comma and does not start with white space. */
  lemma SignedShape(t: string)
    requires Signed(t)
    ensures |t| > 0 && !IsSpace(t[0])
    ensures forall k :: 0 <= k < |t| ==> t[k] != ','
  {
    if Unsigned(t) {
      UnsignedShape(t);
    } else {
      UnsignedShape(t[1..]);
      forall k | 1 <= k < |t| ensures t[k] != ',' {
        assert t[k] == t[1..][k - 1];
      }
    }
  }

  /** Text that matches the coordinate pattern is found by the scan: its only comma is
      the first one, and the second number starts where the white space after it ends. */
  lemma LatLngScanned(s: string)
    ensures IsLatLngText(s) ==>
      var i := CommaIndex(s, 0);
      i < |s| && Signed(s[..i]) && Signed(s[SpacesEnd(s, i + 1)..])
  {
    if IsLatLngText(s) {
      var i, j :| 0 <= i < j <= |s| && s[i] == ',' && Signed(s[..i]) && Spaces(s[i + 1..j]) && Signed(s[j..]);
      assert CommaIndex(s, 0) == i by {
        SignedShape(s[..i]);
        forall k | 0 <= k < i ensures s[k] != ',' {
          assert s[k] == s[..i][k];
        }
        CommaIndexAt(s, 0, i);
      }
      assert SpacesEnd(s, i + 1) == j by {
        SignedShape(s[j..]);
        forall k | i + 1 <= k < j ensures IsSpace(s[k]) {
          assert s[k] == s[i + 1..j][k - i - 1];
        }
        assert j == |s| || s[j] == s[j..][0];
        SpacesEndAt(s, i + 1, j);
      }
    }
  }

  /** A stretch without commas from `p` that ends at a comma makes `CommaIndex`
      stop there. */
  lemma {:induction false} CommaIndexAt(t: string, p: nat, q: nat)
    requires p <= q < |t| && t[q] == ','
    requires forall k :: p <= k < q ==> t[k] != ','
    ensures CommaIndex(t, p) == q
    decreases q - p
  {
    if p < q {
      CommaIndexAt(t, p + 1, q);
    }
  }

  /** A white-space run from `p` that reaches the end, or a non-space, makes
      `SpacesEnd` stop there. */
  lemma {:induction false} SpacesEndAt(t: string, p: nat, q: nat)
    requires p <= q <= |t|
    requires forall k :: p <= k < q ==> IsSpace(t[k])
    requires q == |t| || !IsSpace(t[q])
    ensures SpacesEnd(t, p) == q
    decreases q - p
  {
    if p < q {
      SpacesEndAt(t, p + 1, q);
    }
  }

  /** `checkIfValidLatLng(str)`: the whole string is a signed decimal, a comma, any
      white space and another signed decimal. */
  function CheckIfValidLatLng(s: string): (r: bool)
    ensures r <==> IsLatLngText(s)
  {
    var i := CommaIndex(s, 0);
    var r := i < |s| && ScanSigned(s[..i]) && ScanSigned(s[SpacesEnd(s, i + 1)..]);
    LatLngScanned(s);
    if i < |s| then
      SpacesScanned(s, i + 1);
      r
    else
      r
  }

  /** What `SpacesEnd` skips is white space. */
  lemma SpacesScanned(s: string, p: nat)
    requires p <= |s|
    ensures Spaces(s[p..SpacesEnd(s, p)])
  {
    var gap := s[p..SpacesEnd(s, p)];
    forall k | 0 <= k < |gap| ensures IsSpace(gap[k]) {
      assert gap[k] == s[p + k];
    }
  }

  /** White space followed by a signed decimal holds no comma. */
  lemma NoCommaAfter(s: string, p: nat, j: nat)
    requires p <= j <= |s|
    requires forall k :: p <= k < j ==> IsSpace(s[k])
    requires Signed(s[j..])
    ensures ',' !in s[p..]
  {
    SignedShape(s[j..]);
    var rest := s[p..];
    forall k | 0 <= k < |rest| ensures rest[k] != ',' {
      assert rest[k] == s[p + k];
      if p + k >= j {
        assert s[p + k] == s[j..][p + k - j];
      } else {
        assert IsSpace(s[p + k]);
      }
    }
  }

  /** A string whose only comma is at `i` splits there. */
  lemma SplitAtOnlyComma(s: string, i: nat)
    requires i < |s| && s[i] == ','
    requires ',' !in s[..i] && ',' !in s[i + 1..]
    ensures Split(s, ',') == [s[..i], s[i + 1..]]
  {
    assert s == s[..i] + [','] + s[i + 1..];
    SplitAround(s[..i], s[i + 1..], ',');
  }

  /** Coordinate text splits at its one comma into two non-empty parts: `split(',')`
      gives exactly the latitude text and the longitude text. */
  lemma LatLngSplits(s: string)
    requires CheckIfValidLatLng(s)
    ensures var i := CommaIndex(s, 0);
      i < |s| && Split(s, ',') == [s[..i], s[i + 1..]] && s[..i] != "" && s[i + 1..] != ""
  {
    LatLngScanned(s);
    var i := CommaIndex(s, 0);
    var j := SpacesEnd(s, i + 1);
    SignedShape(s[..i]);
    SignedShape(s[j..]);
    assert |s[i + 1..]| >= |s[j..]| > 0;
    assert ',' !in s[..i] by {
      forall k | 0 <= k < i ensures s[..i][k] != ',' {
        assert s[..i][k] == s[k];
      }
    }
    NoCommaAfter(s, i + 1, j);
    SplitAtOnlyComma(s, i);
  }

  /** Coordinate text with a sign and spaces after the comma is accepted. */
  lemma AcceptsSignedPair()
    ensures CheckIfValidLatLng("48.1, -11.5")
  {
    var s := "48.1, -11.5";
    DigitsSlice(s[..4], 0, 2);
    DigitsSlice(s[..4], 3, 4);
    assert s[..4][..2] == s[..4][0..2] && s[..4][3..] == s[..4][3..4];
    assert Unsigned(s[..4]);
    var t := s[6..];
    DigitsSlice(t[1..], 0, 2);
    DigitsSlice(t[1..], 3, 4);
    assert t[1..][..2] == t[1..][0..2] && t[1..][3..] == t[1..][3..4];
    assert Signed(t);
    var gap := s[5..6];
    assert gap == [' '];
    assert IsLatLngText(s) by {
      assert s[4] == ',' && Spaces(s[5..6]) && s[6..] == t;
    }
  }

  /** A space before the comma is rejected. */
  lemma RejectsSpaceBeforeComma()
    ensures !CheckIfValidLatLng("1 ,2")
  {
    var s := "1 ,2";
    assert CommaIndex(s, 2) == 2 && CommaIndex(s, 1) == 2 && CommaIndex(s, 0) == 2;
    var t := s[..2];
    assert t == "1 ";
    DigitsEndAt(t, 0, 1);
  }

  /** A number without digits before its dot is rejected. */
  lemma RejectsMissingIntegerPart()
    ensures !CheckIfValidLatLng(".5,2")
  {
    var s := ".5,2";
    assert CommaIndex(s, 2) == 2 && CommaIndex(s, 1) == 2 && CommaIndex(s, 0) == 2;
    var t := s[..2];
    assert t == ".5";
    DigitsEndAt(t, 0, 0);
  }

  /** A dot without digits after it is rejected. */
  lemma RejectsMissingFraction()
    ensures !CheckIfValidLatLng("1.,2")
  {
    var s := "1.,2";
    assert CommaIndex(s, 2) == 2 && CommaIndex(s, 1) == 2 && CommaIndex(s, 0) == 2;
    var t := s[..2];
    assert t == "1.";
    DigitsEndAt(t, 0, 1);
  }

  /** A third number is rejected. */
  lemma RejectsThreeNumbers()
    ensures !CheckIfValidLatLng("1,2,3")
  {
    var s := "1,2,3";
    assert CommaIndex(s, 1) == 1 && CommaIndex(s, 0) == 1;
    SpacesEndAt(s, 2, 2);
    var t := s[2..];
    assert t == "2,3";
    DigitsEndAt(t, 0, 1);
  }

  // ---------------------------------------------------------------------------
  // Input guards of the two requests

  /** `searchGeocode(userInput)`: no request for an empty (or missing) text;
      otherwise the text, asking for five results. */
  function SearchGeocode(userInput: string): (req: Option<SearchParams>)
    ensures req.None? <==> userInput == ""
    ensures req.Some? ==> req.value.text == userInput && req.value.size == ResultSize
  {
    if userInput == "" then None else Some(SearchParams(userInput, ResultSize))
  }

  /** `reverseGeocode({lat, lng})`: no request when either coordinate is falsy
      (missing, empty or the number 0); otherwise both, asking for five results. */
  function ReverseGeocode(lat: Scalar, lng: Scalar): (req: Option<ReverseParams>)
    ensures req.Some? <==> Truthy(lat) && Truthy(lng)
    ensures req.Some? ==> req.value == ReverseParams(lat, lng, ResultSize)
  {
    if !Truthy(lat) || !Truthy(lng) then None else Some(ReverseParams(lat, lng, ResultSize))
  }

  /** A point on the equator or on the prime meridian is never looked up. */
  lemma ReverseGeocodeSkipsZero(c: Coord)
    ensures ReverseGeocode(Num(0), Num(c)) == None && ReverseGeocode(Num(c), Num(0)) == None
  {
  }

  // ---------------------------------------------------------------------------
  // Parsing a search response

  /** GeoJSON bounding box `[minX, minY, maxX, maxY]` (section 5 of RFC 7946) of
      Leaflet bounds: the inverse of `BoundsOf`. */
  function GeoJsonBox(b: Bounds): seq<Coord>
  {
    [b.southWest.lng, b.southWest.lat, b.northEast.lng, b.northEast.lat]
  }

  /** Bounds of a feature: only a `bbox` array of exactly four numbers gives any. */
  function BoundsOf(bbox: Option<seq<Coord>>): (b: Option<Bounds>)
    ensures b.Some? <==> bbox.Some? && |bbox.value| == 4
    ensures b.Some? ==> GeoJsonBox(b.value) == bbox.value
  {
    match bbox
    case Some(box) =>
      if |box| == 4 then Some(Bounds(LatLng(box[1], box[0]), LatLng(box[3], box[2]))) else None
    case None => None
  }

  /** The `i`-th element of an array, `undefined` past its end. */
  function At(s: seq<Coord>, i: nat): (v: Option<Coord>)
    ensures v.Some? <==> i < |s|
    ensures v.Some? ==> v.value == s[i]
  {
    if i < |s| then Some(s[i]) else None
  }

  /** The result built for one feature. */
  function ToPlace(f: Feature): Place
  {
    Place(At(f.coordinates, 0), At(f.coordinates, 1), f.labelText, BoundsOf(f.bbox), f)
  }

  /** `features.map(...)` */
  function ToPlaces(fs: seq<Feature>): (ps: seq<Place>)
    ensures |ps| == |fs|
    ensures forall k :: 0 <= k < |fs| ==> ps[k] == ToPlace(fs[k])
  {
    if |fs| == 0 then [] else [ToPlace(fs[0])] + ToPlaces(fs[1..])
  }

  /** `parseGeocodeResponse(resp)`: one result per feature, in the same order; each
      carries the feature's first coordinate as `x`, its second as `y`, its label,
      its bounds (south-west, north-east) when it has a four-number bbox, and the
      feature itself as `raw`. */
  function ParseGeocodeResponse(resp: GeocodeResponse): (ps: seq<Place>)
    ensures |ps| == |resp.features|
    ensures forall k :: 0 <= k < |ps| ==> var f := resp.features[k];
      && ps[k].raw == f && ps[k].labelText == f.labelText
      && ps[k].x == At(f.coordinates, 0) && ps[k].y == At(f.coordinates, 1)
      && ps[k].bounds == BoundsOf(f.bbox)
  {
    ToPlaces(resp.features)
  }

  /** The raw features of a list of results. */
  function RawFeatures(ps: seq<Place>): (fs: seq<Feature>)
    ensures |fs| == |ps|
    ensures forall k :: 0 <= k < |ps| ==> fs[k] == ps[k].raw
  {
    if |ps| == 0 then [] else [ps[0].raw] + RawFeatures(ps[1..])
  }

  /** Parsing loses no feature and reorders none: the raw features of the results
      are the response's features. */
  lemma ParsePreservesFeatures(resp: GeocodeResponse)
    ensures RawFeatures(ParseGeocodeResponse(resp)) == resp.features
  {
    var ps := ParseGeocodeResponse(resp);
    assert forall k :: 0 <= k < |ps| ==> RawFeatures(ps)[k] == resp.features[k];
  }
}
