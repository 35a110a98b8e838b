/** The `directions` reducer: the state of the routing panel (the ordered waypoint
    list, the route results of each routing provider, whether the last route request
    succeeded, the highlighted manoeuvre segment) and how each action changes it. */
module Directions {
  import opened JsValues
  import opened Pelias

  /** One stop of the trip as the reducer stores it: a JavaScript object whose
      properties may each be missing. An empty slot made by `doAddWaypoint` has
      `x`, `y`, `labelText` and `isFetching`; a selected search result has the
      fields of a `Place` and `inputValue`; the geocoding actions add `results`,
      `userInput` and `geocodeResults`. */
  datatype Waypoint = Waypoint(
    x: Option<Coord>,
    y: Option<Coord>,
    labelText: Option<string>,
    raw: Option<Feature>,
    isFetching: Option<bool>,
    bounds: Option<Bounds>,
    inputValue: Option<string>,
    results: Option<seq<Place>>,
    userInput: Option<string>,
    geocodeResults: Option<seq<Place>>)

  /** `{}`, the object without properties. The model also puts it where the source
      leaves an array hole (the gap `copy[index] = w` opens past the end); the
      source's `map` skips a hole and its `filter` drops it, which the model does
      not capture. */
  const Blank := Waypoint(None, None, None, None, None, None, None, None, None, None)

  /** The highlighted part of the route, as manoeuvre indices. */
  datatype Segment = Segment(startIndex: int, endIndex: int)

  /** `{startIndex: -1, endIndex: -1}`: nothing highlighted. */
  const NoSegment := Segment(-1, -1)

  /** The manoeuvre the map zooms to. */
  datatype ZoomTarget = ZoomTarget(index: int, timeNow: int)

  /** JSON that the core stores and passes on without looking into it (a routing
      response, the incline/decline totals). */
  datatype Payload = Payload(json: string)

  /** A routing provider, keyed by its service URL. */
  type Provider = string

  /** The key of the one provider the panel uses (`VALHALLA_OSM_URL`). */
  const ValhallaOsmUrl: Provider := "VALHALLA_OSM_URL"

  /** A provider's `data`: `{}` before any route and after a clear, otherwise the
      routing response together with its decoded geometry. */
  datatype RouteData = EmptyData | Route(response: Payload, decodedGeometry: seq<LatLng>)

  /** A provider's entry in `results`; either property may be missing. */
  datatype ProviderResult = ProviderResult(data: Option<RouteData>, show: Option<bool>)

  /** The reducer's state. */
  datatype State = State(
    successful: bool,
    highlightSegment: Segment,
    waypoints: seq<Waypoint>,
    zoomObj: ZoomTarget,
    selectedAddresses: string,
    results: map<Provider, ProviderResult>,
    inclineDeclineTotal: Option<Payload>)

  /** The state before the first action. */
  const InitialState := State(
    false, NoSegment, [], ZoomTarget(-1, -1), "",
    map[ValhallaOsmUrl := ProviderResult(Some(EmptyData), Some(true))], None)

  /** The actions the reducer handles; any other action type is `Unknown`. An
      `index` of `None` is an index property left `undefined`. */
  datatype Action =
    | UpdateInclineDecline(payload: Payload)
    | ToggleProviderIso(provider: Provider, show: bool)
    | ClearRoutes(provider: Provider)
    | ReceiveRouteResults(provider: Provider, data: RouteData)
    | ReceiveGeocodeResults(index: Option<int>, places: seq<Place>)
    | RequestGeocodeResults(index: Option<int>)
    | UpdateTextInput(index: Option<int>, textResults: Option<seq<Place>>)
    | ClearWaypoints(index: Option<int>)
    | EmptyWaypoint(index: Option<int>)
    | UpdateWaypoint(index: Option<int>, waypoint: Waypoint)
    | SetWaypoint(list: seq<Waypoint>)
    | AddWaypoint(waypoint: Waypoint)
    | InsertWaypoint(waypoint: Waypoint)
    | HighlightMnv(segment: Segment)
    | ZoomToMnv(target: ZoomTarget)
    | Unknown(name: string)
  {
    /** Actions whose case rewrites only the waypoint list. */
    predicate OnWaypoints()
    {
      ReceiveGeocodeResults? || RequestGeocodeResults? || UpdateTextInput? || ClearWaypoints?
      || EmptyWaypoint? || UpdateWaypoint? || SetWaypoint? || AddWaypoint? || InsertWaypoint?
    }

    /** Actions whose case rewrites only the route results. */
    predicate OnRoutes()
    {
      ToggleProviderIso? || ClearRoutes? || ReceiveRouteResults?
    }
  }

  // ---------------------------------------------------------------------------
  // List operations used by the cases

  /** `ws.map((w, i) => i === index ? f(w) : w)` */
  function MapAt(ws: seq<Waypoint>, index: Option<int>, f: Waypoint -> Waypoint): (r: seq<Waypoint>)
    ensures |r| == |ws|
    ensures index.Some? && 0 <= index.value < |ws| ==> r[index.value] == f(ws[index.value])
    ensures forall i :: 0 <= i < |ws| && index != Some(i) ==> r[i] == ws[i]
    ensures !(index.Some? && 0 <= index.value < |ws|) ==> r == ws
  {
    seq(|ws|, i requires 0 <= i < |ws| => if index == Some(i) then f(ws[i]) else ws[i])
  }

  /** `ws.filter((v, i) => i !== index)`, walking the list from position `from`:
      exactly the element at `index` is dropped, when there is one. */
  function FilterOut(ws: seq<Waypoint>, index: int, from: int): (r: seq<Waypoint>)
    ensures from <= index < from + |ws| ==> r == ws[..index - from] + ws[index - from + 1..]
    ensures !(from <= index < from + |ws|) ==> r == ws
    decreases |ws|
  {
    if |ws| == 0 then []
    else
      var rest := FilterOut(ws[1..], index, from + 1);
      if from == index then
        assert ws[index - from + 1..] == ws[1..];
        rest
      else
        assert index != from ==> [ws[0]] + ws[1..] == ws;
        assert from < index < from + |ws| ==>
          [ws[0]] + ws[1..][..index - from - 1] == ws[..index - from]
          && ws[1..][index - from..] == ws[index - from + 1..];
        [ws[0]] + rest
  }

  /** Where `splice(start, 0, item)` inserts in an array of length `len`: a negative
      start counts back from the end, and both ends are clamped. */
  function SpliceStart(len: nat, start: int): (k: nat)
    ensures k <= len
    ensures 0 <= start <= len ==> k == start
    ensures start < 0 && 0 <= len + start ==> k == len + start
    ensures start > len ==> k == len
    ensures len + start < 0 ==> k == 0
  {
    if start < 0 then (if len + start < 0 then 0 else len + start)
    else if start > len then len
    else start
  }

  /** The array after `items.splice(start, 0, item)`. */
  function Spliced(items: seq<Waypoint>, start: int, item: Waypoint): (r: seq<Waypoint>)
    ensures |r| == |items| + 1
    ensures var k := SpliceStart(|items|, start);
      r[k] == item && r[..k] == items[..k] && r[k + 1..] == items[k..]
    ensures multiset(r) == multiset(items) + multiset{item}
  {
    var k := SpliceStart(|items|, start);
    assert items == items[..k] + items[k..];
    items[..k] + [item] + items[k..]
  }

  /** A copy of `ws` after `copy[index] = w`: an in-range index replaces that
      element, an index at or past the end extends the array (the gap, holes in
      the source, is filled with `Blank` here), and an `undefined` or negative
      index only sets a property that is not an array element. */
  function Assign(ws: seq<Waypoint>, index: Option<int>, w: Waypoint): (r: seq<Waypoint>)
    ensures index.None? || index.value < 0 ==> r == ws
    ensures index.Some? && 0 <= index.value < |ws| ==>
      |r| == |ws| && r[index.value] == w && forall i :: 0 <= i < |ws| && i != index.value ==> r[i] == ws[i]
    ensures index.Some? && index.value >= |ws| ==>
      |r| == index.value + 1 && r[index.value] == w && r[..|ws|] == ws
      && forall i :: |ws| <= i < index.value ==> r[i] == Blank
  {
    match index
    case None => ws
    case Some(k) =>
      if k < 0 then ws
      else if k < |ws| then ws[k := w]
      else ws + seq(k - |ws|, _ => Blank) + [w]
  }

  /** The element at `index` of an array, `undefined` when there is none. */
  function Element(ws: seq<Waypoint>, index: Option<int>): Option<Waypoint>
  {
    if index.Some? && 0 <= index.value < |ws| then Some(ws[index.value]) else None
  }

  /** `{...state.results[provider]}`: an absent provider spreads as `{}`. */
  function Entry(results: map<Provider, ProviderResult>, provider: Provider): (e: ProviderResult)
    ensures provider in results ==> e == results[provider]
    ensures provider !in results ==> e.data.None? && e.show.None?
  {
    if provider in results then results[provider] else ProviderResult(None, None)
  }

  // ---------------------------------------------------------------------------
  // The reducer

  /** `directions(state, action)`: waypoint actions rewrite only the waypoint list,
      route actions never touch the waypoints or the highlight, and an action of
      any other type returns the state unchanged. */
  function Apply(s: State, a: Action): (r: State)
    ensures a.OnWaypoints() ==> r == s.(waypoints := r.waypoints)
    ensures a.OnRoutes() ==> r.waypoints == s.waypoints && r.highlightSegment == s.highlightSegment
    ensures a.Unknown? ==> r == s
  {
    match a
    case UpdateInclineDecline(payload) =>
      s.(inclineDeclineTotal := Some(payload))
    case ToggleProviderIso(p, show) =>
      s.(results := s.results[p := Entry(s.results, p).(show := Some(show))])
    case ClearRoutes(p) =>
      s.(successful := false, inclineDeclineTotal := None,
         results := s.results[p := Entry(s.results, p).(data := Some(EmptyData))])
    case ReceiveRouteResults(p, data) =>
      s.(inclineDeclineTotal := None,
         results := s.results[p := Entry(s.results, p).(data := Some(data))],
         successful := true)
    case ReceiveGeocodeResults(index, places) =>
      s.(waypoints := MapAt(s.waypoints, index, (w: Waypoint) => w.(isFetching := Some(false), results := Some(places))))
    case RequestGeocodeResults(index) =>
      s.(waypoints := MapAt(s.waypoints, index, (w: Waypoint) => w.(isFetching := Some(true))))
    case UpdateTextInput(index, textResults) =>
      var base := match Element(s.waypoints, index) case Some(w) => w case None => Blank;
      var stored := match textResults case Some(rs) => rs case None => [];
      s.(waypoints := Assign(s.waypoints, index, base.(results := Some(stored))))
    case ClearWaypoints(index) =>
      s.(waypoints := if index.Some? && index.value >= 0 then FilterOut(s.waypoints, index.value, 0) else [])
    case EmptyWaypoint(index) =>
      s.(waypoints := MapAt(s.waypoints, index, (w: Waypoint) => w.(userInput := Some(""), geocodeResults := Some([]))))
    case UpdateWaypoint(index, w) =>
      s.(waypoints := Assign(s.waypoints, index, w))
    case SetWaypoint(list) =>
      s.(waypoints := list)
    case AddWaypoint(w) =>
      s.(waypoints := s.waypoints + [w])
    case InsertWaypoint(w) =>
      s.(waypoints := Spliced(s.waypoints, |s.waypoints| - 1, w))
    case HighlightMnv(segment) =>
      s.(highlightSegment := segment)
    case ZoomToMnv(target) =>
      s.(zoomObj := target)
    case Unknown(_) =>
      s
  }

  // ---------------------------------------------------------------------------
  // The cases, one property each

  /** ADD_WAYPOINT appends: one more waypoint, the payload last, the others as they were. */
  lemma AddWaypointAppends(s: State, w: Waypoint)
    ensures var r := Apply(s, AddWaypoint(w)).waypoints;
      |r| == |s.waypoints| + 1 && r[|s.waypoints|] == w && r[..|s.waypoints|] == s.waypoints
  {
  }

  /** INSERT_WAYPOINT puts the payload just before the last waypoint, which stays
      last; into an empty list it puts the payload alone. */
  lemma InsertWaypointBeforeLast(s: State, w: Waypoint)
    ensures var ws, r := s.waypoints, Apply(s, InsertWaypoint(w)).waypoints;
      |r| == |ws| + 1
      && (|ws| == 0 ==> r == [w])
      && (|ws| > 0 ==> r[|ws| - 1] == w && r[|ws|] == ws[|ws| - 1] && r[..|ws| - 1] == ws[..|ws| - 1])
  {
    var ws := s.waypoints;
    if |ws| > 0 {
      var r := Apply(s, InsertWaypoint(w)).waypoints;
      assert r == ws[..|ws| - 1] + [w] + ws[|ws| - 1..];
    }
  }

  /** CLEAR_WAYPOINTS with an index of 0 or more drops exactly that position and
      keeps the others in order; an index past the end changes nothing. */
  lemma ClearWaypointsRemovesIndex(s: State, k: nat)
    ensures var ws, r := s.waypoints, Apply(s, ClearWaypoints(Some(k))).waypoints;
      (k < |ws| ==>
         |r| == |ws| - 1
         && (forall j :: 0 <= j < k ==> r[j] == ws[j])
         && (forall j :: k <= j < |r| ==> r[j] == ws[j + 1]))
      && (k >= |ws| ==> r == ws)
  {
  }

  /** CLEAR_WAYPOINTS without an index, or with a negative one, empties the list. */
  lemma ClearWaypointsWithoutIndexEmpties(s: State, index: Option<int>)
    requires index.None? || index.value < 0
    ensures Apply(s, ClearWaypoints(index)).waypoints == []
  {
  }

  /** REQUEST_GEOCODE_RESULTS marks only the indexed waypoint as fetching and keeps the
      list's length; an index that is no position changes nothing. */
  lemma RequestGeocodeMarksSlot(s: State, index: Option<int>)
    ensures var ws, r := s.waypoints, Apply(s, RequestGeocodeResults(index)).waypoints;
      |r| == |ws|
      && (forall i :: 0 <= i < |ws| && index != Some(i) ==> r[i] == ws[i])
      && (forall i :: 0 <= i < |ws| && index == Some(i) ==> r[i] == ws[i].(isFetching := Some(true)))
      && (Element(ws, index).None? ==> r == ws)
  {
  }

  /** RECEIVE_GEOCODE_RESULTS stores the results in the indexed waypoint and clears
      its fetching flag, and changes nothing else. */
  lemma ReceiveGeocodeFillsSlot(s: State, index: Option<int>, places: seq<Place>)
    ensures var ws, r := s.waypoints, Apply(s, ReceiveGeocodeResults(index, places)).waypoints;
      |r| == |ws|
      && (forall i :: 0 <= i < |ws| && index != Some(i) ==> r[i] == ws[i])
      && (forall i :: 0 <= i < |ws| && index == Some(i) ==>
            r[i] == ws[i].(isFetching := Some(false), results := Some(places)))
      && (Element(ws, index).None? ==> r == ws)
  {
  }

  /** EMPTY_WAYPOINT clears the typed text and the candidate list of the indexed
      waypoint only; its coordinates, label and raw feature stay. */
  lemma EmptyWaypointKeepsLocation(s: State, index: Option<int>)
    ensures var ws, r := s.waypoints, Apply(s, EmptyWaypoint(index)).waypoints;
      |r| == |ws|
      && (forall i :: 0 <= i < |ws| && index != Some(i) ==> r[i] == ws[i])
      && (forall i :: 0 <= i < |ws| && index == Some(i) ==>
            r[i].userInput == Some("") && r[i].geocodeResults == Some([])
            && r[i].x == ws[i].x && r[i].y == ws[i].y && r[i].labelText == ws[i].labelText
            && r[i].raw == ws[i].raw && r[i] == ws[i].(userInput := r[i].userInput, geocodeResults := r[i].geocodeResults))
  {
  }

  /** UPDATE_WAYPOINT makes the indexed entry equal to the payload and leaves every
      other entry; an `undefined` or negative index changes no entry, and an index
      at or past the end grows the list to reach it, the gap filled with `{}`. */
  lemma UpdateWaypointReplacesEntry(s: State, index: Option<int>, w: Waypoint)
    ensures var ws, r := s.waypoints, Apply(s, UpdateWaypoint(index, w)).waypoints;
      (index.None? || index.value < 0 ==> r == ws)
      && (index.Some? && 0 <= index.value < |ws| ==>
            |r| == |ws| && r[index.value] == w
            && forall i :: 0 <= i < |ws| && i != index.value ==> r[i] == ws[i])
      && (index.Some? && index.value >= |ws| ==>
            |r| == index.value + 1 && r[index.value] == w && r[..|ws|] == ws
            && forall i :: |ws| <= i < index.value ==> r[i] == Blank)
  {
  }

  /** UPDATE_TEXTINPUT stores the given results (an empty list when there are none)
      in the indexed entry and keeps its other properties; an `undefined` or
      negative index changes no entry, and an index at or past the end grows the
      list to reach it, the gap filled with `{}` and the new entry holding only
      the results. */
  lemma UpdateTextInputStoresResults(s: State, index: Option<int>, textResults: Option<seq<Place>>)
    ensures var ws, r := s.waypoints, Apply(s, UpdateTextInput(index, textResults)).waypoints;
      var stored := Some(if textResults.Some? then textResults.value else []);
      (index.None? || index.value < 0 ==> r == ws)
      && (index.Some? && 0 <= index.value < |ws| ==>
            |r| == |ws| && r[index.value] == ws[index.value].(results := stored)
            && forall i :: 0 <= i < |ws| && i != index.value ==> r[i] == ws[i])
      && (index.Some? && index.value >= |ws| ==>
            |r| == index.value + 1 && r[..|ws|] == ws
            && (forall i :: |ws| <= i < index.value ==> r[i] == Blank)
            && r[index.value] == Blank.(results := stored))
  {
  }

  /** RECEIVE_ROUTE_RESULTS sets the provider's data and marks success; the
      provider's `show`, the other providers and the waypoints stay. */
  lemma ReceiveRouteResultsStores(s: State, p: Provider, data: RouteData)
    ensures var r := Apply(s, ReceiveRouteResults(p, data));
      r.successful && p in r.results && r.results[p].data == Some(data)
      && r.results[p].show == Entry(s.results, p).show
      && (forall q :: q in s.results && q != p ==> q in r.results && r.results[q] == s.results[q])
      && r.results.Keys == s.results.Keys + {p}
      && r.waypoints == s.waypoints
  {
  }

  /** CLEAR_ROUTES empties the provider's data and marks failure; the provider's
      `show`, the other providers and the waypoints stay. */
  lemma ClearRoutesEmpties(s: State, p: Provider)
    ensures var r := Apply(s, ClearRoutes(p));
      !r.successful && p in r.results && r.results[p].data == Some(EmptyData)
      && r.results[p].show == Entry(s.results, p).show
      && (forall q :: q in s.results && q != p ==> q in r.results && r.results[q] == s.results[q])
      && r.results.Keys == s.results.Keys + {p}
      && r.waypoints == s.waypoints
  {
  }

  /** TOGGLE_PROVIDER_ISO sets only the provider's `show`. */
  lemma ToggleProviderSetsShow(s: State, p: Provider, show: bool)
    ensures var r := Apply(s, ToggleProviderIso(p, show));
      p in r.results && r.results[p].show == Some(show)
      && r.results[p].data == Entry(s.results, p).data
      && (forall q :: q in s.results && q != p ==> q in r.results && r.results[q] == s.results[q])
      && r == s.(results := r.results)
  {
  }

  /** SET_WAYPOINT replaces the whole list and nothing else. */
  lemma SetWaypointReplacesList(s: State, list: seq<Waypoint>)
    ensures Apply(s, SetWaypoint(list)) == s.(waypoints := list)
  {
  }

  /** ZOOM_TO_MNV replaces the zoom target and nothing else. */
  lemma ZoomToReplacesTarget(s: State, target: ZoomTarget)
    ensures Apply(s, ZoomToMnv(target)) == s.(zoomObj := target)
  {
  }

  /** UPDATE_INCLINE_DECLINE stores its payload and nothing else; a route result or
      a cleared route drops it again. */
  lemma InclineDeclineStoredUntilRouteChanges(s: State, payload: Payload, p: Provider, data: RouteData)
    ensures var r := Apply(s, UpdateInclineDecline(payload));
      r == s.(inclineDeclineTotal := Some(payload))
      && Apply(r, ReceiveRouteResults(p, data)).inclineDeclineTotal.None?
      && Apply(r, ClearRoutes(p)).inclineDeclineTotal.None?
  {
  }

  /** HIGHLIGHT_MNV replaces the highlighted segment and nothing else. */
  lemma HighlightReplacesSegment(s: State, segment: Segment)
    ensures Apply(s, HighlightMnv(segment)) == s.(highlightSegment := segment)
  {
  }

  // ---------------------------------------------------------------------------
  // An invariant: candidate lists are never filled in

  /** Every waypoint's `geocodeResults` is missing or empty. Only EMPTY_WAYPOINT
      writes that property, and it writes `[]`. */
  ghost predicate NoCandidates(ws: seq<Waypoint>)
  {
    forall i :: 0 <= i < |ws| ==> ws[i].geocodeResults.None? || ws[i].geocodeResults == Some([])
  }

  /** The waypoints an action brings in from outside keep `NoCandidates`. */
  ghost predicate PayloadHasNoCandidates(a: Action)
  {
    match a
    case UpdateWaypoint(_, w) => NoCandidates([w])
    case AddWaypoint(w) => NoCandidates([w])
    case InsertWaypoint(w) => NoCandidates([w])
    case SetWaypoint(list) => NoCandidates(list)
    case _ => true
  }

  /** Removing a waypoint keeps `NoCandidates`. */
  lemma FilterOutKeepsNoCandidates(ws: seq<Waypoint>, k: int)
    requires NoCandidates(ws)
    ensures NoCandidates(FilterOut(ws, k, 0))
  {
    var r := FilterOut(ws, k, 0);
    if 0 <= k < |ws| {
      forall i | 0 <= i < |r| ensures r[i].geocodeResults.None? || r[i].geocodeResults == Some([]) {
        assert r[i] == if i < k then ws[i] else ws[i + 1];
      }
    }
  }

  /** Writing a waypoint without candidates keeps `NoCandidates`, holes included. */
  lemma AssignKeepsNoCandidates(ws: seq<Waypoint>, index: Option<int>, w: Waypoint)
    requires NoCandidates(ws) && NoCandidates([w])
    ensures NoCandidates(Assign(ws, index, w))
  {
    assert w == [w][0];
    var r := Assign(ws, index, w);
    forall i | 0 <= i < |r| ensures r[i].geocodeResults.None? || r[i].geocodeResults == Some([]) {
      assert r[i] == w || r[i] == Blank || (i < |ws| && r[i] == ws[i]);
    }
  }

  /** Splicing in a waypoint without candidates keeps `NoCandidates`. */
  lemma SplicedKeepsNoCandidates(ws: seq<Waypoint>, start: int, w: Waypoint)
    requires NoCandidates(ws) && NoCandidates([w])
    ensures NoCandidates(Spliced(ws, start, w))
  {
    assert w == [w][0];
    var k := SpliceStart(|ws|, start);
    var r := Spliced(ws, start, w);
    forall i | 0 <= i < |r| ensures r[i].geocodeResults.None? || r[i].geocodeResults == Some([]) {
      assert r[i] == if i < k then ws[i] else if i == k then w else ws[i - 1];
    }
  }

  /** The three cases that map over the list never fill a candidate list. */
  lemma MappedCasesKeepNoCandidates(s: State, a: Action)
    requires NoCandidates(s.waypoints)
    requires a.ReceiveGeocodeResults? || a.RequestGeocodeResults? || a.EmptyWaypoint?
    ensures NoCandidates(Apply(s, a).waypoints)
  {
    var ws, r := s.waypoints, Apply(s, a).waypoints;
    forall i | 0 <= i < |r| ensures r[i].geocodeResults in {ws[i].geocodeResults, Some([])} {}
  }

  /** UPDATE_TEXTINPUT writes `results`, never a candidate list. */
  lemma TextInputKeepsNoCandidates(s: State, index: Option<int>, rs: Option<seq<Place>>)
    requires NoCandidates(s.waypoints)
    ensures NoCandidates(Apply(s, UpdateTextInput(index, rs)).waypoints)
  {
    var ws := s.waypoints;
    var base := match Element(ws, index) case Some(w) => w case None => Blank;
    var stored := match rs case Some(rs) => rs case None => [];
    assert NoCandidates([base.(results := Some(stored))]) by {
      assert base == Blank || base in ws;
    }
    AssignKeepsNoCandidates(ws, index, base.(results := Some(stored)));
  }

  /** No action fills a waypoint's candidate list unless its own payload does. */
  lemma ApplyKeepsNoCandidates(s: State, a: Action)
    requires NoCandidates(s.waypoints) && PayloadHasNoCandidates(a)
    ensures NoCandidates(Apply(s, a).waypoints)
  {
    var ws := s.waypoints;
    match a {
      case ClearWaypoints(index) =>
        if index.Some? && index.value >= 0 {
          FilterOutKeepsNoCandidates(ws, index.value);
        }
      case UpdateWaypoint(index, w) =>
        AssignKeepsNoCandidates(ws, index, w);
      case UpdateTextInput(index, rs) =>
        TextInputKeepsNoCandidates(s, index, rs);
      case AddWaypoint(w) =>
        assert w == [w][0];
      case InsertWaypoint(w) =>
        SplicedKeepsNoCandidates(ws, |ws| - 1, w);
      case ReceiveGeocodeResults(_, _) =>
        MappedCasesKeepNoCandidates(s, a);
      case RequestGeocodeResults(_) =>
        MappedCasesKeepNoCandidates(s, a);
      case EmptyWaypoint(_) =>
        MappedCasesKeepNoCandidates(s, a);
      case _ =>
    }
  }


  // ---------------------------------------------------------------------------
  // INSERT_WAYPOINT in place

  /** The array object a state holds as `waypoints`. */
  class WaypointArray {
    var items: seq<Waypoint>

    constructor (items: seq<Waypoint>)
      ensures this.items == items
    {
      this.items := items;
    }

    /** `this.splice(start, 0, item)` */
    method Splice(start: int, item: Waypoint)
      modifies this
      ensures items == Spliced(old(items), start, item)
    {
      var k := SpliceStart(|items|, start);
      items := items[..k] + [item] + items[k..];
    }
  }

  /** The INSERT_WAYPOINT case as written: it splices into the array object of the
      previous state and returns a state holding a copy of it. The new state is the
      one `Apply` gives, and the previous state's array now holds the same list. */
  method InsertWaypointInPlace(s: State, shared: WaypointArray, w: Waypoint) returns (r: State)
    requires shared.items == s.waypoints
    modifies shared
    ensures r == Apply(s, InsertWaypoint(w))
    ensures shared.items == r.waypoints
  {
    shared.Splice(|shared.items| - 1, w);
    r := s.(waypoints := shared.items);
  }
}
