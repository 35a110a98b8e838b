/** The thunks of the routing panel. Each one reads the store and then dispatches
    actions and starts requests in a fixed order; here each is the ordered list of
    effects it produces for a given state and inputs, and `Run` replays the
    dispatches of such a list through the reducer. A nested thunk that reads the
    store after an earlier dispatch is given the state `Run` reaches at that point.
    The `.then` and `.catch` callbacks of a request are functions of their own,
    from the response to the effects they produce. */
module DirectionsActions {
  import opened JsValues
  import opened Pelias
  import opened Directions

  /** A user notification (`sendMessage`). */
  datatype Message = Message(kind: string, icon: string, description: string, title: string)

  /** Travel-profile settings (`common.settings`). */
  type Settings = map<string, string>

  /** What `buildDirectionsRequest` is given: the profile, the waypoints and the
      settings filtered for the profile. */
  datatype DirectionsRequest = DirectionsRequest(profile: string, activeWaypoints: seq<Waypoint>, settings: Settings)

  /** The `common` part of the store, and `filterProfileSettings`, whose code is not
      part of this model. */
  datatype Env = Env(profile: string, settings: Settings, filterProfileSettings: (string, Settings) -> Settings)

  /** What a thunk does, in order. `Dispatch` goes through the `directions` reducer;
      `UpdatePermalink`, `ShowLoading` and `ZoomTo` are dispatches of thunks and
      actions handled elsewhere; the three lookups are HTTP requests, and carry what
      their `.then` callback needs. */
  datatype Effect =
    | Dispatch(action: Action)
    | UpdatePermalink
    | ShowLoading(on: bool)
    | Notify(message: Message)
    | ZoomTo(points: seq<LatLng>)
    | FetchRoute(request: DirectionsRequest)
    | SearchLookup(search: SearchParams, slot: Option<int>)
    | ReverseLookup(reverse: ReverseParams, slot: Option<int>, init: bool)

  // ---------------------------------------------------------------------------
  // Replaying effects

  /** The reducer state after the dispatches among `effects`, in order. */
  function Run(s: State, effects: seq<Effect>): State
    decreases |effects|
  {
    if |effects| == 0 then s
    else Run(if effects[0].Dispatch? then Apply(s, effects[0].action) else s, effects[1..])
  }

  /** Replaying two effect lists one after the other is replaying their concatenation. */
  lemma {:induction false} RunConcat(s: State, e1: seq<Effect>, e2: seq<Effect>)
    ensures Run(s, e1 + e2) == Run(Run(s, e1), e2)
    decreases |e1|
  {
    if |e1| > 0 {
      assert (e1 + e2)[0] == e1[0];
      assert (e1 + e2)[1..] == e1[1..] + e2;
      RunConcat(if e1[0].Dispatch? then Apply(s, e1[0].action) else s, e1[1..], e2);
    } else {
      assert e1 + e2 == e2;
    }
  }

  /** No effect in the list is a dispatch to the `directions` reducer. */
  predicate NoDispatch(effects: seq<Effect>)
  {
    forall i :: 0 <= i < |effects| ==> !effects[i].Dispatch?
  }

  /** Effects without a dispatch leave the reducer state as it is. */
  lemma {:induction false} RunWithoutDispatch(s: State, effects: seq<Effect>)
    requires NoDispatch(effects)
    ensures Run(s, effects) == s
    decreases |effects|
  {
    if |effects| > 0 {
      RunWithoutDispatch(s, effects[1..]);
    }
  }

  /** Replaying a single dispatch applies its action. */
  lemma RunOne(s: State, a: Action)
    ensures Run(s, [Dispatch(a)]) == Apply(s, a)
  {
    assert [Dispatch(a)][1..] == [];
  }

  /** The number of user notifications among `effects`. */
  function Warnings(effects: seq<Effect>): nat
  {
    if |effects| == 0 then 0 else (if effects[0].Notify? then 1 else 0) + Warnings(effects[1..])
  }

  /** Notifications of two lists add up. */
  lemma {:induction false} WarningsConcat(e1: seq<Effect>, e2: seq<Effect>)
    ensures Warnings(e1 + e2) == Warnings(e1) + Warnings(e2)
    decreases |e1|
  {
    if |e1| > 0 {
      assert (e1 + e2)[0] == e1[0];
      assert (e1 + e2)[1..] == e1[1..] + e2;
      WarningsConcat(e1[1..], e2);
    } else {
      assert e1 + e2 == e2;
    }
  }

  /** Effects without a notification count no warning. */
  lemma {:induction false} QuietHasNoWarnings(effects: seq<Effect>)
    requires forall i :: 0 <= i < |effects| ==> !effects[i].Notify?
    ensures Warnings(effects) == 0
    decreases |effects|
  {
    if |effects| > 0 {
      QuietHasNoWarnings(effects[1..]);
    }
  }

  /** The routing requests among `effects`, in order. */
  function RouteRequests(effects: seq<Effect>): seq<DirectionsRequest>
  {
    if |effects| == 0 then []
    else (if effects[0].FetchRoute? then [effects[0].request] else []) + RouteRequests(effects[1..])
  }

  /** Routing requests of two lists are concatenated. */
  lemma {:induction false} RouteRequestsConcat(e1: seq<Effect>, e2: seq<Effect>)
    ensures RouteRequests(e1 + e2) == RouteRequests(e1) + RouteRequests(e2)
    decreases |e1|
  {
    if |e1| > 0 {
      assert (e1 + e2)[0] == e1[0];
      assert (e1 + e2)[1..] == e1[1..] + e2;
      RouteRequestsConcat(e1[1..], e2);
    } else {
      assert e1 + e2 == e2;
    }
  }

  /** What a single effect counts as. */
  lemma OneEffect(e: Effect)
    ensures Warnings([e]) == (if e.Notify? then 1 else 0)
    ensures RouteRequests([e]) == (if e.FetchRoute? then [e.request] else [])
    ensures Insertions([e]) == (if e.Dispatch? && e.action.InsertWaypoint? then 1 else 0)
  {
    assert [e][1..] == [];
  }

  /** What two effects in a row count as. */
  lemma TwoEffects(e1: Effect, e2: Effect)
    ensures Warnings([e1, e2]) == Warnings([e1]) + Warnings([e2])
    ensures RouteRequests([e1, e2]) == RouteRequests([e1]) + RouteRequests([e2])
  {
    assert [e1, e2] == [e1] + [e2];
    WarningsConcat([e1], [e2]);
    RouteRequestsConcat([e1], [e2]);
    OneEffect(e1);
    OneEffect(e2);
  }

  // ---------------------------------------------------------------------------
  // Adding and removing waypoints

  /** The slot `doAddWaypoint` creates: at 0,0, an empty label, no raw feature,
      not fetching. */
  const EmptyWp := Waypoint(Some(0), Some(0), Some(""), None, Some(false), None, None, None, None, None)

  /** `doAddWaypoint(doInsert)`: one dispatch of the empty slot, inserted before the
      last waypoint when `doInsert` is truthy and appended otherwise. */
  function DoAddWaypoint(doInsert: bool): (effects: seq<Effect>)
    ensures |effects| == 1 && effects[0].Dispatch?
    ensures effects[0].action.InsertWaypoint? <==> doInsert
    ensures effects[0].action.AddWaypoint? <==> !doInsert
    ensures (effects[0].action.InsertWaypoint? || effects[0].action.AddWaypoint?) && effects[0].action.waypoint == EmptyWp
  {
    [Dispatch(if doInsert then InsertWaypoint(EmptyWp) else AddWaypoint(EmptyWp))]
  }

  /** Adding a waypoint grows the list by one empty slot: at the end, or, when
      inserting into a non-empty list, just before the last waypoint, which stays last. */
  lemma AddWaypointGrowsByEmptySlot(s: State, doInsert: bool)
    ensures var ws, r := s.waypoints, Run(s, DoAddWaypoint(doInsert)).waypoints;
      |r| == |ws| + 1
      && (!doInsert ==> r[..|ws|] == ws && r[|ws|] == EmptyWp)
      && (doInsert && |ws| > 0 ==>
            r[..|ws| - 1] == ws[..|ws| - 1] && r[|ws| - 1] == EmptyWp && r[|ws|] == ws[|ws| - 1])
      && (doInsert && |ws| == 0 ==> r == [EmptyWp])
      && Run(s, DoAddWaypoint(doInsert)) == s.(waypoints := r)
  {
    var a := if doInsert then InsertWaypoint(EmptyWp) else AddWaypoint(EmptyWp);
    RunOne(s, a);
    AddWaypointAppends(s, EmptyWp);
    InsertWaypointBeforeLast(s, EmptyWp);
  }

  /** The effects of `fetchValhallaDirections(request)` up to its request. */
  function FetchValhallaDirections(request: DirectionsRequest): seq<Effect>
  {
    [ShowLoading(true), FetchRoute(request)]
  }

  /** `fetchValhallaDirections` turns the loading indicator on first, then makes
      exactly the one route request it is given; it dispatches nothing to the
      waypoint state and notifies no one. */
  lemma FetchValhallaDirectionsRequests(request: DirectionsRequest)
    ensures var effects := FetchValhallaDirections(request);
      |effects| >= 1 && effects[0] == ShowLoading(true)
      && NoDispatch(effects) && Warnings(effects) == 0
      && RouteRequests(effects) == [request]
  {
    TwoEffects(ShowLoading(true), FetchRoute(request));
  }

  /** `makeRequest()`: it always updates the permalink first and asks for a route,
      with every waypoint of the list (set or not), exactly when the list holds two
      or more waypoints. It dispatches nothing to the waypoint state and notifies
      no one. */
  function MakeRequest(s: State, env: Env): (effects: seq<Effect>)
    ensures |effects| >= 1 && effects[0] == UpdatePermalink
    ensures NoDispatch(effects) && Warnings(effects) == 0
    ensures RouteRequests(effects) ==
      if |s.waypoints| >= 2
      then [DirectionsRequest(env.profile, s.waypoints, env.filterProfileSettings(env.profile, env.settings))]
      else []
  {
    var request := DirectionsRequest(env.profile, s.waypoints, env.filterProfileSettings(env.profile, env.settings));
    var fetch := if |s.waypoints| >= 2 then FetchValhallaDirections(request) else [];
    var effects := [UpdatePermalink] + fetch;
    QuietHasNoWarnings(effects);
    RouteRequestsConcat([UpdatePermalink], fetch);
    FetchValhallaDirectionsRequests(request);
    effects
  }

  /** Two empty slots (both at 0,0) are enough for a routing request. */
  lemma MakeRequestCountsUnsetWaypoints(s: State, env: Env)
    requires s.waypoints == [EmptyWp, EmptyWp]
    ensures |RouteRequests(MakeRequest(s, env))| == 1
  {
  }

  /** `doRemoveWaypoint(index)`: without an index it clears the whole list; with
      more than two waypoints it removes the indexed one and asks for a new route
      (as `makeRequest` sees the list after the removal); otherwise it only empties
      the indexed slot. Every path ends by updating the permalink. */
  function DoRemoveWaypoint(s: State, index: Option<int>, env: Env): (effects: seq<Effect>)
    ensures |effects| >= 2 && effects[|effects| - 1] == UpdatePermalink
  {
    match index
    case None => [Dispatch(ClearWaypoints(None)), UpdatePermalink]
    case Some(k) =>
      if |s.waypoints| > 2 then
        [Dispatch(ClearWaypoints(Some(k)))] + MakeRequest(Apply(s, ClearWaypoints(Some(k))), env) + [UpdatePermalink]
      else
        [Dispatch(EmptyWaypoint(Some(k))), UpdatePermalink]
  }

  /** Removing without an index leaves no waypoint. */
  lemma RemoveWithoutIndexClearsAll(s: State, env: Env)
    ensures Run(s, DoRemoveWaypoint(s, None, env)).waypoints == []
  {
    var e := DoRemoveWaypoint(s, None, env);
    RunConcat(s, [e[0]], [UpdatePermalink]);
    assert e == [e[0]] + [UpdatePermalink];
    RunOne(s, ClearWaypoints(None));
    RunWithoutDispatch(Apply(s, ClearWaypoints(None)), [UpdatePermalink]);
  }

  /** With two waypoints or fewer, removing never shrinks the list: the indexed slot
      loses only its typed text and its candidates, and no route is requested. */
  lemma RemoveFromPairEmptiesSlot(s: State, k: int, env: Env)
    requires |s.waypoints| <= 2
    ensures var ws, r := s.waypoints, Run(s, DoRemoveWaypoint(s, Some(k), env)).waypoints;
      |r| == |ws|
      && (forall i :: 0 <= i < |ws| && i != k ==> r[i] == ws[i])
      && (0 <= k < |ws| ==> r[k] == ws[k].(userInput := Some(""), geocodeResults := Some([])))
      && RouteRequests(DoRemoveWaypoint(s, Some(k), env)) == []
  {
    var e := DoRemoveWaypoint(s, Some(k), env);
    assert e == [Dispatch(EmptyWaypoint(Some(k)))] + [UpdatePermalink];
    RunConcat(s, [Dispatch(EmptyWaypoint(Some(k)))], [UpdatePermalink]);
    RunOne(s, EmptyWaypoint(Some(k)));
    RunWithoutDispatch(Apply(s, EmptyWaypoint(Some(k))), [UpdatePermalink]);
    EmptyWaypointKeepsLocation(s, Some(k));
    assert RouteRequests(e) == RouteRequests(e[1..]);
  }

  /** With more than two waypoints, removing an existing position drops exactly that
      waypoint and asks for a route over the remaining ones. */
  lemma RemoveFromLongerListReroutes(s: State, k: nat, env: Env)
    requires |s.waypoints| > 2 && k < |s.waypoints|
    ensures var ws, e := s.waypoints, DoRemoveWaypoint(s, Some(k), env);
      var r := Run(s, e).waypoints;
      r == ws[..k] + ws[k + 1..]
      && RouteRequests(e) == [DirectionsRequest(env.profile, r, env.filterProfileSettings(env.profile, env.settings))]
  {
    var s1 := Apply(s, ClearWaypoints(Some(k)));
    var mr := MakeRequest(s1, env);
    assert DoRemoveWaypoint(s, Some(k), env) == [Dispatch(ClearWaypoints(Some(k)))] + (mr + [UpdatePermalink]);
    DispatchThenQuiet(s, ClearWaypoints(Some(k)), mr);
    ClearWaypointsRemovesIndex(s, k);
    assert |s1.waypoints| == |s.waypoints| - 1;
  }

  /** One dispatch followed by effects that dispatch nothing and a permalink update
      leaves the state the dispatch makes and asks for the routes of those effects. */
  lemma DispatchThenQuiet(s: State, a: Action, mr: seq<Effect>)
    requires NoDispatch(mr)
    ensures Run(s, [Dispatch(a)] + (mr + [UpdatePermalink])) == Apply(s, a)
    ensures RouteRequests([Dispatch(a)] + (mr + [UpdatePermalink])) == RouteRequests(mr)
  {
    QuietThenPermalink(Apply(s, a), mr);
    RunConcat(s, [Dispatch(a)], mr + [UpdatePermalink]);
    RunOne(s, a);
    RouteRequestsConcat([Dispatch(a)], mr + [UpdatePermalink]);
    OneEffect(Dispatch(a));
  }

  /** Removing at a position of 0 or more keeps a list of two or more waypoints at
      two or more. */
  lemma RemoveKeepsTwo(s: State, k: nat, env: Env)
    requires |s.waypoints| >= 2
    ensures |Run(s, DoRemoveWaypoint(s, Some(k), env)).waypoints| >= 2
  {
    if |s.waypoints| <= 2 {
      RemoveFromPairEmptiesSlot(s, k, env);
    } else if k < |s.waypoints| {
      RemoveFromLongerListReroutes(s, k, env);
    } else {
      var s1 := Apply(s, ClearWaypoints(Some(k)));
      var mr := MakeRequest(s1, env);
      var e := DoRemoveWaypoint(s, Some(k), env);
      assert e == [Dispatch(ClearWaypoints(Some(k)))] + (mr + [UpdatePermalink]);
      RunConcat(s, [Dispatch(ClearWaypoints(Some(k)))], mr + [UpdatePermalink]);
      RunOne(s, ClearWaypoints(Some(k)));
      assert NoDispatch(mr + [UpdatePermalink]);
      RunWithoutDispatch(s1, mr + [UpdatePermalink]);
      ClearWaypointsRemovesIndex(s, k);
    }
  }

  /** A negative index is not "no index": with three or more waypoints it empties
      the whole list. */
  lemma RemoveNegativeIndexClearsAll(s: State, env: Env)
    requires |s.waypoints| > 2
    ensures Run(s, DoRemoveWaypoint(s, Some(-1), env)).waypoints == []
  {
    var clear := [Dispatch(ClearWaypoints(Some(-1)))];
    var s1 := Apply(s, ClearWaypoints(Some(-1)));
    assert s1.waypoints == [] by {
      ClearWaypointsWithoutIndexEmpties(s, Some(-1));
    }
    var mr := MakeRequest(s1, env);
    var tail := mr + [UpdatePermalink];
    assert DoRemoveWaypoint(s, Some(-1), env) == clear + tail;
    RunOne(s, ClearWaypoints(Some(-1)));
    QuietThenPermalink(s1, mr);
    RunConcat(s, clear, tail);
  }

  // ---------------------------------------------------------------------------
  // Routing responses

  /** `serverMapping[VALHALLA_OSM_URL]` */
  const ServerName := "OSM"

  /** The routing engine's error code for "no route for this costing model". */
  const NoRouteForCosting := 154

  /** The body of a failed routing response: `error`, `error_code`, `status`. */
  datatype RouteFailure = RouteFailure(error: string, errorCode: Option<int>, status: string)

  /** The warning for a failed route: the server name, then the engine's error,
      then, for error code 154 only, the costing model the route was asked for. */
  function RouteErrorMessage(f: RouteFailure, costing: string): (m: Message)
    ensures m.kind == "warning" && m.icon == "warning" && m.title == f.status
    ensures f.errorCode == Some(NoRouteForCosting) ==>
      m.description == ServerName + ": " + f.error + " for " + costing + "."
    ensures f.errorCode != Some(NoRouteForCosting) ==> m.description == ServerName + ": " + f.error
  {
    var errorMsg := if f.errorCode == Some(NoRouteForCosting) then f.error + " for " + costing + "." else f.error;
    Message("warning", "warning", ServerName + ": " + errorMsg, f.status)
  }

  /** A 154 failure for the bicycle profile says so at the end of its text. */
  lemma BicycleFailureNamesCosting(error: string, status: string)
    ensures var d := RouteErrorMessage(RouteFailure(error, Some(154), status), "bicycle").description;
      |d| >= 13 && d[|d| - 13..] == " for bicycle."
  {
    var d := RouteErrorMessage(RouteFailure(error, Some(154), status), "bicycle").description;
    assert d == (ServerName + ": " + error) + " for bicycle.";
  }

  /** The `.catch` callback of the route request. A rejection without a `response`
      throws inside the callback before it dispatches anything. */
  function OnRouteFailure(response: Option<RouteFailure>, costing: string): (effects: seq<Effect>)
    ensures effects == [] <==> response.None?
    ensures response.Some? ==>
      effects[0] == Dispatch(ClearRoutes(ValhallaOsmUrl))
      && Notify(RouteErrorMessage(response.value, costing)) in effects
    ensures RouteRequests(effects) == []
  {
    match response
    case None => []
    case Some(f) =>
      TwoEffects(Dispatch(ClearRoutes(ValhallaOsmUrl)), Notify(RouteErrorMessage(f, costing)));
      [Dispatch(ClearRoutes(ValhallaOsmUrl)), Notify(RouteErrorMessage(f, costing))]
  }

  /** A failed route empties the provider's route, marks the route unsuccessful and
      leaves the waypoints, with exactly one warning. */
  lemma RouteFailureClearsAndWarns(s: State, f: RouteFailure, costing: string)
    ensures var e := OnRouteFailure(Some(f), costing);
      var r := Run(s, e);
      Warnings(e) == 1 && !r.successful
      && ValhallaOsmUrl in r.results && r.results[ValhallaOsmUrl].data == Some(EmptyData)
      && r.waypoints == s.waypoints
  {
    var e := OnRouteFailure(Some(f), costing);
    assert e == [Dispatch(ClearRoutes(ValhallaOsmUrl))] + [Notify(RouteErrorMessage(f, costing))];
    RunConcat(s, [Dispatch(ClearRoutes(ValhallaOsmUrl))], [Notify(RouteErrorMessage(f, costing))]);
    RunOne(s, ClearRoutes(ValhallaOsmUrl));
    RunWithoutDispatch(Apply(s, ClearRoutes(ValhallaOsmUrl)), [Notify(RouteErrorMessage(f, costing))]);
    WarningsConcat([Dispatch(ClearRoutes(ValhallaOsmUrl))], [Notify(RouteErrorMessage(f, costing))]);
    ClearRoutesEmpties(s, ValhallaOsmUrl);
  }

  /** The `.then` callback of the route request; `decoded` is what
      `parseDirectionsGeometry` makes of the response. */
  function OnRouteSuccess(response: Payload, decoded: seq<LatLng>): (effects: seq<Effect>)
    ensures |effects| >= 1 && effects[|effects| - 1] == ZoomTo(decoded)
    ensures Warnings(effects) == 0 && RouteRequests(effects) == []
    ensures forall i :: 0 <= i < |effects| && effects[i].Dispatch? ==>
      effects[i].action == ReceiveRouteResults(ValhallaOsmUrl, Route(response, decoded))
  {
    TwoEffects(Dispatch(ReceiveRouteResults(ValhallaOsmUrl, Route(response, decoded))), ZoomTo(decoded));
    [Dispatch(ReceiveRouteResults(ValhallaOsmUrl, Route(response, decoded))), ZoomTo(decoded)]
  }

  /** A route response is stored for the provider, marks success and fits the map to
      the decoded route; the waypoints stay. */
  lemma RouteSuccessStores(s: State, response: Payload, decoded: seq<LatLng>)
    ensures var e := OnRouteSuccess(response, decoded);
      var r := Run(s, e);
      r.successful && ValhallaOsmUrl in r.results
      && r.results[ValhallaOsmUrl].data == Some(Route(response, decoded))
      && r.waypoints == s.waypoints && e[|e| - 1] == ZoomTo(decoded)
  {
    var a := ReceiveRouteResults(ValhallaOsmUrl, Route(response, decoded));
    var e := OnRouteSuccess(response, decoded);
    assert e == [Dispatch(a)] + [ZoomTo(decoded)];
    RunConcat(s, [Dispatch(a)], [ZoomTo(decoded)]);
    RunOne(s, a);
    RunWithoutDispatch(Apply(s, a), [ZoomTo(decoded)]);
    ReceiveRouteResultsStores(s, ValhallaOsmUrl, Route(response, decoded));
  }

  // ---------------------------------------------------------------------------
  // Geocoding

  /** The notification for a lookup without results. */
  const NoAddresses := Message("warning", "warning", "Sorry, no addresses can be found.", "No addresses")

  /** The waypoint written for a selected result: the result's properties and its
      label as the input text. Without a result, `{...undefined, inputValue:
      undefined}` is an object without properties. */
  function SelectedWaypoint(places: seq<Place>): (w: Waypoint)
    ensures |places| == 0 ==> w == Blank
    ensures |places| > 0 ==>
      w.x == places[0].x && w.y == places[0].y && w.labelText == places[0].labelText
      && w.bounds == places[0].bounds && w.raw == Some(places[0].raw)
      && w.inputValue == places[0].labelText
      && w.isFetching.None? && w.results.None? && w.geocodeResults.None?
  {
    if |places| == 0 then Blank
    else
      var p := places[0];
      Waypoint(p.x, p.y, p.labelText, Some(p.raw), None, p.bounds, p.labelText, None, None, None)
  }

  /** The effects of `processGeocodeResponse` before it asks for a route. */
  function GeocodeResponseHead(places: seq<Place>, index: Option<int>, init: bool): (head: seq<Effect>)
    ensures |head| >= 1 && head[|head| - 1] == Dispatch(ReceiveGeocodeResults(index, places))
    ensures head[0].Notify? <==> |places| == 0
    ensures Dispatch(UpdateWaypoint(index, SelectedWaypoint(places))) in head <==> init
  {
    (if |places| == 0 then [Notify(NoAddresses)] else [])
    + (if init then [Dispatch(UpdateWaypoint(index, SelectedWaypoint(places)))] else [])
    + [Dispatch(ReceiveGeocodeResults(index, places))]
  }

  /** `processGeocodeResponse(resp, index, reverse, init, permaLast)`: warn when there
      is no result, write the first result into the slot when `init` is truthy,
      store the results in the slot, and, for a reverse lookup whose `permaLast` is
      missing or true, ask for a route and update the permalink. */
  function ProcessGeocodeResponse(s: State, env: Env, resp: GeocodeResponse, index: Option<int>,
                                  reverse: bool, init: bool, permaLast: Option<bool>): (e: seq<Effect>)
    ensures var head := GeocodeResponseHead(ParseGeocodeResponse(resp), index, init);
      |e| >= |head| && e[..|head|] == head
      && (|e| > |head| <==> reverse && (permaLast.None? || permaLast.value))
  {
    var head := GeocodeResponseHead(ParseGeocodeResponse(resp), index, init);
    if reverse && (permaLast.None? || permaLast.value)
    then head + MakeRequest(Run(s, head), env) + [UpdatePermalink]
    else head
  }

  /** A geocoding response warns exactly once when it has no result and never otherwise. */
  lemma GeocodeResponseWarnsIffEmpty(s: State, env: Env, resp: GeocodeResponse, index: Option<int>,
                                     reverse: bool, init: bool, permaLast: Option<bool>)
    ensures Warnings(ProcessGeocodeResponse(s, env, resp, index, reverse, init, permaLast))
            == if |resp.features| == 0 then 1 else 0
  {
    var places := ParseGeocodeResponse(resp);
    var warn := if |places| == 0 then [Notify(NoAddresses)] else [];
    var update := if init then [Dispatch(UpdateWaypoint(index, SelectedWaypoint(places)))] else [];
    var receive := [Dispatch(ReceiveGeocodeResults(index, places))];
    var head := GeocodeResponseHead(places, index, init);
    WarningsConcat(warn + update, receive);
    WarningsConcat(warn, update);
    assert Warnings(update) == 0;
    assert Warnings(receive) == 0;
    if reverse && (permaLast.None? || permaLast.value) {
      var mr := MakeRequest(Run(s, head), env);
      WarningsConcat(head + mr, [UpdatePermalink]);
      WarningsConcat(head, mr);
    }
  }

  /** The state after the first part of a response: with `init`, the slot holds the
      first result with its label as input text; in every case it holds all the
      results and is no longer fetching. Other slots, the list's length and every
      other part of the state stay. */
  lemma GeocodeHeadFillsSlot(s: State, places: seq<Place>, k: nat, init: bool)
    requires k < |s.waypoints|
    ensures var ws, r := s.waypoints, Run(s, GeocodeResponseHead(places, Some(k), init));
      r == s.(waypoints := r.waypoints) && |r.waypoints| == |ws|
      && (forall i :: 0 <= i < |ws| && i != k ==> r.waypoints[i] == ws[i])
      && r.waypoints[k].results == Some(places) && r.waypoints[k].isFetching == Some(false)
      && (init ==> r.waypoints[k] == SelectedWaypoint(places).(isFetching := Some(false), results := Some(places)))
      && (!init ==> r.waypoints[k] == ws[k].(isFetching := Some(false), results := Some(places)))
  {
    var warn := if |places| == 0 then [Notify(NoAddresses)] else [];
    var update := if init then [Dispatch(UpdateWaypoint(Some(k), SelectedWaypoint(places)))] else [];
    var receive := [Dispatch(ReceiveGeocodeResults(Some(k), places))];
    RunConcat(s, warn + update, receive);
    RunConcat(s, warn, update);
    RunWithoutDispatch(s, warn);
    var s1 := Run(s, update);
    if init {
      RunOne(s, UpdateWaypoint(Some(k), SelectedWaypoint(places)));
      UpdateWaypointReplacesEntry(s, Some(k), SelectedWaypoint(places));
    }
    RunOne(s1, ReceiveGeocodeResults(Some(k), places));
    ReceiveGeocodeFillsSlot(s1, Some(k), places);
  }

  /** Effects without a dispatch, followed by a permalink update, leave the state
      and add no route request. */
  lemma QuietThenPermalink(t: State, effects: seq<Effect>)
    requires NoDispatch(effects)
    ensures Run(t, effects + [UpdatePermalink]) == t
    ensures RouteRequests(effects + [UpdatePermalink]) == RouteRequests(effects)
  {
    var tail := effects + [UpdatePermalink];
    assert NoDispatch(tail) by {
      assert forall i :: 0 <= i < |effects| ==> tail[i] == effects[i];
    }
    RunWithoutDispatch(t, tail);
    RouteRequestsConcat(effects, [UpdatePermalink]);
    OneEffect(UpdatePermalink);
  }

  /** Asking for a route and updating the permalink after `head` changes no reducer
      state, ends with the permalink update and adds the one route request
      `makeRequest` makes. */
  lemma RouteAfter(s: State, head: seq<Effect>, env: Env)
    ensures var mr := MakeRequest(Run(s, head), env);
      var e := head + mr + [UpdatePermalink];
      Run(s, e) == Run(s, head) && e[|e| - 1] == UpdatePermalink
      && RouteRequests(e) == RouteRequests(head) + RouteRequests(mr)
  {
    var t := Run(s, head);
    var mr := MakeRequest(t, env);
    var tail := mr + [UpdatePermalink];
    assert head + mr + [UpdatePermalink] == head + tail;
    QuietThenPermalink(t, mr);
    RunConcat(s, head, tail);
    RouteRequestsConcat(head, tail);
  }

  /** The first part of a response asks for no route. */
  lemma HeadRequestsNoRoute(places: seq<Place>, index: Option<int>, init: bool)
    ensures RouteRequests(GeocodeResponseHead(places, index, init)) == []
  {
    var warn := if |places| == 0 then [Notify(NoAddresses)] else [];
    var update := if init then [Dispatch(UpdateWaypoint(index, SelectedWaypoint(places)))] else [];
    var receive := [Dispatch(ReceiveGeocodeResults(index, places))];
    RouteRequestsConcat(warn + update, receive);
    RouteRequestsConcat(warn, update);
  }

  /** Whether `processGeocodeResponse` goes on to ask for a route. */
  predicate Reroutes(reverse: bool, permaLast: Option<bool>)
  {
    reverse && (permaLast.None? || permaLast.value)
  }

  /** A response changes the reducer state only through its first part; a reverse
      lookup whose `permaLast` is missing or true ends with the route request of
      `makeRequest` on that state and a permalink update, any other asks for no route. */
  lemma GeocodeResponseRoutes(s: State, env: Env, resp: GeocodeResponse, index: Option<int>,
                              reverse: bool, init: bool, permaLast: Option<bool>)
    ensures var head := GeocodeResponseHead(ParseGeocodeResponse(resp), index, init);
      var e := ProcessGeocodeResponse(s, env, resp, index, reverse, init, permaLast);
      Run(s, e) == Run(s, head)
      && (Reroutes(reverse, permaLast) ==>
            e[|e| - 1] == UpdatePermalink && RouteRequests(e) == RouteRequests(MakeRequest(Run(s, head), env)))
      && (!Reroutes(reverse, permaLast) ==> RouteRequests(e) == [])
  {
    var head := GeocodeResponseHead(ParseGeocodeResponse(resp), index, init);
    HeadRequestsNoRoute(ParseGeocodeResponse(resp), index, init);
    if Reroutes(reverse, permaLast) {
      RouteAfter(s, head, env);
    }
  }

  /** A response for an existing slot fills that slot (see `GeocodeHeadFillsSlot`)
      and, for a reverse lookup whose `permaLast` is missing or true, ends by asking
      for a route over the updated list (when it holds two or more waypoints) and
      updating the permalink; any other response asks for no route. */
  lemma GeocodeResponseReroutes(s: State, env: Env, resp: GeocodeResponse, k: nat,
                                reverse: bool, init: bool, permaLast: Option<bool>)
    requires k < |s.waypoints|
    ensures var places := ParseGeocodeResponse(resp);
      var e := ProcessGeocodeResponse(s, env, resp, Some(k), reverse, init, permaLast);
      var head := GeocodeResponseHead(places, Some(k), init);
      Run(s, e) == Run(s, head)
      && (Reroutes(reverse, permaLast) ==>
            e[|e| - 1] == UpdatePermalink
            && RouteRequests(e) ==
               if |s.waypoints| >= 2
               then [DirectionsRequest(env.profile, Run(s, head).waypoints, env.filterProfileSettings(env.profile, env.settings))]
               else [])
      && (!Reroutes(reverse, permaLast) ==> RouteRequests(e) == [])
  {
    GeocodeHeadFillsSlot(s, ParseGeocodeResponse(resp), k, init);
    GeocodeResponseRoutes(s, env, resp, Some(k), reverse, init, permaLast);
  }

  /** `fetchReverseGeocode({index, latLng: {lat, lng}}, init)`: nothing when both
      coordinates are falsy; otherwise the slot is marked as fetching and, when
      both are truthy, the reverse lookup is made. */
  function FetchReverseGeocode(index: Option<int>, lat: Scalar, lng: Scalar, init: bool): (effects: seq<Effect>)
    ensures effects == [] <==> !Truthy(lat) && !Truthy(lng)
  {
    if !Truthy(lat) && !Truthy(lng) then []
    else
      [Dispatch(RequestGeocodeResults(index))]
      + match ReverseGeocode(lat, lng)
        case Some(params) => [ReverseLookup(params, index, init)]
        case None => []
  }

  /** The `.then` callback of a reverse lookup. It never passes `permaLast` on. */
  function OnReverseResponse(s: State, env: Env, resp: GeocodeResponse, index: Option<int>, init: bool): (e: seq<Effect>)
    ensures var head := GeocodeResponseHead(ParseGeocodeResponse(resp), index, init);
      |e| > |head| && e[..|head|] == head && e[|e| - 1] == UpdatePermalink
  {
    ProcessGeocodeResponse(s, env, resp, index, true, init, None)
  }

  /** The first part of a response keeps the list's length unless it writes a
      selected result past the end. */
  lemma HeadKeepsLength(s: State, places: seq<Place>, index: Option<int>, init: bool)
    requires index.None? || index.value < |s.waypoints|
    ensures |Run(s, GeocodeResponseHead(places, index, init)).waypoints| == |s.waypoints|
  {
    var warn := if |places| == 0 then [Notify(NoAddresses)] else [];
    var update := if init then [Dispatch(UpdateWaypoint(index, SelectedWaypoint(places)))] else [];
    var receive := [Dispatch(ReceiveGeocodeResults(index, places))];
    RunConcat(s, warn + update, receive);
    RunConcat(s, warn, update);
    RunWithoutDispatch(s, warn);
    if init {
      RunOne(s, UpdateWaypoint(index, SelectedWaypoint(places)));
      UpdateWaypointReplacesEntry(s, index, SelectedWaypoint(places));
    }
    var s1 := Run(s, update);
    RunOne(s1, ReceiveGeocodeResults(index, places));
    ReceiveGeocodeFillsSlot(s1, index, places);
  }

  /** Every reverse-lookup response ends by asking for a route (given two or more
      waypoints) and updating the permalink, whatever `permaLast` the lookup was
      started with, and also when the lookup has no slot index. */
  lemma ReverseResponseAlwaysReroutes(s: State, env: Env, resp: GeocodeResponse, index: Option<int>, init: bool)
    requires index.None? || index.value < |s.waypoints|
    ensures var e := OnReverseResponse(s, env, resp, index, init);
      e[|e| - 1] == UpdatePermalink && (|RouteRequests(e)| == 1 <==> |s.waypoints| >= 2)
  {
    HeadKeepsLength(s, ParseGeocodeResponse(resp), index, init);
    GeocodeResponseRoutes(s, env, resp, index, true, init, None);
  }

  /** When exactly one coordinate is truthy the slot is marked as fetching but no
      lookup is made, so nothing ever clears the flag again. */
  lemma ReverseWithOneCoordinateStaysFetching(s: State, k: nat, lat: Scalar, lng: Scalar, init: bool)
    requires k < |s.waypoints| && Truthy(lat) != Truthy(lng)
    ensures var e := FetchReverseGeocode(Some(k), lat, lng, init);
      e == [Dispatch(RequestGeocodeResults(Some(k)))]
      && |Run(s, e).waypoints| == |s.waypoints| && Run(s, e).waypoints[k].isFetching == Some(true)
  {
    RunOne(s, RequestGeocodeResults(Some(k)));
    RequestGeocodeMarksSlot(s, Some(k));
  }

  /** `fetchReverseGeocodePerma({index, latLng, permaLast}, init)`: mark the slot as
      fetching, add a slot before the last one when the index is above 1, then
      start the reverse lookup. `permaLast` goes no further. */
  function FetchReverseGeocodePerma(index: Option<int>, lat: Scalar, lng: Scalar,
                                    permaLast: Option<bool>, init: bool): (e: seq<Effect>)
    ensures var f := FetchReverseGeocode(index, lat, lng, init);
      |e| > |f| && e[0] == Dispatch(RequestGeocodeResults(index)) && e[|e| - |f|..] == f
  {
    [Dispatch(RequestGeocodeResults(index))]
    + (if index.Some? && index.value > 1 then DoAddWaypoint(true) else [])
    + FetchReverseGeocode(index, lat, lng, init)
  }

  /** The number of dispatched insertions among `effects`. */
  function Insertions(effects: seq<Effect>): nat
  {
    if |effects| == 0 then 0
    else (if effects[0].Dispatch? && effects[0].action.InsertWaypoint? then 1 else 0) + Insertions(effects[1..])
  }

  /** Insertions of two lists add up. */
  lemma {:induction false} InsertionsConcat(e1: seq<Effect>, e2: seq<Effect>)
    ensures Insertions(e1 + e2) == Insertions(e1) + Insertions(e2)
    decreases |e1|
  {
    if |e1| > 0 {
      assert (e1 + e2)[0] == e1[0];
      assert (e1 + e2)[1..] == e1[1..] + e2;
      InsertionsConcat(e1[1..], e2);
    } else {
      assert e1 + e2 == e2;
    }
  }

  /** A permalink lookup inserts one new slot exactly when its index is above 1, and
      what it does does not depend on `permaLast`. */
  lemma PermaInsertsAboveOne(index: Option<int>, lat: Scalar, lng: Scalar, p1: Option<bool>, p2: Option<bool>, init: bool)
    ensures Insertions(FetchReverseGeocodePerma(index, lat, lng, p1, init))
            == if index.Some? && index.value > 1 then 1 else 0
    ensures FetchReverseGeocodePerma(index, lat, lng, p1, init) == FetchReverseGeocodePerma(index, lat, lng, p2, init)
  {
    var first := [Dispatch(RequestGeocodeResults(index))];
    var add := if index.Some? && index.value > 1 then DoAddWaypoint(true) else [];
    var fetch := FetchReverseGeocode(index, lat, lng, init);
    assert FetchReverseGeocodePerma(index, lat, lng, p1, init) == first + add + fetch;
    InsertionsConcat(first + add, fetch);
    InsertionsConcat(first, add);
    OneEffect(first[0]);
    if add != [] {
      OneEffect(add[0]);
    }
    ReverseInsertsNothing(index, lat, lng, init);
  }

  /** A reverse lookup inserts no slot. */
  lemma ReverseInsertsNothing(index: Option<int>, lat: Scalar, lng: Scalar, init: bool)
    ensures Insertions(FetchReverseGeocode(index, lat, lng, init)) == 0
  {
    var fetch := FetchReverseGeocode(index, lat, lng, init);
    if fetch != [] {
      var rest := fetch[1..];
      assert fetch == [fetch[0]] + rest;
      InsertionsConcat([fetch[0]], rest);
      OneEffect(fetch[0]);
      if rest != [] {
        assert rest == [rest[0]] && rest[0].ReverseLookup?;
        OneEffect(rest[0]);
      }
    }
  }

  /** A slot index as an `init` argument: truthy unless missing or 0. */
  function IndexTruthy(index: Option<int>): bool
  {
    index.Some? && index.value != 0
  }

  /** The forward-search branch of `fetchSearchGeocode`: nothing for empty text,
      otherwise mark the slot as fetching and search for the text. */
  function SearchText(index: Option<int>, inputValue: string): (e: seq<Effect>)
    ensures e == [] <==> inputValue == ""
    ensures e != [] ==>
      e == [Dispatch(RequestGeocodeResults(index)), SearchLookup(SearchParams(inputValue, ResultSize), index)]
  {
    match SearchGeocode(inputValue)
    case None => []
    case Some(params) => [Dispatch(RequestGeocodeResults(index)), SearchLookup(params, index)]
  }

  /** The latitude and longitude texts `[lat, lng] = inputValue.split(',')` gives. */
  function SplitLatLng(inputValue: string): (Scalar, Scalar)
  {
    var parts := Split(inputValue, ',');
    (Text(parts[0]), if |parts| > 1 then Text(parts[1]) else Undefined)
  }

  /** Coordinate text gives two truthy texts: the parts before and after its comma. */
  lemma SplitLatLngParts(inputValue: string)
    requires CheckIfValidLatLng(inputValue)
    ensures var i := CommaIndex(inputValue, 0);
      i < |inputValue|
      && SplitLatLng(inputValue) == (Text(inputValue[..i]), Text(inputValue[i + 1..]))
      && Truthy(SplitLatLng(inputValue).0) && Truthy(SplitLatLng(inputValue).1)
  {
    LatLngSplits(inputValue);
  }

  /** `fetchSearchGeocode({index, inputValue})` as written: coordinate text starts a
      reverse lookup, but the call passes the slot index as `init` and leaves the
      lookup's own index `undefined`. */
  function FetchSearchGeocode(index: Option<int>, inputValue: string): (e: seq<Effect>)
    ensures CheckIfValidLatLng(inputValue) ==>
      |e| <= 2 && (|e| >= 1 ==> e[0] == Dispatch(RequestGeocodeResults(None)))
      && (|e| == 2 ==> e[1].ReverseLookup? && e[1].slot.None? && e[1].init == IndexTruthy(index))
    ensures !CheckIfValidLatLng(inputValue) ==>
      (e == [] <==> inputValue == "")
      && (e != [] ==> |e| == 2 && e[0] == Dispatch(RequestGeocodeResults(index)) && e[1].SearchLookup?)
  {
    if CheckIfValidLatLng(inputValue) then
      var (lat, lng) := SplitLatLng(inputValue);
      FetchReverseGeocode(None, lat, lng, IndexTruthy(index))
    else SearchText(index, inputValue)
  }

  /** `fetchSearchGeocode` with the slot index passed in the lookup's object, the
      way `fetchReverseGeocodePerma` passes it; `init` stays what the source passes,
      the index taken as a truth value. */
  function FetchSearchGeocodeCorrected(index: Option<int>, inputValue: string): (e: seq<Effect>)
    ensures CheckIfValidLatLng(inputValue) ==>
      |e| <= 2 && (|e| >= 1 ==> e[0] == Dispatch(RequestGeocodeResults(index)))
      && (|e| == 2 ==> e[1].ReverseLookup? && e[1].slot == index && e[1].init == IndexTruthy(index))
    ensures !CheckIfValidLatLng(inputValue) ==>
      (e == [] <==> inputValue == "")
      && (e != [] ==> |e| == 2 && e[0] == Dispatch(RequestGeocodeResults(index)) && e[1].SearchLookup?)
  {
    if CheckIfValidLatLng(inputValue) then
      var (lat, lng) := SplitLatLng(inputValue);
      FetchReverseGeocode(index, lat, lng, IndexTruthy(index))
    else SearchText(index, inputValue)
  }

  /** The `.then` callback of a forward search. */
  function OnSearchResponse(s: State, env: Env, resp: GeocodeResponse, index: Option<int>): (e: seq<Effect>)
    ensures Warnings(e) == if |resp.features| == 0 then 1 else 0
    ensures RouteRequests(e) == []
  {
    GeocodeResponseWarnsIffEmpty(s, env, resp, index, false, false, None);
    GeocodeResponseRoutes(s, env, resp, index, false, false, None);
    ProcessGeocodeResponse(s, env, resp, index, false, false, None)
  }

  /** A forward-search response for an existing slot stores the results in that
      slot, clears its fetching flag and writes no selection into it (the search
      passes `init` false); other slots stay, and no route is requested. */
  lemma SearchResponseStoresCandidates(s: State, env: Env, resp: GeocodeResponse, k: nat)
    requires k < |s.waypoints|
    ensures var ws, r := s.waypoints, Run(s, OnSearchResponse(s, env, resp, Some(k)));
      r == s.(waypoints := r.waypoints) && |r.waypoints| == |ws|
      && r.waypoints[k] == ws[k].(isFetching := Some(false), results := Some(ParseGeocodeResponse(resp)))
      && (forall i :: 0 <= i < |ws| && i != k ==> r.waypoints[i] == ws[i])
      && RouteRequests(OnSearchResponse(s, env, resp, Some(k))) == []
  {
    GeocodeHeadFillsSlot(s, ParseGeocodeResponse(resp), k, false);
    GeocodeResponseRoutes(s, env, resp, Some(k), false, false, None);
  }

  /** Empty search text starts nothing. */
  lemma EmptySearchDoesNothing(index: Option<int>)
    ensures FetchSearchGeocode(index, "") == [] && FetchSearchGeocodeCorrected(index, "") == []
  {
  }

  /** Non-coordinate text is searched for in its slot, asking for five results. */
  lemma SearchTextLooksUp(index: Option<int>, inputValue: string)
    requires inputValue != "" && !CheckIfValidLatLng(inputValue)
    ensures FetchSearchGeocode(index, inputValue)
            == [Dispatch(RequestGeocodeResults(index)), SearchLookup(SearchParams(inputValue, ResultSize), index)]
  {
  }

  /** Coordinate text always starts a reverse lookup of its two parts. */
  lemma CoordinateTextLooksUp(index: Option<int>, inputValue: string)
    requires CheckIfValidLatLng(inputValue)
    ensures var e := FetchSearchGeocode(index, inputValue);
      var i := CommaIndex(inputValue, 0);
      |e| == 2 && e[1] == ReverseLookup(ReverseParams(Text(inputValue[..i]), Text(inputValue[i + 1..]), ResultSize), None, IndexTruthy(index))
  {
    SplitLatLngParts(inputValue);
    var (lat, lng) := SplitLatLng(inputValue);
    assert FetchSearchGeocode(index, inputValue) == FetchReverseGeocode(None, lat, lng, IndexTruthy(index));
  }

  /** A lookup started without a slot index marks no slot as fetching. */
  lemma RequestWithoutSlotKeepsWaypoints(s: State, rest: seq<Effect>)
    requires NoDispatch(rest)
    ensures Run(s, [Dispatch(RequestGeocodeResults(None))] + rest).waypoints == s.waypoints
  {
    RunConcat(s, [Dispatch(RequestGeocodeResults(None))], rest);
    RunOne(s, RequestGeocodeResults(None));
    RequestGeocodeMarksSlot(s, None);
    RunWithoutDispatch(Apply(s, RequestGeocodeResults(None)), rest);
  }

  /** A response without a slot index writes no waypoint, whatever it holds. */
  lemma ResponseWithoutSlotKeepsWaypoints(s: State, env: Env, resp: GeocodeResponse,
                                          reverse: bool, init: bool, permaLast: Option<bool>)
    ensures Run(s, ProcessGeocodeResponse(s, env, resp, None, reverse, init, permaLast)).waypoints == s.waypoints
  {
    var places := ParseGeocodeResponse(resp);
    var warn := if |places| == 0 then [Notify(NoAddresses)] else [];
    var update := if init then [Dispatch(UpdateWaypoint(None, SelectedWaypoint(places)))] else [];
    var receive := [Dispatch(ReceiveGeocodeResults(None, places))];
    RunConcat(s, warn + update, receive);
    RunConcat(s, warn, update);
    RunWithoutDispatch(s, warn);
    if init {
      RunOne(s, UpdateWaypoint(None, SelectedWaypoint(places)));
      UpdateWaypointReplacesEntry(s, None, SelectedWaypoint(places));
    }
    var s1 := Run(s, update);
    RunOne(s1, ReceiveGeocodeResults(None, places));
    ReceiveGeocodeFillsSlot(s1, None, places);
    GeocodeResponseRoutes(s, env, resp, None, reverse, init, permaLast);
  }

  /** As written, a lookup for typed coordinates changes no waypoint: the request,
      the first result and the results all go to an `undefined` index. */
  lemma TypedCoordinatesNeverReachSlot(s: State, env: Env, index: Option<int>, inputValue: string, resp: GeocodeResponse)
    requires CheckIfValidLatLng(inputValue)
    ensures var e := FetchSearchGeocode(index, inputValue);
      |e| == 2 && e[1].ReverseLookup? && e[1].slot == None
      && Run(s, e).waypoints == s.waypoints
      && Run(Run(s, e), OnReverseResponse(Run(s, e), env, resp, e[1].slot, e[1].init)).waypoints == s.waypoints
  {
    CoordinateTextLooksUp(index, inputValue);
    var e := FetchSearchGeocode(index, inputValue);
    assert e == [Dispatch(RequestGeocodeResults(None))] + [e[1]];
    RequestWithoutSlotKeepsWaypoints(s, [e[1]]);
    ResponseWithoutSlotKeepsWaypoints(Run(s, e), env, resp, true, e[1].init, None);
  }

  /** Corrected, the lookup for typed coordinates marks its own slot as fetching and
      its response stores the results in that slot; in any slot but the first, the
      first result also becomes the waypoint. */
  lemma TypedCoordinatesReachSlot(s: State, env: Env, k: nat, inputValue: string, resp: GeocodeResponse)
    requires CheckIfValidLatLng(inputValue) && k < |s.waypoints|
    ensures var e := FetchSearchGeocodeCorrected(Some(k), inputValue);
      |e| == 2 && e[1].ReverseLookup? && e[1].slot == Some(k)
      && |Run(s, e).waypoints| == |s.waypoints| && Run(s, e).waypoints[k].isFetching == Some(true)
      && var r := Run(Run(s, e), OnReverseResponse(Run(s, e), env, resp, e[1].slot, e[1].init));
         var places := ParseGeocodeResponse(resp);
         |r.waypoints| == |s.waypoints|
         && r.waypoints[k].results == Some(places) && r.waypoints[k].isFetching == Some(false)
         && (k > 0 ==> r.waypoints[k] == SelectedWaypoint(places).(isFetching := Some(false), results := Some(places)))
         && (k == 0 ==> r.waypoints[k] == s.waypoints[k].(isFetching := Some(false), results := Some(places)))
  {
    var e := FetchSearchGeocodeCorrected(Some(k), inputValue);
    CorrectedLookupShape(k, inputValue);
    var s1 := Apply(s, RequestGeocodeResults(Some(k)));
    assert Run(s, e) == s1 by {
      assert e == [e[0]] + [e[1]];
      RunConcat(s, [e[0]], [e[1]]);
      RunOne(s, RequestGeocodeResults(Some(k)));
      RunWithoutDispatch(s1, [e[1]]);
    }
    RequestGeocodeMarksSlot(s, Some(k));
    ReverseResponseFillsSlot(s1, env, resp, k);
  }

  /** Corrected, coordinate text typed into slot `k` marks that slot and starts one
      reverse lookup for it, with the slot index as `init`. */
  lemma CorrectedLookupShape(k: nat, inputValue: string)
    requires CheckIfValidLatLng(inputValue)
    ensures var e := FetchSearchGeocodeCorrected(Some(k), inputValue);
      |e| == 2 && e[0] == Dispatch(RequestGeocodeResults(Some(k)))
      && e[1].ReverseLookup? && e[1].slot == Some(k) && e[1].init == (k != 0)
  {
    SplitLatLngParts(inputValue);
    var (lat, lng) := SplitLatLng(inputValue);
    assert FetchSearchGeocodeCorrected(Some(k), inputValue) == FetchReverseGeocode(Some(k), lat, lng, k != 0);
  }

  /** A reverse response for an existing slot, with the slot index as `init`, stores
      the results there; in any slot but the first it also writes the first result. */
  lemma ReverseResponseFillsSlot(s1: State, env: Env, resp: GeocodeResponse, k: nat)
    requires k < |s1.waypoints|
    ensures var r := Run(s1, OnReverseResponse(s1, env, resp, Some(k), k != 0));
      var places := ParseGeocodeResponse(resp);
      |r.waypoints| == |s1.waypoints|
      && r.waypoints[k].results == Some(places) && r.waypoints[k].isFetching == Some(false)
      && (k > 0 ==> r.waypoints[k] == SelectedWaypoint(places).(isFetching := Some(false), results := Some(places)))
      && (k == 0 ==> r.waypoints[k] == s1.waypoints[k].(isFetching := Some(false), results := Some(places)))
  {
    GeocodeResponseRoutes(s1, env, resp, Some(k), true, k != 0, None);
    GeocodeHeadFillsSlot(s1, ParseGeocodeResponse(resp), k, k != 0);
  }

  // ---------------------------------------------------------------------------
  // Candidates and routes

  /** `isWaypoint(index)`: clear the route when the slot has candidates. It throws
      when there is no such slot or the slot has no `geocodeResults` property. */
  function IsWaypoint(s: State, index: int): (r: Result<seq<Effect>>)
    ensures r.Ok? <==> 0 <= index < |s.waypoints| && s.waypoints[index].geocodeResults.Some?
    ensures r.Ok? ==> (r.value == [Dispatch(ClearRoutes(ValhallaOsmUrl))] <==> |s.waypoints[index].geocodeResults.value| > 0)
    ensures r.Ok? ==> (r.value == [] <==> |s.waypoints[index].geocodeResults.value| == 0)
  {
    if !(0 <= index < |s.waypoints|) then Thrown("Cannot read properties of undefined (reading 'geocodeResults')")
    else
      match s.waypoints[index].geocodeResults
      case None => Thrown("Cannot read properties of undefined (reading 'length')")
      case Some(candidates) => Ok(if |candidates| > 0 then [Dispatch(ClearRoutes(ValhallaOsmUrl))] else [])
  }

  /** Every dispatch among `effects` keeps `NoCandidates`. */
  ghost predicate DispatchesNoCandidates(effects: seq<Effect>)
  {
    forall i :: 0 <= i < |effects| && effects[i].Dispatch? ==> PayloadHasNoCandidates(effects[i].action)
  }

  /** Replaying effects whose dispatches bring in no candidates keeps every
      candidate list missing or empty. */
  lemma {:induction false} RunKeepsNoCandidates(s: State, effects: seq<Effect>)
    requires NoCandidates(s.waypoints) && DispatchesNoCandidates(effects)
    ensures NoCandidates(Run(s, effects).waypoints)
    decreases |effects|
  {
    if |effects| > 0 {
      var next := if effects[0].Dispatch? then Apply(s, effects[0].action) else s;
      if effects[0].Dispatch? {
        ApplyKeepsNoCandidates(s, effects[0].action);
      }
      assert DispatchesNoCandidates(effects[1..]) by {
        forall i | 0 <= i < |effects| - 1 && effects[1..][i].Dispatch?
          ensures PayloadHasNoCandidates(effects[1..][i].action)
        {
          assert effects[1..][i] == effects[i + 1];
        }
      }
      RunKeepsNoCandidates(next, effects[1..]);
    }
  }

  /** The thunks that bring in waypoints bring in no candidates: neither the empty
      slot nor a selected result has a `geocodeResults` property. */
  lemma ThunksDispatchNoCandidates(s: State, env: Env, resp: GeocodeResponse, index: Option<int>,
                                   reverse: bool, init: bool, permaLast: Option<bool>, doInsert: bool)
    ensures DispatchesNoCandidates(DoAddWaypoint(doInsert))
    ensures DispatchesNoCandidates(ProcessGeocodeResponse(s, env, resp, index, reverse, init, permaLast))
  {
    AddDispatchesNoCandidates(doInsert);
    ResponseDispatchesNoCandidates(s, env, resp, index, reverse, init, permaLast);
  }

  /** `processGeocodeResponse` adds only the selected place as a waypoint. */
  lemma ResponseDispatchesNoCandidates(s: State, env: Env, resp: GeocodeResponse, index: Option<int>,
                                       reverse: bool, init: bool, permaLast: Option<bool>)
    ensures DispatchesNoCandidates(ProcessGeocodeResponse(s, env, resp, index, reverse, init, permaLast))
  {
    var head := GeocodeResponseHead(ParseGeocodeResponse(resp), index, init);
    HeadDispatchesNoCandidates(ParseGeocodeResponse(resp), index, init);
    if reverse && (permaLast.None? || permaLast.value) {
      var mr := MakeRequest(Run(s, head), env);
      QuietTailDispatchesNoCandidates(mr);
      DispatchesNoCandidatesConcat(head, mr + [UpdatePermalink]);
      assert head + mr + [UpdatePermalink] == head + (mr + [UpdatePermalink]);
    }
  }

  /** `doAddWaypoint` dispatches an empty waypoint. */
  lemma AddDispatchesNoCandidates(doInsert: bool)
    ensures DispatchesNoCandidates(DoAddWaypoint(doInsert))
  {
    assert NoCandidates([EmptyWp]);
  }

  /** A request for a route followed by a permalink update dispatches nothing. */
  lemma QuietTailDispatchesNoCandidates(mr: seq<Effect>)
    requires NoDispatch(mr)
    ensures DispatchesNoCandidates(mr + [UpdatePermalink])
  {
    var tail := mr + [UpdatePermalink];
    forall i | 0 <= i < |tail| ensures !tail[i].Dispatch? {
      if i < |mr| { assert tail[i] == mr[i]; }
    }
  }

  /** The first part of a geocoding response adds only the selected place as a waypoint. */
  lemma HeadDispatchesNoCandidates(places: seq<Place>, index: Option<int>, init: bool)
    ensures DispatchesNoCandidates(GeocodeResponseHead(places, index, init))
  {
    var warn := if |places| == 0 then [Notify(NoAddresses)] else [];
    var update := if init then [Dispatch(UpdateWaypoint(index, SelectedWaypoint(places)))] else [];
    var receive := [Dispatch(ReceiveGeocodeResults(index, places))];
    assert DispatchesNoCandidates(update) by {
      assert NoCandidates([SelectedWaypoint(places)]);
    }
    DispatchesNoCandidatesConcat(warn, update);
    DispatchesNoCandidatesConcat(warn + update, receive);
    assert GeocodeResponseHead(places, index, init) == warn + update + receive;
  }

  /** `doRemoveWaypoint` dispatches only index-based actions. */
  lemma RemoveDispatchesNoCandidates(s: State, index: Option<int>, env: Env)
    ensures DispatchesNoCandidates(DoRemoveWaypoint(s, index, env))
  {
  }

  /** Dispatches that bring in no candidates, in two lists, bring in none together. */
  lemma DispatchesNoCandidatesConcat(e1: seq<Effect>, e2: seq<Effect>)
    requires DispatchesNoCandidates(e1) && DispatchesNoCandidates(e2)
    ensures DispatchesNoCandidates(e1 + e2)
  {
    forall i | 0 <= i < |e1 + e2| && (e1 + e2)[i].Dispatch?
      ensures PayloadHasNoCandidates((e1 + e2)[i].action)
    {
      if i < |e1| {
        assert (e1 + e2)[i] == e1[i];
      } else {
        assert (e1 + e2)[i] == e2[i - |e1|];
      }
    }
  }

  /** A reverse lookup dispatches only the request for its slot. */
  lemma ReverseDispatchesOnlyRequest(index: Option<int>, lat: Scalar, lng: Scalar, init: bool)
    ensures var e := FetchReverseGeocode(index, lat, lng, init);
      forall i :: 0 <= i < |e| && e[i].Dispatch? ==> e[i].action == RequestGeocodeResults(index)
  {
    var e := FetchReverseGeocode(index, lat, lng, init);
    if e != [] {
      assert |e| <= 2 && e[0] == Dispatch(RequestGeocodeResults(index)) && (|e| == 2 ==> e[1].ReverseLookup?);
    }
  }

  /** The lookups dispatch only index-based actions and the empty slot. */
  lemma LookupsDispatchNoCandidates(index: Option<int>, lat: Scalar, lng: Scalar, permaLast: Option<bool>,
                                    init: bool, inputValue: string)
    ensures DispatchesNoCandidates(FetchReverseGeocode(index, lat, lng, init))
    ensures DispatchesNoCandidates(FetchReverseGeocodePerma(index, lat, lng, permaLast, init))
    ensures DispatchesNoCandidates(FetchSearchGeocode(index, inputValue))
  {
    var fetch := FetchReverseGeocode(index, lat, lng, init);
    ReverseDispatchesOnlyRequest(index, lat, lng, init);
    var first := [Dispatch(RequestGeocodeResults(index))];
    var add := if index.Some? && index.value > 1 then DoAddWaypoint(true) else [];
    assert DispatchesNoCandidates(add) by {
      assert NoCandidates([EmptyWp]);
    }
    DispatchesNoCandidatesConcat(first, add);
    DispatchesNoCandidatesConcat(first + add, fetch);
    assert FetchReverseGeocodePerma(index, lat, lng, permaLast, init) == first + add + fetch;
    var search := FetchSearchGeocode(index, inputValue);
    assert DispatchesNoCandidates(search) by {
      if search != [] {
        assert |search| <= 2 && search[0].action.RequestGeocodeResults? && (|search| == 2 ==> !search[1].Dispatch?);
      }
    }
  }

  /** The route callbacks and highlighting dispatch no waypoint. */
  lemma RouteAndHighlightDispatchNoCandidates(s: State, failure: Option<RouteFailure>, costing: string,
                                              response: Payload, decoded: seq<LatLng>, segment: Segment)
    ensures DispatchesNoCandidates(OnRouteFailure(failure, costing))
    ensures DispatchesNoCandidates(OnRouteSuccess(response, decoded))
    ensures DispatchesNoCandidates(Highlight(s, segment))
  {
  }

  /** The other thunks dispatch only actions that carry no waypoint or the empty slot. */
  lemma OtherThunksDispatchNoCandidates(s: State, env: Env, index: Option<int>,
                                        lat: Scalar, lng: Scalar, permaLast: Option<bool>, init: bool,
                                        inputValue: string, failure: Option<RouteFailure>, costing: string,
                                        response: Payload, decoded: seq<LatLng>, segment: Segment)
    ensures DispatchesNoCandidates(DoRemoveWaypoint(s, index, env))
    ensures DispatchesNoCandidates(FetchReverseGeocode(index, lat, lng, init))
    ensures DispatchesNoCandidates(FetchReverseGeocodePerma(index, lat, lng, permaLast, init))
    ensures DispatchesNoCandidates(FetchSearchGeocode(index, inputValue))
    ensures DispatchesNoCandidates(OnRouteFailure(failure, costing))
    ensures DispatchesNoCandidates(OnRouteSuccess(response, decoded))
    ensures DispatchesNoCandidates(Highlight(s, segment))
  {
    RemoveDispatchesNoCandidates(s, index, env);
    LookupsDispatchNoCandidates(index, lat, lng, permaLast, init, inputValue);
    RouteAndHighlightDispatchNoCandidates(s, failure, costing, response, decoded, segment);
  }


  /** In a state whose candidate lists are all missing or empty, as every state is
      that the thunks above reach from the initial one, `isWaypoint` never clears
      the route. */
  lemma IsWaypointNeverClearsRoutes(s: State, index: int)
    requires NoCandidates(s.waypoints)
    ensures IsWaypoint(s, index).Thrown? || IsWaypoint(s, index).value == []
  {
  }

  /** Every state the thunks reach from the initial one, where the list is empty,
      has no candidates, so `isWaypoint` never clears the route there. */
  lemma InitialStateReachesNoCandidates(effects: seq<Effect>, index: int)
    requires DispatchesNoCandidates(effects)
    ensures NoCandidates(Run(InitialState, effects).waypoints)
    ensures IsWaypoint(Run(InitialState, effects), index).Thrown?
            || IsWaypoint(Run(InitialState, effects), index).value == []
  {
    RunKeepsNoCandidates(InitialState, effects);
    IsWaypointNeverClearsRoutes(Run(InitialState, effects), index);
  }

  /** As written, `isWaypoint` misses the candidates a lookup delivers: they are
      stored under `results`, so after a non-empty answer for a slot without
      candidates it still throws or dispatches nothing. */
  lemma IsWaypointMissesReceivedResults(s: State, k: nat, places: seq<Place>)
    requires k < |s.waypoints| && NoCandidates(s.waypoints) && |places| > 0
    ensures var r := Apply(s, ReceiveGeocodeResults(Some(k), places));
      |r.waypoints| == |s.waypoints| && r.waypoints[k].results == Some(places)
      && (IsWaypoint(r, k).Thrown? || IsWaypoint(r, k).value == [])
  {
    ReceiveGeocodeFillsSlot(s, Some(k), places);
    ApplyKeepsNoCandidates(s, ReceiveGeocodeResults(Some(k), places));
  }

  /** `isWaypoint` reading the candidate list the geocoding actions fill, `results`. */
  function IsWaypointOnResults(s: State, index: int): (r: Result<seq<Effect>>)
    ensures r.Ok? <==> 0 <= index < |s.waypoints| && s.waypoints[index].results.Some?
    ensures r.Ok? ==> (r.value == [Dispatch(ClearRoutes(ValhallaOsmUrl))] <==> |s.waypoints[index].results.value| > 0)
    ensures r.Ok? ==> (r.value == [] <==> |s.waypoints[index].results.value| == 0)
  {
    if !(0 <= index < |s.waypoints|) then Thrown("Cannot read properties of undefined (reading 'results')")
    else
      match s.waypoints[index].results
      case None => Thrown("Cannot read properties of undefined (reading 'length')")
      case Some(candidates) => Ok(if |candidates| > 0 then [Dispatch(ClearRoutes(ValhallaOsmUrl))] else [])
  }

  /** Corrected, a slot that has just received candidates clears the route. */
  lemma ReceivedResultsClearRoute(s: State, k: nat, places: seq<Place>)
    requires k < |s.waypoints| && |places| > 0
    ensures IsWaypointOnResults(Apply(s, ReceiveGeocodeResults(Some(k), places)), k)
            == Ok([Dispatch(ClearRoutes(ValhallaOsmUrl))])
  {
    ReceiveGeocodeFillsSlot(s, Some(k), places);
  }

  // ---------------------------------------------------------------------------
  // Highlighting a manoeuvre

  /** The segment `highlightManeuver` dispatches: none when the requested one is
      already highlighted, the requested one otherwise. */
  function HighlightTarget(current: Segment, requested: Segment): Segment
  {
    if current == requested then NoSegment else requested
  }

  /** The `fromTo` object the caller passes and `highlightManeuver` overwrites. */
  class FromTo {
    var startIndex: int
    var endIndex: int

    constructor (startIndex: int, endIndex: int)
      ensures this.startIndex == startIndex && this.endIndex == endIndex
    {
      this.startIndex := startIndex;
      this.endIndex := endIndex;
    }

    function Value(): Segment
      reads this
    {
      Segment(startIndex, endIndex)
    }
  }

  /** `highlightManeuver(fromTo)`: when `fromTo` is the highlighted segment, its two
      indices are overwritten with -1 in the caller's object; the object is then
      dispatched. */
  method HighlightManeuver(s: State, fromTo: FromTo) returns (effects: seq<Effect>)
    modifies fromTo
    ensures fromTo.Value() == HighlightTarget(s.highlightSegment, old(fromTo.Value()))
    ensures effects == [Dispatch(HighlightMnv(fromTo.Value()))]
  {
    if s.highlightSegment.startIndex == fromTo.startIndex && s.highlightSegment.endIndex == fromTo.endIndex {
      fromTo.startIndex := -1;
      fromTo.endIndex := -1;
    }
    effects := [Dispatch(HighlightMnv(fromTo.Value()))];
  }

  /** The dispatches of one `highlightManeuver` call. */
  function Highlight(s: State, requested: Segment): (e: seq<Effect>)
    ensures Run(s, e) == s.(highlightSegment := HighlightTarget(s.highlightSegment, requested))
  {
    RunOne(s, HighlightMnv(HighlightTarget(s.highlightSegment, requested)));
    [Dispatch(HighlightMnv(HighlightTarget(s.highlightSegment, requested)))]
  }

  /** Highlighting a segment that is not highlighted shows it; highlighting it again
      returns to no highlight. Nothing but the highlight changes. */
  lemma HighlightToggles(s: State, a: Segment)
    requires s.highlightSegment != a
    ensures var once := Run(s, Highlight(s, a));
      once == s.(highlightSegment := a)
      && Run(once, Highlight(once, a)) == s.(highlightSegment := NoSegment)
  {
    RunOne(s, HighlightMnv(a));
    var once := Run(s, Highlight(s, a));
    RunOne(once, HighlightMnv(NoSegment));
  }

  /** From no highlight: the same segment twice gives no highlight, and a different
      second segment is highlighted instead. */
  lemma HighlightExamples(s: State)
    requires s.highlightSegment == NoSegment
    ensures var once := Run(s, Highlight(s, Segment(0, 3)));
      Run(once, Highlight(once, Segment(0, 3))).highlightSegment == NoSegment
      && Run(once, Highlight(once, Segment(1, 2))).highlightSegment == Segment(1, 2)
  {
    HighlightToggles(s, Segment(0, 3));
    var once := Run(s, Highlight(s, Segment(0, 3)));
    RunOne(once, HighlightMnv(Segment(1, 2)));
  }
}
