# Directions panel of the Valhalla demo app, in Dafny

This project models the routing panel of the Valhalla demo web app. It has three
parts:

- the `directions` Redux reducer, which holds the ordered waypoints, the route result
  of each routing provider, the highlighted manoeuvre and the zoom target;
- the thunks that drive it: add and remove waypoints, geocode typed text or
  coordinates, ask the routing engine for a route, and toggle a manoeuvre highlight;
- the Pelias helpers: the "latitude,longitude" text test, the two request guards and
  the parser of a geocoding response.

The files:

- `js_values.dfy` (module `JsValues`) holds the JavaScript values the code relies on:
  properties that may be `undefined` (`Option`), truthiness, exceptions (`Result`) and
  `String.prototype.split`.
- `pelias.dfy` (module `Pelias`) models `checkIfValidLatLng`. It is a scanner, and it
  is proved equal to a grammar of the regular expression. The module also has the
  guards of `searchGeocode` and `reverseGeocode`, and `parseGeocodeResponse`.
- `directions.dfy` (module `Directions`) models the reducer as a pure
  `Apply(state, action)`, with one lemma per case.
  - INSERT_WAYPOINT splices into the previous state's array in place. That step is
    modelled a second time, on the class `WaypointArray`, and proved to agree with
    `Apply`.
- `directions_actions.dfy` (module `DirectionsActions`) models each thunk as the
  ordered list of effects it produces.
  - An effect is a dispatch to the reducer, a permalink update, a loading flag, a
    notification, a map fit, or one of the three HTTP requests.
  - `Run` replays the dispatches through `Apply`.
  - A thunk that reads the store again after its own dispatches (for example,
    `makeRequest` inside `doRemoveWaypoint`) is given the state `Run` reaches at that
    point.
  - Each request's `.then` and `.catch` callbacks are functions from the response to
    their effects.
  - `highlightManeuver` overwrites its caller's `fromTo` object, so it is a method on
    the class `FromTo`.

Three behaviours of the code that are easy to misread:

- Removing a waypoint from a pair clears only that slot's typed text and candidate
  list. The slot is not reset to `0,0` with an empty label: the EMPTY_WAYPOINT case
  keeps `x`, `y` and `label`.
- `makeRequest` asks for a route whenever the list holds two or more waypoints, unset
  ones (`0,0`) included; it does not count only waypoints with a set coordinate.
  With fewer than two waypoints it also does not clear the route.
- "At least one / two waypoints" is not an invariant of the code:
  - removing without an index empties the list;
  - so does removing at a negative index from three or more waypoints.

## Model

| member | source | states |
|---|---|---|
| JsValues.Split | src/actions/directionsActionsV2.js:201 | `split` on one separator gives one piece more than there are separators, and no piece holds the separator |
| JsValues.JoinSplit | src/actions/directionsActionsV2.js:201 | joining the pieces of a split with the same separator gives back the text |
| JsValues.SplitAround | src/actions/directionsActionsV2.js:201 | text with exactly one separator splits into the text before it and the text after it |
| Pelias.CheckIfValidLatLng | src/utils/pelias.js:7-12 | the test accepts a text if and only if it matches the regular expression: a signed decimal, a comma, optional white space, a signed decimal, and nothing else |
| Pelias.ScanSigned | src/utils/pelias.js:9 | accepts exactly an optional single `-` or `+` followed by digits and an optional dot-and-digits part |
| Pelias.ScanUnsigned | src/utils/pelias.js:9 | accepts exactly `\d+(\.\d+)?` |
| Pelias.LatLngScanned | src/utils/pelias.js:9 | a matching text has its comma at the first comma, and the second number starts where the white space after that comma ends |
| Pelias.SignedShape | src/utils/pelias.js:9 | a signed decimal is non-empty, does not start with white space and holds no comma |
| Pelias.LatLngSplits | src/actions/directionsActionsV2.js:200-201 | a text the test accepts splits on `,` into exactly two non-empty parts: the texts before and after its only comma |
| Pelias.AcceptsSignedPair | src/utils/pelias.js:9 | "48.1, -11.5" is accepted |
| Pelias.RejectsSpaceBeforeComma | src/utils/pelias.js:9 | "1 ,2" is rejected, because no white space is allowed before the comma |
| Pelias.RejectsMissingIntegerPart | src/utils/pelias.js:9 | ".5,2" is rejected |
| Pelias.RejectsMissingFraction | src/utils/pelias.js:9 | "1.,2" is rejected |
| Pelias.RejectsThreeNumbers | src/utils/pelias.js:9 | "1,2,3" is rejected |
| Pelias.SearchGeocode | src/utils/pelias.js:14-21 | no request if and only if the input is empty; otherwise the request searches for the input text and asks for 5 results |
| Pelias.ReverseGeocode | src/utils/pelias.js:23-34 | a request is made if and only if both coordinates are truthy; it carries both coordinates and asks for 5 results |
| Pelias.ReverseGeocodeSkipsZero | src/utils/pelias.js:24-26 | a coordinate of 0 on either side means no reverse request |
| Pelias.BoundsOf | src/utils/pelias.js:46-53 | bounds exist if and only if the feature has a 4-number bbox; turning them back into GeoJSON order gives that bbox (south-west from indices 1,0; north-east from 3,2) |
| Pelias.At | src/utils/pelias.js:39-40 | a coordinate read is defined if and only if the index is in range, and then it is that element |
| Pelias.ToPlaces | src/utils/pelias.js:37-56 | one place per feature, in order |
| Pelias.ParseGeocodeResponse | src/utils/pelias.js:36-59 | one place per feature, in order: x and y are the first and second coordinates, then the label, the bounds of a 4-number bbox and the feature itself as `raw` |
| Pelias.RawFeatures | src/utils/pelias.js:43 | the raw features of a list of places, one per place |
| Pelias.ParsePreservesFeatures | src/utils/pelias.js:43 | the raw features of the parsed places are exactly the response's features |
| Directions.MapAt | src/reducers/directionsV2.js:93-101 | the mapped list has the same length; only the element at an index in range is transformed; any other index leaves the list |
| Directions.Spliced | src/reducers/directionsV2.js:178 | the list grows by one: the item sits at the clamped start, the elements before it stay, the rest follow it, and the multiset of elements gains exactly the item |
| Directions.Assign | src/reducers/directionsV2.js:153-154 | an index in range replaces that element only; an index past the end grows the list to it, the gap filled with `{}`; a missing or negative index leaves the list |
| Directions.Entry | src/reducers/directionsV2.js:56 | a provider's entry is its stored result when present, and an entry with neither data nor `show` otherwise |
| Directions.Apply | src/reducers/directionsV2.js:41-204 | waypoint actions change only the waypoint list; route actions leave the waypoints and the highlight alone; an unknown action returns the state unchanged |
| Directions.FilterOut | src/reducers/directionsV2.js:132 | filtering out an index in range removes exactly that element; any other index leaves the list (for a list without holes) |
| Directions.SpliceStart | src/reducers/directionsV2.js:178 | `splice`'s start position: in range as given, negative counted from the end, and clamped to the list |
| Directions.AddWaypointAppends | src/reducers/directionsV2.js:169-174 | ADD_WAYPOINT appends the payload and keeps every earlier waypoint |
| Directions.InsertWaypointBeforeLast | src/reducers/directionsV2.js:176-184 | INSERT_WAYPOINT puts the payload just before the last waypoint, which stays last, or makes it the only waypoint of an empty list |
| Directions.ClearWaypointsRemovesIndex | src/reducers/directionsV2.js:127-135 | CLEAR_WAYPOINTS at an index in range removes that waypoint only; at a larger index it changes nothing |
| Directions.ClearWaypointsWithoutIndexEmpties | src/reducers/directionsV2.js:131-133 | CLEAR_WAYPOINTS without an index, or with a negative one, empties the list |
| Directions.RequestGeocodeMarksSlot | src/reducers/directionsV2.js:104-112 | REQUEST_GEOCODE_RESULTS marks only the indexed slot as fetching; a missing index changes nothing |
| Directions.ReceiveGeocodeFillsSlot | src/reducers/directionsV2.js:90-102 | RECEIVE_GEOCODE_RESULTS stores the results in the indexed slot and clears its fetching flag; other slots stay |
| Directions.EmptyWaypointKeepsLocation | src/reducers/directionsV2.js:137-150 | EMPTY_WAYPOINT clears the slot's typed text and candidate list and keeps everything else, the location included |
| Directions.UpdateWaypointReplacesEntry | src/reducers/directionsV2.js:152-160 | UPDATE_WAYPOINT replaces the indexed entry and keeps the others; past the end it grows the list to reach the index, filling the gap with `{}` where the source leaves holes; a missing or negative index changes nothing |
| Directions.UpdateTextInputStoresResults | src/reducers/directionsV2.js:114-126 | UPDATE_TEXTINPUT stores the results, or `[]` when there are none, in the indexed slot and keeps the others; past the end it grows the list to reach the index, filling the gap with `{}`, and the new slot is `{}` with those results; a missing or negative index changes no waypoint |
| Directions.ReceiveRouteResultsStores | src/reducers/directionsV2.js:76-88 | RECEIVE_ROUTE_RESULTS stores the provider's data, marks success, keeps its `show` flag, and keeps the other providers and the waypoints |
| Directions.ClearRoutesEmpties | src/reducers/directionsV2.js:62-74 | CLEAR_ROUTES empties the provider's data, marks failure, and keeps its `show` flag, the other providers and the waypoints |
| Directions.ToggleProviderSetsShow | src/reducers/directionsV2.js:50-60 | TOGGLE_PROVIDER_ISO sets the provider's `show` flag and changes nothing else |
| Directions.SetWaypointReplacesList | src/reducers/directionsV2.js:162-167 | SET_WAYPOINT replaces the list and nothing else |
| Directions.HighlightReplacesSegment | src/reducers/directionsV2.js:186-191 | HIGHLIGHT_MNV replaces the segment and nothing else |
| Directions.ZoomToReplacesTarget | src/reducers/directionsV2.js:193-198 | ZOOM_TO_MNV replaces the zoom target and nothing else |
| Directions.InclineDeclineStoredUntilRouteChanges | src/reducers/directionsV2.js:44-48 | UPDATE_INCLINE_DECLINE stores its payload; a later route result or cleared route drops it |
| Directions.FilterOutKeepsNoCandidates | src/reducers/directionsV2.js:132 | removing a waypoint brings in no candidates |
| Directions.AssignKeepsNoCandidates | src/reducers/directionsV2.js:153-154 | writing a waypoint without candidates, with padding, brings in none |
| Directions.SplicedKeepsNoCandidates | src/reducers/directionsV2.js:177-178 | splicing in a waypoint without candidates brings in none |
| Directions.ApplyKeepsNoCandidates | src/reducers/directionsV2.js:137-150 | no case fills a waypoint's candidate list (only EMPTY_WAYPOINT writes it, and it writes `[]`) unless the action's own payload brings candidates |
| Directions.WaypointArray.Splice | src/reducers/directionsV2.js:177-178 | the in-place splice leaves the array equal to the spliced list |
| Directions.InsertWaypointInPlace | src/reducers/directionsV2.js:176-184 | the in-place INSERT_WAYPOINT returns `Apply`'s new state and leaves the previous state's array equal to the new list |
| DirectionsActions.InitialStateReachesNoCandidates | src/reducers/directionsV2.js:21-39 | from the initial state (no waypoint, no highlight, an empty OSM route shown), dispatches that bring in no candidates keep every candidate list missing or empty, so `isWaypoint` never clears the route |
| DirectionsActions.DoAddWaypoint | src/actions/directionsActionsV2.js:42-55 | exactly one dispatch of the empty slot at 0,0: an insertion if and only if `doInsert` holds, an append otherwise |
| DirectionsActions.AddWaypointGrowsByEmptySlot | src/actions/directionsActionsV2.js:42-55 | adding grows the list by one slot at 0,0 with an empty label: at the end, or before the last waypoint when inserting |
| DirectionsActions.MakeRequest | src/actions/directionsActionsV2.js:67-81 | the permalink update comes first; exactly one route request, over every waypoint with the profile's filtered settings, is made if and only if there are two or more waypoints; no dispatch to the waypoints and no warning |
| DirectionsActions.FetchValhallaDirectionsRequests | src/actions/directionsActionsV2.js:83-93 | the loading indicator is turned on first, then exactly the given route request is made; nothing is dispatched and no warning is given |
| DirectionsActions.MakeRequestCountsUnsetWaypoints | src/actions/directionsActionsV2.js:72 | two unset slots at 0,0 are enough for a route request |
| DirectionsActions.DoRemoveWaypoint | src/actions/directionsActionsV2.js:144-157 | every path ends with a permalink update |
| DirectionsActions.RemoveWithoutIndexClearsAll | src/actions/directionsActionsV2.js:145-146 | removing without an index leaves no waypoint |
| DirectionsActions.RemoveFromPairEmptiesSlot | src/actions/directionsActionsV2.js:152-154 | with two waypoints or fewer the list keeps its length; only the indexed slot loses its typed text and candidates; no route is asked for |
| DirectionsActions.RemoveFromLongerListReroutes | src/actions/directionsActionsV2.js:148-151 | with more than two waypoints, exactly the indexed one is dropped and one route is asked for over the remaining list |
| DirectionsActions.RemoveKeepsTwo | src/actions/directionsActionsV2.js:144-157 | removing at a non-negative index keeps a list of two or more waypoints, without holes, at two or more |
| DirectionsActions.RemoveNegativeIndexClearsAll | src/actions/directionsActionsV2.js:149-150 | removing at index -1 from three or more waypoints empties the list |
| DirectionsActions.RouteErrorMessage | src/actions/directionsActionsV2.js:99-112 | the warning reads "OSM: " and the engine's error; for error code 154 only, it adds " for <costing>."; its title is the status |
| DirectionsActions.OnRouteFailure | src/actions/directionsActionsV2.js:99-113 | no effect if and only if the rejection has no response; otherwise the OSM route is cleared first and the error message is sent; no route is asked for |
| DirectionsActions.OnRouteSuccess | src/actions/directionsActionsV2.js:94-98 | every dispatch stores the response with its decoded geometry for OSM; the last effect fits the map to that geometry; no warning and no route request |
| DirectionsActions.BicycleFailureNamesCosting | src/actions/directionsActionsV2.js:101-103 | a 154 failure for the bicycle profile ends in " for bicycle." |
| DirectionsActions.RouteFailureClearsAndWarns | src/actions/directionsActionsV2.js:99-113 | a failed route empties the provider's route and marks failure, with exactly one warning; the waypoints stay |
| DirectionsActions.RouteSuccessStores | src/actions/directionsActionsV2.js:94-98 | a route response is stored with its decoded geometry and marks success; the map is then fitted to that geometry; the waypoints stay |
| DirectionsActions.SelectedWaypoint | src/actions/directionsActionsV2.js:240-249 | the first result becomes the waypoint, with its label as the input text; with no result the waypoint has no property |
| DirectionsActions.GeocodeResponseHead | src/actions/directionsActionsV2.js:229-257 | ends with storing the results; starts with a warning if and only if there is no result; writes the selected result into the slot if and only if `init` holds |
| DirectionsActions.ProcessGeocodeResponse | src/actions/directionsActionsV2.js:225-268 | begins with that head, and continues after it if and only if the response is a reverse one whose `permaLast` is missing or true |
| DirectionsActions.OnReverseResponse | src/actions/directionsActionsV2.js:185-187 | a reverse answer always continues past the head and ends with a permalink update, because `permaLast` is not passed on |
| DirectionsActions.GeocodeResponseWarnsIffEmpty | src/actions/directionsActionsV2.js:229-238 | a geocoding response warns once if and only if it has no feature |
| DirectionsActions.GeocodeHeadFillsSlot | src/actions/directionsActionsV2.js:240-257 | the slot holds all results and is no longer fetching; with `init` it is the first result; other slots and the rest of the state stay |
| DirectionsActions.GeocodeResponseRoutes | src/actions/directionsActionsV2.js:259-267 | only a reverse response whose `permaLast` is missing or true asks for a route and ends with a permalink update; the route request adds no state change |
| DirectionsActions.GeocodeResponseReroutes | src/actions/directionsActionsV2.js:225-268 | for a slot in range: that route request is over the updated list, and made if and only if there are two or more waypoints |
| DirectionsActions.FetchReverseGeocode | src/actions/directionsActionsV2.js:171-194 | nothing happens if and only if both coordinates are falsy |
| DirectionsActions.HeadKeepsLength | src/actions/directionsActionsV2.js:240-257 | the first part of a response for no slot, or for a slot below the list's end, keeps the list's length |
| DirectionsActions.ReverseResponseAlwaysReroutes | src/actions/directionsActionsV2.js:185-187 | every reverse response, for no slot or a slot below the list's end and whatever `permaLast` the lookup began with, ends with a permalink update and asks for a route exactly when there are two or more waypoints |
| DirectionsActions.ReverseWithOneCoordinateStaysFetching | src/actions/directionsActionsV2.js:175-184 | with exactly one truthy coordinate the slot is marked as fetching and no lookup is made |
| DirectionsActions.FetchReverseGeocodePerma | src/actions/directionsActionsV2.js:159-169 | marks the slot as fetching first and ends with the effects of the plain reverse lookup |
| DirectionsActions.PermaInsertsAboveOne | src/actions/directionsActionsV2.js:159-169 | a permalink lookup inserts one slot if and only if its index is above 1, and `permaLast` changes nothing it does |
| DirectionsActions.SearchText | src/actions/directionsActionsV2.js:204-217 | nothing if and only if the text is empty; otherwise the slot is marked as fetching and the text is searched for with 5 results |
| DirectionsActions.FetchSearchGeocode | src/actions/directionsActionsV2.js:196-223 | coordinate text marks no slot and starts a reverse lookup without a slot index, with the slot index as `init`; other text does nothing if and only if it is empty, and otherwise marks its slot and searches |
| DirectionsActions.SplitLatLngParts | src/actions/directionsActionsV2.js:200-201 | accepted coordinate text splits into the non-empty, truthy texts before and after its comma |
| DirectionsActions.OnSearchResponse | src/actions/directionsActionsV2.js:214-217 | a search answer warns once if and only if it has no feature and asks for no route |
| DirectionsActions.SearchResponseStoresCandidates | src/actions/directionsActionsV2.js:214-217 | for a slot in range, a search answer stores all results there and clears its fetching flag; the other slots and the rest of the state stay; no route is asked for |
| DirectionsActions.EmptySearchDoesNothing | src/actions/directionsActionsV2.js:204-206 | empty text starts nothing |
| DirectionsActions.SearchTextLooksUp | src/actions/directionsActionsV2.js:208-217 | text that is not coordinates marks its slot as fetching and is searched for, asking for 5 results |
| DirectionsActions.CoordinateTextLooksUp | src/actions/directionsActionsV2.js:200-202 | coordinate text starts a reverse lookup of its two comma-separated parts |
| DirectionsActions.RequestWithoutSlotKeepsWaypoints | src/actions/directionsActionsV2.js:179-183 | a lookup started without a slot index marks no slot |
| DirectionsActions.ResponseWithoutSlotKeepsWaypoints | src/actions/directionsActionsV2.js:225-268 | a response without a slot index writes no waypoint |
| DirectionsActions.TypedCoordinatesNeverReachSlot | src/actions/directionsActionsV2.js:200-202 | as written, typed coordinates leave every waypoint unchanged, both when the lookup starts and when it answers |
| DirectionsActions.FetchSearchGeocodeCorrected | src/actions/directionsActionsV2.js:196-223 | as `FetchSearchGeocode`, except that coordinate text marks its own slot and the reverse lookup carries the slot index |
| DirectionsActions.CorrectedLookupShape | src/actions/directionsActionsV2.js:200-202 | corrected, coordinate text for slot k marks slot k and starts one reverse lookup for slot k, with `init` true unless k is 0 |
| DirectionsActions.ReverseResponseFillsSlot | src/actions/directionsActionsV2.js:185-187 | a reverse answer for a slot in range stores all results there and clears its fetching flag; above slot 0 the first result becomes the waypoint |
| DirectionsActions.TypedCoordinatesReachSlot | src/actions/directionsActionsV2.js:200-202 | corrected, the lookup marks its slot as fetching; the answer stores the results there and clears the flag; in any slot but the first (where `init`, the index as a truth value, holds) the first result becomes the waypoint, and in the first slot the rest of the waypoint stays |
| DirectionsActions.IsWaypoint | src/actions/directionsActionsV2.js:285-290 | throws if and only if the slot does not exist or has no candidate list; clears the route if and only if the list is non-empty |
| DirectionsActions.RunKeepsNoCandidates | src/actions/directionsActionsV2.js:285-290 | replaying dispatches that bring in no candidates keeps every candidate list missing or empty |
| DirectionsActions.ThunksDispatchNoCandidates | src/actions/directionsActionsV2.js:43-49 | neither the empty slot nor a selected geocoding result brings in candidates |
| DirectionsActions.OtherThunksDispatchNoCandidates | src/actions/directionsActionsV2.js:144-223 | removing, the reverse and forward lookups, the route callbacks and highlighting dispatch no waypoint with candidates |
| DirectionsActions.IsWaypointNeverClearsRoutes | src/actions/directionsActionsV2.js:285-290 | in a state without candidates, as the thunks keep it, `isWaypoint` never clears the route |
| DirectionsActions.IsWaypointMissesReceivedResults | src/actions/directionsActionsV2.js:287 | as written, after a non-empty answer for a slot without candidates, `isWaypoint` still throws or dispatches nothing |
| DirectionsActions.IsWaypointOnResults | src/actions/directionsActionsV2.js:285-290 | reading `results`: throws if and only if the slot or its `results` is missing; clears the route if and only if `results` is non-empty |
| DirectionsActions.ReceivedResultsClearRoute | src/actions/directionsActionsV2.js:287 | corrected, a slot that has just received candidates clears the route |
| DirectionsActions.HighlightManeuver | src/actions/directionsActionsV2.js:292-307 | the caller's object becomes -1,-1 if it is the highlighted segment, and is kept otherwise; that object is dispatched |
| DirectionsActions.Highlight | src/actions/directionsActionsV2.js:292-307 | replaying it sets the highlight to -1,-1 when the requested segment is the highlighted one, and to the requested segment otherwise; nothing else changes |
| DirectionsActions.HighlightToggles | src/actions/directionsActionsV2.js:295-306 | highlighting a segment shows it; highlighting it again returns to no highlight; nothing else changes |
| DirectionsActions.HighlightExamples | src/actions/directionsActionsV2.js:292-307 | from no highlight, the same segment twice ends unhighlighted, and a different second segment is highlighted |

## Left out

- HTTP (axios), the Pelias and Valhalla servers, and the request configuration are not
  modelled. A request is an effect carrying its parameters. A response is a parameter
  of the callback that handles it.
- Some helpers' code is not part of this model: `buildDirectionsRequest`,
  `filterProfileSettings`, `parseDirectionsGeometry`, `updatePermalink`,
  `sendMessage`, `showLoading` and `zoomTo`.
  - `filterProfileSettings` is a parameter.
  - The decoded geometry is a parameter of the success callback.
  - The others are effects.
- The loading flag is reset 500 ms after each route request ends (`setTimeout` in
  `finally`). This timer is not modelled, and neither is the `console.log` in the
  geocoding `catch` handlers.
- A route failure whose rejection has no `response` makes the `catch` handler throw
  before it dispatches. It is modelled as producing no effect. The exception itself
  is not modelled.
- Waypoint properties are `Option` fields, so an absent property and one set to
  `undefined` are the same. `null` bounds and missing bounds are also merged. The
  JSON deep copy in UPDATE_TEXTINPUT and UPDATE_WAYPOINT is treated as copying
  values.
- UpdateWaypointReplacesEntry, Assign: there are no array holes in the model. The
  gap that writing past the end opens is filled with `{}`. The source leaves holes
  there, and its JSON copy later turns them into `null`.
- FilterOut, MapAt: the source's `filter` in CLEAR_WAYPOINTS drops holes. Its `map`
  in REQUEST_GEOCODE_RESULTS, RECEIVE_GEOCODE_RESULTS and EMPTY_WAYPOINT leaves
  them as holes. The model's `{}` is kept and mapped like any waypoint.
- RemoveKeepsTwo: proved for the model's lists, which have no holes. In the source,
  a list with holes can shrink below two: from `[a]`, UPDATE_WAYPOINT at index 2
  and then a removal at 0 leave one waypoint.
- IsWaypoint: on a fresh gap it throws in the source and in the model alike. They
  differ once a `map`-based case has passed over the gap. EMPTY_WAYPOINT at the
  gap's index skips the hole in the source, so `isWaypoint` there still throws. In
  the model the `{}` gets `geocodeResults` `[]`, and `isWaypoint` dispatches nothing.
- Coordinates are integers. Floating point, `NaN` and number formatting are not
  modelled. An index is an integer or `undefined`; fractional and string indices are
  not modelled.
- Text is a sequence of Unicode scalar values, not UTF-16 code units. The regular
  expression's `\s` is modelled as the characters JavaScript counts as white space.
- Aliasing of the reducer state is modelled where code depends on it:
  - INSERT_WAYPOINT mutates the previous state's array (`WaypointArray`);
  - `highlightManeuver` mutates its caller's object (`FromTo`).
  HIGHLIGHT_MNV also stores that very object in the state. Later mutations of it
  through the caller are not modelled.
- `doAddWaypoint`'s second argument, `permaLast`, is ignored by the source and does
  not appear in the model.
- DirectionsActions.DoRemoveWaypoint: its own contract states only the final
  permalink update. What removal does to the list and the route request is stated
  by the `Remove…` lemmas.
- The rest of the repository is not part of this model: the UI components, the
  permalink codec, input debouncing and the other reducers.

## Findings

| source | as written | input that shows it | evidently intended | confidence | as-written member | corrected member |
|---|---|---|---|---|---|---|
| src/actions/directionsActionsV2.js:200-202 | coordinate text is looked up with `fetchReverseGeocode({ latLng: { lat, lng } }, index)`, so the lookup's own `index` is `undefined` and the slot index is passed as `init` | typing "48.1,11.5" into waypoint 1: no slot is marked as fetching, and the response writes neither the waypoint nor its results | the lookup carries the slot's index, as `fetchReverseGeocodePerma` does, so its results reach that slot; the corrected member changes only that and passes `init` as the source does | not executed | DirectionsActions.TypedCoordinatesNeverReachSlot | DirectionsActions.TypedCoordinatesReachSlot |
| src/actions/directionsActionsV2.js:287 | `isWaypoint` tests `waypoints[index].geocodeResults.length`, but the geocoding actions store candidates under `results` (src/reducers/directionsV2.js:98, 119); only EMPTY_WAYPOINT writes `geocodeResults`, and it writes `[]` | a waypoint added by `doAddWaypoint`, then a search answer with one result for it: `isWaypoint` on it throws, and the route is not cleared | the route is cleared when the slot has candidates, read from `results` | not executed | DirectionsActions.IsWaypointMissesReceivedResults | DirectionsActions.ReceivedResultsClearRoute |
