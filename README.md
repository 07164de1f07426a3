# zone-watchers geofencing and assignment rules in Dafny

This project models the logic of the zone-watchers field-official tracker.
The rest of the application is React pages wired to data services and map
widgets. The modelled logic is:

- **Ray-casting point-in-polygon** (`src/utils/geofencing.ts`). This is an
  even-odd crossing count over an implicitly closed vertex list.
  `isWithinChennaiZone` applies it to the fixed four-vertex Chennai rectangle.
  `Geofencing.IsPointInPolygon` keeps the source's loop over `i` and the
  trailing `j`. It is proved equal to `InPolygon`, defined as "the number of
  crossed edges is odd".
- **Marker registry and box violation check**
  (`src/components/map/OfficialMarkers.tsx`). The effect clears the
  registry of markers keyed by official id. It then adds a marker for every
  located official whose marker creation succeeds. It reports every located
  official whose marker creation succeeds and who is outside a closed
  longitude/latitude box. `OfficialMarkers.MarkerLayer` holds the
  registry as a `map` field. `Run` is the effect's loop and `Cleanup` is
  the effect's cleanup.
- **Drag-time violation rule** (`src/components/MapComponent.tsx`). This
  covers `checkZoneViolation` and `handleMarkerDrag`, the `onDragEnd`
  handler of each marker, the `zonePolygonPath` copy, and the
  `[lng, lat]` to `{lat, lng}` swap of marker positions.
- **Round-robin task assignment** (`src/hooks/useControllerData.tsx`,
  the tasks query). The on-duty officials are filtered in order. Task `k`
  goes to on-duty official `k mod n`, or to `null` when nobody is on duty.
- **Task list** (`src/components/TasksList.tsx`). This covers the
  status-to-progress and status-to-badge maps, and the filter of tasks by
  assignee.

Coordinates are exact `real`s. Record shapes follow `src/lib/types.ts`.
JavaScript `null`/`undefined` become `Option.None`. An optional callback
such as `onZoneViolation` becomes a flag. The calls the callback would
receive are returned as a sequence of official ids. Every modelled function
works on values, so none of them can change its inputs. `isPointInPolygon`
and `isWithinChennaiZone` therefore leave the point and the polygon as they
were.

The two zone definitions are kept apart, as in the code. The ray-casting
rectangle (latitudes 12.9343 to 13.2367, longitudes 80.1849 to 80.3327) is
not the same as the marker layer's box (longitudes 80.2497 to 80.2897,
latitudes 13.0427 to 13.0827).

What the code does at the edges of its inputs:

- A point on the zone's edge is not always inside. The strict comparisons
  give a half-open rule: the south and west edges are inside and the north
  and east edges are outside (`Geofencing.ChennaiZoneIsHalfOpenBox`).
- A polygon with fewer than three vertices raises no error. The test simply
  answers false (`Geofencing.EmptyPolygonContainsNothing`,
  `SingleVertexContainsNothing`, `TwoVertexContainsNothing`).
- An official who is still outside the box is reported again on every run
  of the marker effect (`OfficialMarkers.MarkerLayer.Run`).

## Model

| member | source | states |
|---|---|---|
| `Geofencing.IsPointInPolygon` | src/utils/geofencing.ts:18-34 | the loop's `inside` flag equals "an odd number of the edges (polygon[i], polygon[i-1]) pass the crossing test", with the first edge wrapping to the last vertex |
| `Geofencing.Edges` | src/utils/geofencing.ts:21 | one edge per vertex in loop order; edge `i` joins vertex `i` to vertex `i-1`, and edge 0 joins vertex 0 to the last vertex, so the polygon is implicitly closed |
| `Geofencing.Crosses` | src/utils/geofencing.ts:27-28 | a crossed edge is never horizontal, so the short-circuit `&&` keeps the division away from a zero denominator; the point's latitude lies in the half-open range [min, max) of the edge's latitudes |
| `Geofencing.CrossingLng` | src/utils/geofencing.ts:28 | the interpolated longitude of a vertical edge is that edge's longitude |
| `Geofencing.CrossesSymmetric` | src/utils/geofencing.ts:27-28 | swapping an edge's endpoints does not change the crossing test |
| `Geofencing.CrossingsAppend` | src/utils/geofencing.ts:21-31 | the crossing count of two edge runs laid end to end is the sum of their counts |
| `Geofencing.EmptyPolygonContainsNothing` | src/utils/geofencing.ts:19-33 | an empty polygon contains no point, because the loop never runs |
| `Geofencing.SingleVertexContainsNothing` | src/utils/geofencing.ts:21-28 | a one-vertex polygon contains no point: its only edge is a horizontal self-edge |
| `Geofencing.TwoVertexContainsNothing` | src/utils/geofencing.ts:21-33 | a two-vertex polygon contains no point: its two edges cover the same segment and cross together |
| `Geofencing.EdgesOfRotation` | src/utils/geofencing.ts:21 | rotating the vertex list by `k` rotates the examined edge list by `k` |
| `Geofencing.RotationPreservesContainment` | src/utils/geofencing.ts:21 | a cyclic rotation of the vertex list does not change the answer |
| `Geofencing.ChennaiZoneIsHalfOpenBox` | src/utils/geofencing.ts:8-13 | inside the Chennai polygon iff 12.9343 <= lat < 13.2367 and 80.1849 <= lng < 80.3327: the south and west edges are inside, the north and east edges outside |
| `Geofencing.IsWithinChennaiZone` | src/utils/geofencing.ts:39-41 | the ray-casting test of {lat, lng} against the Chennai polygon holds iff the point is in that half-open box |
| `OfficialMarkers.MarkerLayer.constructor` | src/components/map/OfficialMarkers.tsx:18 | the registry starts empty |
| `OfficialMarkers.MarkerLayer.Run` | src/components/map/OfficialMarkers.tsx:20-55 | after a run, the registry and the reported ids depend only on the officials, the creation failures and the callback, never on the registry found: it is emptied before anything is added, and an official still outside is reported again |
| `OfficialMarkers.MarkerLayer.Cleanup` | src/components/map/OfficialMarkers.tsx:56-59 | the cleanup leaves the registry empty |
| `OfficialMarkers.BoxIsClosed` | src/components/map/OfficialMarkers.tsx:44-48 | with the tuple read as [lng, lat], a position is not a violation iff 80.2497 <= lng <= 80.2897 and 13.0427 <= lat <= 13.0827; boundary points are not violations |
| `OfficialMarkers.RegistryKeys` | src/components/map/OfficialMarkers.tsx:26-41 | an id is a registry key iff some official with that id has a location and its marker creation did not throw; officials without a location are skipped |
| `OfficialMarkers.RegistryLastWins` | src/components/map/OfficialMarkers.tsx:41 | one entry per id: the entry is the marker of the last official with that id that got a marker |
| `OfficialMarkers.NoCallbackNoReports` | src/components/map/OfficialMarkers.tsx:49 | without `onZoneViolation` nothing is reported |
| `OfficialMarkers.ReportedIds` | src/components/map/OfficialMarkers.tsx:43-50 | an id is reported iff some official with that id has a location, got a marker, and is outside the box; a failed marker creation is never checked |
| `OfficialMarkers.OneReportPerViolator` | src/components/map/OfficialMarkers.tsx:26-50 | the number of callback calls equals the number of violating officials |
| `OfficialMarkers.ReportsInArrayOrder` | src/components/map/OfficialMarkers.tsx:26-49 | the reports for a prefix of the officials are a prefix of the reports for the whole list |
| `MapComponent.CheckZoneViolation` | src/components/MapComponent.tsx:48-57 | a violation iff the position is outside the Chennai half-open box, i.e. the negation of `isWithinChennaiZone` |
| `MapComponent.HandleMarkerDrag` | src/components/MapComponent.tsx:59-64 | at most one call; a call happens iff a callback exists and the drop point is outside the zone, and it carries the dragged official's id |
| `MapComponent.DragViolationIsOutsidePolygon` | src/components/MapComponent.tsx:48-64 | with a callback, a drop reports iff the ray-casting test says the point is outside the Chennai polygon |
| `MapComponent.OnDragEnd` | src/components/MapComponent.tsx:96-100 | a drag end reports only for an event that carries a position and a present callback; it then reports the marker's key exactly when the position is a violation |
| `MapComponent.DragReportsNeedOfficialApp` | src/components/MapComponent.tsx:95-100 | when drag events reach only draggable markers, a marker that receives one exists only if `isOfficialApp` was given as true (it defaults to false); its drop reports that official's id exactly when it carries a position outside the zone and a callback is present |
| `MapComponent.MarkerPosition` | src/components/MapComponent.tsx:93 | the position swaps the [lng, lat] tuple into {lat, lng}: reading it back gives the tuple |
| `MapComponent.Markers` | src/components/MapComponent.tsx:90-102 | one marker per official, in order, keyed by id, at lat = location[1] and lng = location[0], draggable iff in the official app |
| `MapComponent.PathOf` | src/components/MapComponent.tsx:66-69 | the path has the vertex list's length and order, with equal lat and lng at each index |
| `MapComponent.ZonePolygonPath` | src/components/MapComponent.tsx:66-69 | the drawn zone path copies the Chennai polygon vertex by vertex |
| `MapComponent.PathRoundTrip` | src/components/MapComponent.tsx:66-69 | reading the drawn path back as points gives the tested polygon exactly |
| `ControllerData.OnDuty` | src/hooks/useControllerData.tsx:37 | the available officials are exactly those whose status is `on-duty` |
| `ControllerData.OnDutyAppend` | src/hooks/useControllerData.tsx:37 | the on-duty filter keeps the officials' order: filtering a concatenation concatenates the filtered parts |
| `ControllerData.AssignTasks` | src/hooks/useControllerData.tsx:39-42 | same length and order as the tasks; every field but `assigned_to` unchanged; every `assigned_to` null when nobody is on duty; otherwise task k gets the id of available[k mod n], or null when that id is empty |
| `ControllerData.AssigneesAreOnDuty` | src/hooks/useControllerData.tsx:37-41 | every assignee is the non-empty id of an official whose status is exactly `on-duty` |
| `ControllerData.AssigneePeriodic` | src/hooks/useControllerData.tsx:41 | index k + n selects the same assignee as index k |
| `ControllerData.AssigneeIsSlot` | src/hooks/useControllerData.tsx:41 | with distinct non-empty on-duty ids, task k goes to on-duty official j exactly when k mod n = j |
| `ControllerData.RoundRobinPeriodic` | src/hooks/useControllerData.tsx:41 | tasks k and k + n go to the same official |
| `ControllerData.SlotCountFormula` | src/hooks/useControllerData.tsx:41 | of m tasks, slot j receives m / n tasks, plus one if j < m mod n |
| `ControllerData.RoundRobinBalanced` | src/hooks/useControllerData.tsx:41 | among the task indices 0 .. m-1, any two slots of a round of n receive counts that differ by at most one |
| `TasksList.GetProgressValue` | src/components/TasksList.tsx:13-24 | always 0, 50 or 100; 50 exactly for in-progress, 100 exactly for completed, 0 for pending and any other status |
| `TasksList.ProgressMonotone` | src/components/TasksList.tsx:13-24 | progress does not decrease along pending, in-progress, completed |
| `TasksList.GetBadgeVariant` | src/components/TasksList.tsx:26-37 | destructive exactly for pending, secondary exactly for completed, default otherwise |
| `TasksList.BadgeAgreesWithProgress` | src/components/TasksList.tsx:13-37 | the badge is secondary exactly when progress is 100, and destructive only when progress is 0 |
| `TasksList.AssignedTo` | src/components/TasksList.tsx:41 | a task is kept iff its `assigned_to` equals the id; the result is no longer than the input |
| `TasksList.AssignedToAppend` | src/components/TasksList.tsx:41 | the filter keeps order: filtering a concatenation concatenates the filtered parts |
| `TasksList.AssignedToIdempotent` | src/components/TasksList.tsx:41 | filtering twice by the same id is filtering once |
| `TasksList.FilteredTasks` | src/components/TasksList.tsx:40-42 | with officialId undefined or empty, all tasks; with a truthy officialId, exactly the tasks assigned to it |
| `TasksList.FilteredTasksIdempotent` | src/components/TasksList.tsx:40-42 | filtering the shown list again by the same officialId returns it unchanged |
| `TasksList.OfficialSeesRoundRobinShare` | src/hooks/useControllerData.tsx:37-42 | with distinct non-empty on-duty ids, the list an on-duty official sees holds exactly their round-robin share: m / n tasks, plus one for the first m mod n slots |
| `TasksList.TasksPerOfficialBalanced` | src/hooks/useControllerData.tsx:37-42 | with distinct non-empty on-duty ids, the task lists of any two on-duty officials differ in length by at most one |

## Left out

- Rounding: coordinates and the interpolation division are exact reals, not IEEE-754 doubles. The real program may answer differently for points within rounding distance of an edge.
- Mapbox and Google Maps widgets are left out: drawing, popups, marker colours on screen, removing old markers from the map surface, and the map instance itself. A mapbox marker is reduced to the position and on-duty flag it is built from. Which officials' marker creation throws is an input (`failed`), since the widget code is not visible.
- Console logging in `checkZoneViolation`, `handleMarkerDrag` and the marker effect's `catch` is left out.
- The `onZoneViolation` callback's own effect (the toast in the controller page) is outside this model. Only the calls it receives are modelled. A callback that throws is not modelled.
- `useControllerData`: fetching officials from the data service with a fallback to mock data, the realtime subscription, `setQueryData`, error toasts, and react-query caching are left out. This includes the `enabled: !!officials.length` gate and `staleTime: Infinity`. The mock task and official data are inputs rather than fixed lists.
- The simulated position jitter of the official app uses randomness and timers, so it is left out.
- Routing, page layout, `ProtectedRoute`'s local-storage check, the header and officials-list components, the GeoJSON boundary layer and build configuration are UI and configuration only.
- Drag events: which markers the map library sends drag events to is library behaviour. `DragReportsNeedOfficialApp` takes "only draggable markers receive them" as a hypothesis; `OnDragEnd` itself does not check `draggable`, as in the handler.
