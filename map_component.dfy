/**
 * The Google Maps view (src/components/MapComponent.tsx): the drag-time
 * zone-violation rule, the polygon path drawn for the zone, and the
 * markers placed for officials.
 *
 * The optional `onZoneViolation` callback is a flag; the calls it would
 * receive are returned as a sequence of official ids.
 */
module MapComponent {
  import opened Optional
  import opened Types
  import Geofencing

  /** A `{lat, lng}` position as the map library hands it over or receives it. */
  datatype LatLng = LatLng(lat: real, lng: real)

  /** The officials shape this component declares; `location` is `[lng, lat]`. */
  datatype Official = Official(id: string, name: string, location: LngLat, status: string)

  /** What one rendered marker carries. */
  datatype MarkerView = MarkerView(key: string, position: LatLng, title: string, draggable: bool)

  /** `checkZoneViolation`: a violation is a position outside the Chennai zone. */
  function CheckZoneViolation(position: LatLng): (violation: bool)
    ensures violation <==> !(12.9343 <= position.lat < 13.2367 && 80.1849 <= position.lng < 80.3327)
  {
    !Geofencing.IsWithinChennaiZone(position.lat, position.lng)
  }

  /**
   * `handleMarkerDrag`: the calls made to `onZoneViolation` when a marker
   * is dropped at `position`.
   */
  function HandleMarkerDrag(officialId: string, position: LatLng, hasCallback: bool): (calls: seq<string>)
    ensures |calls| <= 1
    ensures calls != [] <==> hasCallback && !(12.9343 <= position.lat < 13.2367 && 80.1849 <= position.lng < 80.3327)
    ensures forall c :: c in calls ==> c == officialId
  {
    if CheckZoneViolation(position) && hasCallback then [officialId] else []
  }

  /** The `isOfficialApp` prop, which defaults to false. */
  function IsOfficialApp(prop: Option<bool>): bool
  {
    prop.GetOr(false)
  }

  /** A marker's position: the `[lng, lat]` tuple swapped into `{lat, lng}`. */
  function MarkerPosition(location: LngLat): (position: LatLng)
    ensures ToLngLat(position) == location
  {
    LatLng(location.1, location.0)
  }

  /** The inverse reading, back to a `[lng, lat]` tuple. */
  function ToLngLat(position: LatLng): LngLat
  {
    (position.lng, position.lat)
  }

  /** The markers rendered for `officials`, one per official in order. */
  function Markers(officials: seq<Official>, isOfficialApp: bool): (views: seq<MarkerView>)
    ensures |views| == |officials|
    ensures forall k :: 0 <= k < |officials| ==>
      && views[k].key == officials[k].id
      && views[k].title == officials[k].name
      && views[k].position.lat == officials[k].location.1
      && views[k].position.lng == officials[k].location.0
      && views[k].draggable == isOfficialApp
  {
    if officials == [] then []
    else
      var o := officials[0];
      [MarkerView(o.id, MarkerPosition(o.location), o.name, isOfficialApp)] + Markers(officials[1..], isOfficialApp)
  }

  /**
   * The `onDragEnd` handler of one marker: an event without a position is
   * ignored, and otherwise the drop is handed to `handleMarkerDrag` with
   * the marker's official id.
   */
  function OnDragEnd(view: MarkerView, latLng: Option<LatLng>, hasCallback: bool): (calls: seq<string>)
    ensures calls != [] ==> latLng.Some? && hasCallback
    ensures calls != [] ==> calls == [view.key] && CheckZoneViolation(latLng.value)
    ensures latLng.Some? && hasCallback && CheckZoneViolation(latLng.value) ==> calls == [view.key]
  {
    if latLng.Some? then HandleMarkerDrag(view.key, latLng.value, hasCallback) else []
  }

  /** Copies the vertex list into `{lat, lng}` literals, one per vertex, in order. */
  function PathOf(polygon: seq<Geofencing.Point>): (path: seq<LatLng>)
    ensures |path| == |polygon|
    ensures forall k :: 0 <= k < |polygon| ==> path[k].lat == polygon[k].lat && path[k].lng == polygon[k].lng
  {
    if polygon == [] then []
    else [LatLng(polygon[0].lat, polygon[0].lng)] + PathOf(polygon[1..])
  }

  /** `zonePolygonPath`: the Chennai zone as drawn on the map. */
  function ZonePolygonPath(): (path: seq<LatLng>)
    ensures |path| == |Geofencing.ChennaiZonePolygon|
    ensures forall k :: 0 <= k < |path| ==>
      path[k] == LatLng(Geofencing.ChennaiZonePolygon[k].lat, Geofencing.ChennaiZonePolygon[k].lng)
  {
    PathOf(Geofencing.ChennaiZonePolygon)
  }

  // ---------------------------------------------------------------------
  // Properties
  // ---------------------------------------------------------------------

  /** A drop reports iff it leaves the polygon that the ray-casting test checks. */
  lemma DragViolationIsOutsidePolygon(officialId: string, position: LatLng)
    ensures HandleMarkerDrag(officialId, position, true) != []
            <==> !Geofencing.InPolygon(Geofencing.Point(position.lat, position.lng), Geofencing.ChennaiZonePolygon)
  {
  }

  /**
   * Drag reports only arise in the official app. The map delivers drag
   * events only to draggable markers; a marker of `officials[k]` that
   * receives one exists only when `isOfficialApp` was given as true, and
   * its drop reports that official exactly when it lands outside the zone.
   */
  lemma {:induction false} DragReportsNeedOfficialApp(
    officials: seq<Official>, prop: Option<bool>, k: nat, latLng: Option<LatLng>, hasCallback: bool)
    requires k < |officials|
    requires Markers(officials, IsOfficialApp(prop))[k].draggable
    ensures prop == Some(true)
    ensures OnDragEnd(Markers(officials, IsOfficialApp(prop))[k], latLng, hasCallback) != []
            <==> latLng.Some? && hasCallback && CheckZoneViolation(latLng.value)
    ensures OnDragEnd(Markers(officials, IsOfficialApp(prop))[k], latLng, hasCallback) != []
            ==> OnDragEnd(Markers(officials, IsOfficialApp(prop))[k], latLng, hasCallback) == [officials[k].id]
  {
  }

  /** Reading the drawn path back gives the tested vertex list: same vertices, same order. */
  lemma {:induction false} PathRoundTrip(polygon: seq<Geofencing.Point>)
    ensures ToPoints(PathOf(polygon)) == polygon
  {
    if polygon != [] {
      PathRoundTrip(polygon[1..]);
      assert PathOf(polygon) == [LatLng(polygon[0].lat, polygon[0].lng)] + PathOf(polygon[1..]);
      assert ToPoints(PathOf(polygon)) == [polygon[0]] + ToPoints(PathOf(polygon[1..]));
    }
  }

  function ToPoints(path: seq<LatLng>): seq<Geofencing.Point>
  {
    if path == [] then [] else [Geofencing.Point(path[0].lat, path[0].lng)] + ToPoints(path[1..])
  }
}
