/**
 * The marker layer's effect (src/components/map/OfficialMarkers.tsx):
 * on every run it clears the registry of markers keyed by official id,
 * adds a marker for each official that has a location, and reports every
 * located official outside a closed latitude/longitude box.
 *
 * A mapbox marker is abstracted to the data it is built from. Marker
 * creation may throw; which officials' creation throws is an input
 * (`failed`, a set of indices into the officials list). The optional
 * `onZoneViolation` callback is a flag, and the calls it receives are the
 * returned sequence of ids.
 */
module OfficialMarkers {
  import opened Optional
  import opened Types

  /** The officials shape this component declares; `location` is read as `[lng, lat]`. */
  datatype Official = Official(id: string, name: string, location: Option<LngLat>, status: string)

  /** What a marker is built from: its position and its colour (green when on duty). */
  datatype Marker = Marker(lngLat: LngLat, onDuty: bool)

  function MarkerFor(official: Official): Marker
    requires official.location.Some?
  {
    Marker(official.location.value, official.status == "on-duty")
  }

  /** The violation test: outside the closed box [80.2497, 80.2897] x [13.0427, 13.0827]. */
  predicate OutsideBox(location: LngLat)
  {
    var (lng, lat) := location;
    lng < 80.2497 || lng > 80.2897 || lat < 13.0427 || lat > 13.0827
  }

  /** Official `i` gets a marker: it has a location and its marker creation did not throw. */
  predicate Registered(officials: seq<Official>, failed: set<nat>, i: nat)
    requires i < |officials|
  {
    officials[i].location.Some? && i !in failed
  }

  /** Official `i` is reported: it gets a marker and lies outside the box. */
  predicate Violates(officials: seq<Official>, failed: set<nat>, i: nat)
    requires i < |officials|
  {
    Registered(officials, failed, i) && OutsideBox(officials[i].location.value)
  }

  /** The registry after the first `k` officials have been processed on a fresh run. */
  function RegistryAfter(officials: seq<Official>, failed: set<nat>, k: nat): map<string, Marker>
    requires k <= |officials|
  {
    if k == 0 then map[]
    else
      var m := RegistryAfter(officials, failed, k - 1);
      if Registered(officials, failed, k - 1) then m[officials[k - 1].id := MarkerFor(officials[k - 1])]
      else m
  }

  /** The ids passed to `onZoneViolation` while processing the first `k` officials. */
  function ReportsAfter(officials: seq<Official>, failed: set<nat>, hasCallback: bool, k: nat): seq<string>
    requires k <= |officials|
  {
    if k == 0 then []
    else
      var r := ReportsAfter(officials, failed, hasCallback, k - 1);
      if hasCallback && Violates(officials, failed, k - 1) then r + [officials[k - 1].id] else r
  }

  /** The registry `markersRef.current`. */
  class MarkerLayer {
    var markers: map<string, Marker>

    constructor ()
      ensures markers == map[]
    {
      markers := map[];
    }

    /**
     * One run of the effect. The registry it leaves and the calls it makes
     * depend only on the inputs, not on the registry it found: old entries
     * are dropped before any new one is added, and an official still outside
     * the box is reported again on every run.
     */
    method Run(officials: seq<Official>, failed: set<nat>, hasCallback: bool) returns (reported: seq<string>)
      modifies this
      ensures markers == RegistryAfter(officials, failed, |officials|)
      ensures reported == ReportsAfter(officials, failed, hasCallback, |officials|)
    {
      markers := map[];
      reported := [];
      var i := 0;
      while i < |officials|
        invariant 0 <= i <= |officials|
        invariant markers == RegistryAfter(officials, failed, i)
        invariant reported == ReportsAfter(officials, failed, hasCallback, i)
      {
        var official := officials[i];
        if official.location.Some? {
          if i !in failed {
            markers := markers[official.id := Marker(official.location.value, official.status == "on-duty")];
            var (lng, lat) := official.location.value;
            if lng < 80.2497 || lng > 80.2897 || lat < 13.0427 || lat > 13.0827 {
              if hasCallback {
                reported := reported + [official.id];
              }
            }
          }
        }
        i := i + 1;
      }
    }

    /** The effect's cleanup: every marker is removed and the registry emptied. */
    method Cleanup()
      modifies this
      ensures markers == map[]
    {
      markers := map[];
    }
  }

  // ---------------------------------------------------------------------
  // Properties of one run
  // ---------------------------------------------------------------------

  /** The box is closed: a point on its boundary or inside is never a violation. */
  lemma BoxIsClosed(lng: real, lat: real)
    ensures !OutsideBox((lng, lat)) <==> 80.2497 <= lng <= 80.2897 && 13.0427 <= lat <= 13.0827
  {
  }

  /** Keys of the registry are exactly the ids of officials that got a marker. */
  lemma {:induction false} RegistryKeys(officials: seq<Official>, failed: set<nat>, k: nat, id: string)
    requires k <= |officials|
    ensures id in RegistryAfter(officials, failed, k)
            <==> exists i :: 0 <= i < k && Registered(officials, failed, i) && officials[i].id == id
  {
    if k > 0 {
      RegistryKeys(officials, failed, k - 1, id);
    }
  }

  /**
   * At most one entry per id, and the last official with that id to get a
   * marker is the one whose marker is kept.
   */
  lemma {:induction false} RegistryLastWins(officials: seq<Official>, failed: set<nat>, k: nat, i: nat)
    requires i < k <= |officials|
    requires Registered(officials, failed, i)
    requires forall j :: i < j < k && Registered(officials, failed, j) ==> officials[j].id != officials[i].id
    ensures officials[i].id in RegistryAfter(officials, failed, k)
    ensures RegistryAfter(officials, failed, k)[officials[i].id] == MarkerFor(officials[i])
  {
    if k - 1 != i {
      RegistryLastWins(officials, failed, k - 1, i);
    }
  }

  /** Without a callback nothing is reported. */
  lemma {:induction false} NoCallbackNoReports(officials: seq<Official>, failed: set<nat>, k: nat)
    requires k <= |officials|
    ensures ReportsAfter(officials, failed, false, k) == []
  {
    if k > 0 {
      NoCallbackNoReports(officials, failed, k - 1);
    }
  }

  /** A reported id belongs to a violating official, and every violating official is reported. */
  lemma {:induction false} ReportedIds(officials: seq<Official>, failed: set<nat>, k: nat, id: string)
    requires k <= |officials|
    ensures id in ReportsAfter(officials, failed, true, k)
            <==> exists i :: 0 <= i < k && Violates(officials, failed, i) && officials[i].id == id
  {
    if k > 0 {
      ReportedIds(officials, failed, k - 1, id);
    }
  }

  /** One report per violating official: the number of calls equals the number of violators. */
  lemma {:induction false} OneReportPerViolator(officials: seq<Official>, failed: set<nat>, k: nat)
    requires k <= |officials|
    ensures |ReportsAfter(officials, failed, true, k)| == |set i | 0 <= i < k && Violates(officials, failed, i)|
  {
    if k > 0 {
      OneReportPerViolator(officials, failed, k - 1);
      var before := set i | 0 <= i < k - 1 && Violates(officials, failed, i);
      var after := set i | 0 <= i < k && Violates(officials, failed, i);
      if Violates(officials, failed, k - 1) {
        assert after == before + {k - 1};
      } else {
        assert after == before;
      }
    }
  }

  /** Reports come in array order: those of earlier officials are a prefix of the later ones. */
  lemma {:induction false} ReportsInArrayOrder(officials: seq<Official>, failed: set<nat>, hasCallback: bool, k: nat, n: nat)
    requires k <= n <= |officials|
    ensures ReportsAfter(officials, failed, hasCallback, k) <= ReportsAfter(officials, failed, hasCallback, n)
  {
    if k < n {
      ReportsInArrayOrder(officials, failed, hasCallback, k, n - 1);
    }
  }
}
