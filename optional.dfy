/** Values that may be absent: JavaScript's `undefined` / `null`. */
module Optional {

  datatype Option<+T> = None | Some(value: T) {

    /** The value, or `default` when absent (JavaScript's `x ?? default`). */
    function GetOr(default: T): T
    {
      match this
      case Some(v) => v
      case None => default
    }
  }
}

/** Record shapes shared by the modelled components (src/lib/types.ts). */
module Types {
  import opened Optional

  /** A `[lng, lat]` coordinate tuple: component 0 is the longitude, component 1 the latitude. */
  type LngLat = (real, real)

  /** An official as delivered by the data layer. */
  datatype Official = Official(
    id: string,
    name: string,
    status: string,
    currentLocation: Option<LngLat>,
    lastUpdated: Option<string>)

  /** A field task; `assignedTo` is `null` (None) when nobody is assigned. */
  datatype Task = Task(
    id: string,
    title: string,
    location: LngLat,
    status: string,
    assignedTo: Option<string>,
    createdAt: string,
    updatedAt: string)
}
