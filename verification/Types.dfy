/** The records shared by the whole application (types.ts). */
module Types {
  import opened Wrappers

  /** One stop of a route: the text the user typed and whatever the location
      resolver found for it. Every field but `id` and `originalInput` may be
      missing. Coordinates are decimal degrees. */
  datatype Location = Location(
    id: string,
    originalInput: string,
    name: Option<string>,
    address: Option<string>,
    lat: Option<real>,
    lng: Option<real>,
    googleMapsUri: Option<string>,
    placeId: Option<string>)

  /** Both coordinates are present (`lat !== undefined && lng !== undefined`). */
  predicate Coordinated(loc: Location)
  {
    loc.lat.Some? && loc.lng.Some?
  }

  datatype RouteStatus = Idle | Loading | Optimizing | Ready | Error

  /** What the page shows: the current route, where the pipeline is, and the
      message of the last failure. */
  datatype RouteState = RouteState(
    locations: seq<Location>,
    status: RouteStatus,
    errorMessage: Option<string>)
}
