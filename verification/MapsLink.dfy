/** The navigation link builder of utils/geoUtils.ts (`generateGoogleMapsUrl`).
    `encodeURIComponent` and JavaScript's number-to-text conversion are the
    parameters `encode` and `numText`. */
module MapsLink {
  import opened Wrappers
  import opened Types
  import opened Text

  /** The link for an empty route. */
  const LandingUrl: string := "https://www.google.com/maps"

  /** The prefix of a directions link; one path piece per stop follows. */
  const DirectionsBase: string := "https://www.google.com/maps/dir/"

  /** JavaScript truthiness of an optional string: present and not empty. */
  predicate TruthyText(s: Option<string>)
  {
    s.Some? && s.value != ""
  }

  /** JavaScript truthiness of an optional number: present and not zero. */
  predicate TruthyNumber(x: Option<real>)
  {
    x.Some? && x.value != 0.0
  }

  /** The path piece for one location: its address, else its coordinates,
      else the text the user typed. */
  function Segment(encode: string -> string, numText: real -> string, loc: Location): string
  {
    if TruthyText(loc.address) then encode(loc.address.value)
    else if TruthyNumber(loc.lat) && TruthyNumber(loc.lng) then
      numText(loc.lat.value) + "," + numText(loc.lng.value)
    else encode(loc.originalInput)
  }

  /** `locations.map(...)` over `Segment`. */
  function Segments(encode: string -> string, numText: real -> string, locations: seq<Location>): (r: seq<string>)
    ensures |r| == |locations|
    ensures forall i | 0 <= i < |locations| :: r[i] == Segment(encode, numText, locations[i])
    decreases |locations|
  {
    if |locations| == 0 then []
    else [Segment(encode, numText, locations[0])] + Segments(encode, numText, locations[1..])
  }

  /** `generateGoogleMapsUrl`. */
  function MapsUrl(encode: string -> string, numText: real -> string, locations: seq<Location>): (url: string)
  {
    if |locations| == 0 then LandingUrl
    else DirectionsBase + Join(Segments(encode, numText, locations), '/')
  }

  /** Neither conversion ever produces a slash. */
  ghost predicate SlashFree(encode: string -> string, numText: real -> string)
  {
    && (forall s: string :: '/' !in encode(s))
    && (forall x: real :: '/' !in numText(x))
  }

  /** An empty route links to the landing page; any other route links to
      the directions page followed by exactly one slash-separated piece per
      location, in route order, each piece chosen by the priority address,
      then non-zero coordinates, then the typed text. */
  lemma MapsUrlPieces(encode: string -> string, numText: real -> string, locations: seq<Location>)
    requires SlashFree(encode, numText)
    ensures |locations| == 0 ==> MapsUrl(encode, numText, locations) == LandingUrl
    ensures |locations| > 0 ==>
              var url := MapsUrl(encode, numText, locations);
              && |DirectionsBase| <= |url|
              && url[..|DirectionsBase|] == DirectionsBase
              && var pieces := Split(url[|DirectionsBase|..], '/');
                 && |pieces| == |locations|
                 && forall i | 0 <= i < |locations| ::
                      pieces[i] == if TruthyText(locations[i].address) then encode(locations[i].address.value)
                                   else if TruthyNumber(locations[i].lat) && TruthyNumber(locations[i].lng) then
                                     numText(locations[i].lat.value) + "," + numText(locations[i].lng.value)
                                   else encode(locations[i].originalInput)
  {
    if |locations| > 0 {
      var segs := Segments(encode, numText, locations);
      forall i | 0 <= i < |segs| ensures '/' !in segs[i] {
        var loc := locations[i];
        if !TruthyText(loc.address) && TruthyNumber(loc.lat) && TruthyNumber(loc.lng) {
          assert '/' !in numText(loc.lat.value) && '/' !in numText(loc.lng.value);
        }
      }
      SplitJoin(segs, '/');
      var url := MapsUrl(encode, numText, locations);
      assert url[|DirectionsBase|..] == Join(segs, '/');
    }
  }

  /** A zero latitude or longitude is falsy: without an address such a
      location is linked by its typed text, not by its coordinates. */
  lemma ZeroCoordinateFallsThrough(encode: string -> string, numText: real -> string, loc: Location)
    requires !TruthyText(loc.address)
    requires loc.lat == Some(0.0) || loc.lng == Some(0.0)
    ensures Segment(encode, numText, loc) == encode(loc.originalInput)
  {
  }
}
