/** The route orderer of utils/geoUtils.ts: a greedy nearest-neighbour pass
    that keeps the first and the last location in place and reorders the
    locations between them.

    The haversine distance is not modelled: it is the parameter `dist`,
    taking (lat1, lng1, lat2, lng2) to a distance that may be NaN. The
    source's `Set` of unvisited locations iterates in insertion order, so it
    is modelled as the sequence of remaining intermediates in their original
    order, and a visited location is removed by its position. */
module RouteOrder {
  import opened Wrappers
  import opened Types

  /** A JavaScript number as the distance function may return it. */
  datatype Distance = Km(km: real) | NaN

  /** The running minimum of the scan; it starts at `Infinity`. */
  datatype MinDistance = Infinity | Finite(km: real)

  /** `getDistance(a.lat, a.lng, b.lat, b.lng)`. */
  function Measure(dist: (real, real, real, real) -> Distance, a: Location, b: Location): Distance
    requires Coordinated(a) && Coordinated(b)
  {
    dist(a.lat.value, a.lng.value, b.lat.value, b.lng.value)
  }

  /** The distance between two coordinated locations is never NaN. */
  ghost predicate NeverNaN(dist: (real, real, real, real) -> Distance)
  {
    forall a: Location, b: Location | Coordinated(a) && Coordinated(b) :: Measure(dist, a, b).Km?
  }

  /** `dist < minDistance` with JavaScript's comparison: NaN is never smaller,
      and every number is smaller than `Infinity`. */
  predicate Closer(d: Distance, min: MinDistance)
  {
    match d
    case NaN => false
    case Km(x) => min.Infinity? || x < min.km
  }

  /** `d` is a number strictly below `x`. */
  predicate Beats(d: Distance, x: real)
  {
    d.Km? && d.km < x
  }

  /** `d` is a number no greater than `x`. */
  predicate Ties(d: Distance, x: real)
  {
    d.Km? && d.km <= x
  }

  /** The inner `for` loop, from position `i` on, given the `nearest` and
      `minDistance` found so far. A location without coordinates (or any
      location, when `current` has none) ends the scan and is chosen. */
  function ScanFrom(dist: (real, real, real, real) -> Distance, current: Location,
                    unvisited: seq<Location>, i: nat, nearest: Option<nat>, min: MinDistance): (r: Option<nat>)
    requires i <= |unvisited|
    requires nearest.Some? ==> nearest.value < i
    ensures r.Some? ==> r.value < |unvisited|
    decreases |unvisited| - i
  {
    if i == |unvisited| then nearest
    else if Coordinated(current) && Coordinated(unvisited[i]) then
      var d := Measure(dist, current, unvisited[i]);
      if Closer(d, min) then ScanFrom(dist, current, unvisited, i + 1, Some(i), Finite(d.km))
      else ScanFrom(dist, current, unvisited, i + 1, nearest, min)
    else Some(i)
  }

  /** The position, in `unvisited`, of the location one pass of the scan picks. */
  function Pick(dist: (real, real, real, real) -> Distance, current: Location, unvisited: seq<Location>): (r: Option<nat>)
    ensures r.Some? ==> r.value < |unvisited|
  {
    ScanFrom(dist, current, unvisited, 0, None, Infinity)
  }

  /** Every remaining location has coordinates. */
  predicate AllCoordinated(unvisited: seq<Location>)
  {
    forall j | 0 <= j < |unvisited| :: Coordinated(unvisited[j])
  }

  /** The selection rule, stated without the scan: position `k` is the one to
      visit next from `current`.
      - If `current` has no coordinates, the first remaining location.
      - Otherwise, if some remaining location lacks coordinates, the first
        such one.
      - Otherwise, the earliest location at the least non-NaN distance. */
  predicate IsPick(dist: (real, real, real, real) -> Distance, current: Location, unvisited: seq<Location>, k: nat)
  {
    && k < |unvisited|
    && if !Coordinated(current) then k == 0
       else if !Coordinated(unvisited[k]) then
         forall j | 0 <= j < k :: Coordinated(unvisited[j])
       else
         && AllCoordinated(unvisited)
         && Measure(dist, current, unvisited[k]).Km?
         && (forall j | 0 <= j < k :: !Ties(Measure(dist, current, unvisited[j]), Measure(dist, current, unvisited[k]).km))
         && (forall j | k < j < |unvisited| :: !Beats(Measure(dist, current, unvisited[j]), Measure(dist, current, unvisited[k]).km))
  }

  /** No location can be picked: nothing is left, or every candidate is
      compared by distance and every distance is NaN. */
  predicate Stuck(dist: (real, real, real, real) -> Distance, current: Location, unvisited: seq<Location>)
  {
    || |unvisited| == 0
    || (&& Coordinated(current)
        && AllCoordinated(unvisited)
        && forall j | 0 <= j < |unvisited| :: Measure(dist, current, unvisited[j]).NaN?)
  }

  /** What the scan has established after looking at positions `0 .. i-1`
      when `current` has coordinates. */
  ghost predicate ScanInvariant(dist: (real, real, real, real) -> Distance, current: Location,
                                unvisited: seq<Location>, i: nat, nearest: Option<nat>, min: MinDistance)
  {
    && i <= |unvisited|
    && Coordinated(current)
    && (forall j | 0 <= j < i :: Coordinated(unvisited[j]))
    && match nearest
       case None =>
         && min == Infinity
         && forall j | 0 <= j < i :: Measure(dist, current, unvisited[j]).NaN?
       case Some(m) =>
         && m < i
         && min.Finite?
         && Measure(dist, current, unvisited[m]) == Km(min.km)
         && (forall j | 0 <= j < m :: !Ties(Measure(dist, current, unvisited[j]), min.km))
         && (forall j | m < j < i :: !Beats(Measure(dist, current, unvisited[j]), min.km))
  }

  /** Whatever the scan returns obeys the selection rule, and it returns
      nothing only when the remaining locations are stuck. */
  lemma {:induction false} ScanSound(dist: (real, real, real, real) -> Distance, current: Location,
                                     unvisited: seq<Location>, i: nat, nearest: Option<nat>, min: MinDistance)
    requires ScanInvariant(dist, current, unvisited, i, nearest, min)
    ensures match ScanFrom(dist, current, unvisited, i, nearest, min)
            case Some(k) => IsPick(dist, current, unvisited, k)
            case None => Stuck(dist, current, unvisited)
    decreases |unvisited| - i
  {
    if i < |unvisited| {
      if Coordinated(unvisited[i]) {
        var d := Measure(dist, current, unvisited[i]);
        if Closer(d, min) {
          assert ScanInvariant(dist, current, unvisited, i + 1, Some(i), Finite(d.km));
          ScanSound(dist, current, unvisited, i + 1, Some(i), Finite(d.km));
        } else {
          assert ScanInvariant(dist, current, unvisited, i + 1, nearest, min);
          ScanSound(dist, current, unvisited, i + 1, nearest, min);
        }
      }
    }
  }

  /** At most one position obeys the selection rule. */
  lemma IsPickUnique(dist: (real, real, real, real) -> Distance, current: Location, unvisited: seq<Location>, k1: nat, k2: nat)
    requires IsPick(dist, current, unvisited, k1)
    requires IsPick(dist, current, unvisited, k2)
    ensures k1 == k2
  {
  }

  /** The scan picks exactly the position the selection rule names, and
      picks nothing exactly when the remaining locations are stuck. */
  lemma PickMatchesRule(dist: (real, real, real, real) -> Distance, current: Location, unvisited: seq<Location>)
    ensures forall k: nat :: Pick(dist, current, unvisited) == Some(k) <==> IsPick(dist, current, unvisited, k)
    ensures Pick(dist, current, unvisited).None? <==> Stuck(dist, current, unvisited)
  {
    var p := Pick(dist, current, unvisited);
    if Coordinated(current) {
      assert ScanInvariant(dist, current, unvisited, 0, None, Infinity);
      ScanSound(dist, current, unvisited, 0, None, Infinity);
    }
    forall k: nat | IsPick(dist, current, unvisited, k)
      ensures p == Some(k)
    {
      if p.Some? {
        IsPickUnique(dist, current, unvisited, k, p.value);
      }
    }
  }

  /** The three forced or preferred picks of the selection rule, one by one. */
  lemma PickWithoutCurrentCoordinates(dist: (real, real, real, real) -> Distance, current: Location, unvisited: seq<Location>)
    requires |unvisited| > 0
    requires !Coordinated(current)
    ensures Pick(dist, current, unvisited) == Some(0)
  {
    PickMatchesRule(dist, current, unvisited);
    assert IsPick(dist, current, unvisited, 0);
  }

  lemma PickFirstUncoordinated(dist: (real, real, real, real) -> Distance, current: Location, unvisited: seq<Location>, k: nat)
    requires Coordinated(current)
    requires k < |unvisited| && !Coordinated(unvisited[k])
    requires forall j | 0 <= j < k :: Coordinated(unvisited[j])
    ensures Pick(dist, current, unvisited) == Some(k)
  {
    PickMatchesRule(dist, current, unvisited);
    assert IsPick(dist, current, unvisited, k);
  }

  /** With every location coordinated and no NaN distance, the pick is a
      nearest location, and no earlier location is as near. */
  lemma PickNearest(dist: (real, real, real, real) -> Distance, current: Location, unvisited: seq<Location>)
    requires NeverNaN(dist)
    requires |unvisited| > 0
    requires Coordinated(current) && AllCoordinated(unvisited)
    ensures Pick(dist, current, unvisited).Some?
    ensures var k := Pick(dist, current, unvisited).value;
            && Measure(dist, current, unvisited[k]).Km?
            && (forall j | 0 <= j < |unvisited| ::
                 && Measure(dist, current, unvisited[j]).Km?
                 && Measure(dist, current, unvisited[k]).km <= Measure(dist, current, unvisited[j]).km)
            && (forall j | 0 <= j < k ::
                 Measure(dist, current, unvisited[k]).km < Measure(dist, current, unvisited[j]).km)
  {
    PickMatchesRule(dist, current, unvisited);
    assert Measure(dist, current, unvisited[0]).Km?;
    var k := Pick(dist, current, unvisited).value;
    assert IsPick(dist, current, unvisited, k);
  }

  /** `s` without its element at position `k`. */
  function RemoveAt<T>(s: seq<T>, k: nat): (r: seq<T>)
    requires k < |s|
    ensures |r| == |s| - 1
    ensures multiset(r) + multiset{s[k]} == multiset(s)
  {
    assert s == s[..k] + [s[k]] + s[k + 1..];
    s[..k] + s[k + 1..]
  }

  /** The locations the outer `while` loop visits, in order, starting from
      `current` with `unvisited` left. The loop stops early when nothing can
      be picked. */
  function Greedy(dist: (real, real, real, real) -> Distance, current: Location, unvisited: seq<Location>): (r: seq<Location>)
    ensures |r| <= |unvisited|
    decreases |unvisited|
  {
    if |unvisited| == 0 then []
    else
      match Pick(dist, current, unvisited)
      case None => []
      case Some(k) => [unvisited[k]] + Greedy(dist, unvisited[k], RemoveAt(unvisited, k))
  }

  /** `optimizeRouteLocations`: routes of two locations or fewer come back as
      they are; longer ones keep their first and last location and put the
      greedy visiting order in between. */
  function OptimizeRoute(dist: (real, real, real, real) -> Distance, locations: seq<Location>): (r: seq<Location>)
  {
    if |locations| <= 2 then locations
    else
      var start := locations[0];
      var end := locations[|locations| - 1];
      [start] + Greedy(dist, start, locations[1..|locations| - 1]) + [end]
  }

  /** Whatever the distances, the greedy pass visits each remaining location
      at most once: what it returns is a sub-multiset of what was left. */
  lemma {:induction false} GreedyVisitsAtMostOnce(dist: (real, real, real, real) -> Distance, current: Location, unvisited: seq<Location>)
    ensures multiset(Greedy(dist, current, unvisited)) <= multiset(unvisited)
    decreases |unvisited|
  {
    if |unvisited| > 0 && Pick(dist, current, unvisited).Some? {
      var k := Pick(dist, current, unvisited).value;
      GreedyVisitsAtMostOnce(dist, unvisited[k], RemoveAt(unvisited, k));
    }
  }

  /** Whatever the distances: short routes come back unchanged, and longer
      ones keep their first and last location, with a sub-multiset of the
      intermediates between them. */
  lemma OptimizeRouteShape(dist: (real, real, real, real) -> Distance, locations: seq<Location>)
    ensures var r := OptimizeRoute(dist, locations);
            && (|locations| <= 2 ==> r == locations)
            && (|locations| > 2 ==>
                 && 2 <= |r| <= |locations|
                 && r[0] == locations[0]
                 && r[|r| - 1] == locations[|locations| - 1]
                 && multiset(r[1..|r| - 1]) <= multiset(locations[1..|locations| - 1]))
  {
    if |locations| > 2 {
      var r := OptimizeRoute(dist, locations);
      var mid := locations[1..|locations| - 1];
      var visits := Greedy(dist, locations[0], mid);
      GreedyVisitsAtMostOnce(dist, locations[0], mid);
      assert r[1..|r| - 1] == visits;
    }
  }

  /** Without NaN distances the greedy pass visits every remaining location
      exactly once. */
  lemma {:induction false} GreedyVisitsAll(dist: (real, real, real, real) -> Distance, current: Location, unvisited: seq<Location>)
    requires NeverNaN(dist)
    ensures |Greedy(dist, current, unvisited)| == |unvisited|
    ensures multiset(Greedy(dist, current, unvisited)) == multiset(unvisited)
    decreases |unvisited|
  {
    if |unvisited| > 0 {
      PickMatchesRule(dist, current, unvisited);
      if Coordinated(current) && Coordinated(unvisited[0]) {
        assert Measure(dist, current, unvisited[0]).Km?;
      }
      var k := Pick(dist, current, unvisited).value;
      GreedyVisitsAll(dist, unvisited[k], RemoveAt(unvisited, k));
    }
    assert |multiset(Greedy(dist, current, unvisited))| == |Greedy(dist, current, unvisited)|;
  }

  /** Without NaN distances the ordered route is a permutation of the input
      with the same first and last location: nothing is lost or duplicated. */
  lemma OptimizeRoutePermutes(dist: (real, real, real, real) -> Distance, locations: seq<Location>)
    requires NeverNaN(dist)
    ensures var r := OptimizeRoute(dist, locations);
            && |r| == |locations|
            && multiset(r) == multiset(locations)
            && (|locations| > 0 ==> r[0] == locations[0] && r[|r| - 1] == locations[|locations| - 1])
  {
    if |locations| > 2 {
      var mid := locations[1..|locations| - 1];
      GreedyVisitsAll(dist, locations[0], mid);
      assert locations == [locations[0]] + mid + [locations[|locations| - 1]];
      var r := OptimizeRoute(dist, locations);
      assert r == [locations[0]] + Greedy(dist, locations[0], mid) + [locations[|locations| - 1]];
    }
  }

  /** One pass of the inner `for` loop over the unvisited locations. */
  method FindNearest(dist: (real, real, real, real) -> Distance, current: Location, unvisited: seq<Location>)
    returns (nearest: Option<nat>)
    ensures nearest == Pick(dist, current, unvisited)
    ensures nearest.Some? ==> IsPick(dist, current, unvisited, nearest.value)
    ensures nearest.None? <==> Stuck(dist, current, unvisited)
  {
    PickMatchesRule(dist, current, unvisited);
    nearest := None;
    var minDistance := Infinity;
    var i := 0;
    while i < |unvisited|
      invariant i <= |unvisited|
      invariant nearest.Some? ==> nearest.value < i
      invariant ScanFrom(dist, current, unvisited, i, nearest, minDistance) == Pick(dist, current, unvisited)
    {
      var loc := unvisited[i];
      if Coordinated(current) && Coordinated(loc) {
        var d := Measure(dist, current, loc);
        if Closer(d, minDistance) {
          minDistance := Finite(d.km);
          nearest := Some(i);
        }
      } else {
        nearest := Some(i);
        minDistance := Finite(0.0);
        break;
      }
      i := i + 1;
    }
  }

  /** The same function written as the source writes it: an outer loop that
      picks and removes one location per pass, and an inner scan. */
  method OptimizeRouteLocations(dist: (real, real, real, real) -> Distance, locations: seq<Location>)
    returns (optimized: seq<Location>)
    ensures optimized == OptimizeRoute(dist, locations)
  {
    if |locations| <= 2 {
      return locations;
    }
    var start := locations[0];
    var end := locations[|locations| - 1];
    var intermediate := locations[1..|locations| - 1];
    optimized := [start];
    var unvisited := intermediate;
    var current := start;
    while |unvisited| > 0
      invariant optimized + Greedy(dist, current, unvisited) == [start] + Greedy(dist, start, intermediate)
      invariant |optimized| - 1 + |unvisited| == |intermediate|
      decreases |unvisited|
    {
      var nearest := FindNearest(dist, current, unvisited);
      if nearest.Some? {
        var k := nearest.value;
        assert Greedy(dist, current, unvisited) == [unvisited[k]] + Greedy(dist, unvisited[k], RemoveAt(unvisited, k));
        optimized := optimized + [unvisited[k]];
        current := unvisited[k];
        unvisited := RemoveAt(unvisited, k);
      } else {
        assert Greedy(dist, current, unvisited) == [];
        break;
      }
    }
    assert optimized == [start] + Greedy(dist, start, intermediate);
    optimized := optimized + [end];
  }

  /** `a` is strictly nearer to `from` than `b` is. */
  predicate Nearer(dist: (real, real, real, real) -> Distance, from: Location, a: Location, b: Location)
    requires Coordinated(from) && Coordinated(a) && Coordinated(b)
  {
    && Measure(dist, from, a).Km?
    && Measure(dist, from, b).Km?
    && Measure(dist, from, a).km < Measure(dist, from, b).km
  }

  /** Start S, stops A, B, C in that order, where from S the stops rank
      A, C, B by distance and from A they rank C, B (as with S = (0,0),
      A = (0,1), B = (0,5), C = (0,2)): the stops are visited A, C, B, so by
      `OptimizeRouteOf` the route to an end E is S, A, C, B, E. */
  lemma NearestNeighbourExample(dist: (real, real, real, real) -> Distance, s: Location, a: Location, b: Location, c: Location)
    requires Coordinated(s) && Coordinated(a) && Coordinated(b) && Coordinated(c)
    requires Nearer(dist, s, a, c) && Nearer(dist, s, c, b) && Nearer(dist, a, c, b)
    requires Measure(dist, c, b).Km?
    ensures Greedy(dist, s, [a, b, c]) == [a, c, b]
  {
    NearestOfTwo(dist, a, b, c);
    NearestOfThreeIsFirst(dist, s, a, b, c);
    PickIsRule(dist, s, [a, b, c], 0);
    GreedyStep(dist, s, [a, b, c], 0);
    assert RemoveAt([a, b, c], 0) == [b, c];
  }

  lemma NearestOfThreeIsFirst(dist: (real, real, real, real) -> Distance, s: Location, a: Location, b: Location, c: Location)
    requires Coordinated(s) && Coordinated(a) && Coordinated(b) && Coordinated(c)
    requires Nearer(dist, s, a, c) && Nearer(dist, s, c, b)
    ensures IsPick(dist, s, [a, b, c], 0)
  {
  }

  lemma NearerOfTwoIsSecond(dist: (real, real, real, real) -> Distance, current: Location, far: Location, near: Location)
    requires Coordinated(current) && Coordinated(far) && Coordinated(near)
    requires Nearer(dist, current, near, far)
    ensures IsPick(dist, current, [far, near], 1)
  {
  }

  /** Two stops left, the second nearer: it is visited first. */
  lemma NearestOfTwo(dist: (real, real, real, real) -> Distance, current: Location, far: Location, near: Location)
    requires Coordinated(current) && Coordinated(far) && Coordinated(near)
    requires Nearer(dist, current, near, far) && Measure(dist, near, far).Km?
    ensures Greedy(dist, current, [far, near]) == [near, far]
  {
    LastStop(dist, near, far);
    NearerOfTwoIsSecond(dist, current, far, near);
    PickIsRule(dist, current, [far, near], 1);
    GreedyStep(dist, current, [far, near], 1);
    assert RemoveAt([far, near], 1) == [far];
  }

  /** One stop left, reachable at a non-NaN distance: it is visited. */
  lemma LastStop(dist: (real, real, real, real) -> Distance, current: Location, stop: Location)
    requires !Coordinated(current) || !Coordinated(stop) || Measure(dist, current, stop).Km?
    ensures Greedy(dist, current, [stop]) == [stop]
  {
    PickIsRule(dist, current, [stop], 0);
    GreedyStep(dist, current, [stop], 0);
    assert RemoveAt([stop], 0) == [];
  }

  /** One pass of the outer loop: the picked location comes next. */
  lemma GreedyStep(dist: (real, real, real, real) -> Distance, current: Location, unvisited: seq<Location>, k: nat)
    requires Pick(dist, current, unvisited) == Some(k)
    ensures Greedy(dist, current, unvisited) == [unvisited[k]] + Greedy(dist, unvisited[k], RemoveAt(unvisited, k))
  {
  }

  /** For three locations or more, the route is the start, the greedy
      visiting order of the stops from the start, and the end. */
  lemma OptimizeRouteOf(dist: (real, real, real, real) -> Distance, start: Location, stops: seq<Location>, end: Location)
    requires |stops| > 0
    ensures OptimizeRoute(dist, [start] + stops + [end]) == [start] + Greedy(dist, start, stops) + [end]
  {
    var route := [start] + stops + [end];
    assert route[1..|route| - 1] == stops;
  }

  /** Position `k` obeys the selection rule, so the scan picks it. */
  lemma PickIsRule(dist: (real, real, real, real) -> Distance, current: Location, unvisited: seq<Location>, k: nat)
    requires IsPick(dist, current, unvisited, k)
    ensures Pick(dist, current, unvisited) == Some(k)
  {
    PickMatchesRule(dist, current, unvisited);
  }

  /** A stop without coordinates, listed before a coordinated one, is taken
      first whatever the distances are. */
  lemma UnresolvedStopFirst(dist: (real, real, real, real) -> Distance, s: Location, x: Location, y: Location)
    requires Coordinated(s) && !Coordinated(x) && Coordinated(y)
    ensures Greedy(dist, s, [x, y]) == [x, y]
  {
    LastStop(dist, x, y);
    PickFirstUncoordinated(dist, s, [x, y], 0);
    GreedyStep(dist, s, [x, y], 0);
    assert RemoveAt([x, y], 0) == [y];
  }

  /** Listed after a coordinated stop, it is still taken first: reaching it
      ends the scan and overrides the distance already compared. */
  lemma UnresolvedStopOverridesNearer(dist: (real, real, real, real) -> Distance, s: Location, x: Location, y: Location)
    requires Coordinated(s) && !Coordinated(x) && Coordinated(y)
    ensures Greedy(dist, s, [y, x]) == [x, y]
  {
    LastStop(dist, x, y);
    PickFirstUncoordinated(dist, s, [y, x], 1);
    GreedyStep(dist, s, [y, x], 1);
    assert RemoveAt([y, x], 1) == [y];
  }
}
