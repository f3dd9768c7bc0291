/**
 * The occupancy map of a ring road (`RoadCells` in src/road.rs): which vehicle sits in
 * which cell, coordinate validation, and the read-only searches along a lane.
 * The road's const generics `L`, `BLW` and `MLW` are carried by a `Dims` value.
 */
module Cells {
  import opened Wrappers
  import opened Arith
  import opened Geometry

  datatype Vehicle = Bike(id: nat) | Car(id: nat)

  /** Road length `L` (cells round the ring), bike lane width `BLW`, motor lane width `MLW`. */
  datatype Dims = Dims(len: nat, bikeLaneWidth: nat, motorLaneWidth: nat)

  type CellMap = map<Coord, Vehicle>

  function TotalWidth(d: Dims): nat
  {
    d.bikeLaneWidth + d.motorLaneWidth
  }

  /** A coordinate is on the road when its lane lies in `[0, BLW + MLW)`; longitudes wrap. */
  predicate OnRoad(d: Dims, c: Coord)
  {
    0 <= c.lat < TotalWidth(d)
  }

  /** The map key a coordinate wraps onto: the same lane, the longitude reduced modulo `L`. */
  function Key(d: Dims, c: Coord): (k: Coord)
    requires d.len > 0
    ensures k.lat == c.lat && 0 <= k.long < d.len
    ensures (c.long - k.long) % d.len == 0
  {
    ModDifference(c.long, d.len);
    Coord(c.lat, c.long % d.len)
  }

  /** Two coordinates share a key iff they lie in the same lane and agree modulo `L`. */
  lemma KeyPeriodic(d: Dims, c: Coord, k: int)
    requires d.len > 0
    ensures Key(d, Coord(c.lat, c.long + d.len * k)) == Key(d, c)
    ensures Key(d, Key(d, c)) == Key(d, c)
  {
    ModAddMultiple(c.long, k, d.len);
    ModOfMod(c.long, 0, d.len);
  }

  datatype CoordError = NegativeLat(lat: int) | LatBeyondWidth(lat: int, width: nat)

  /** `validate_coord`: reject a lane left of 0 or beyond the road, else wrap the longitude. */
  function ValidateCoord(d: Dims, c: Coord): (r: Result<Coord, CoordError>)
    requires d.len > 0
    ensures r.Ok? <==> OnRoad(d, c)
    ensures r.Err? ==> (r.error.NegativeLat? <==> c.lat < 0)
    ensures r.Ok? ==> r.value.lat == c.lat && 0 <= r.value.long < d.len
    ensures r.Ok? ==> (c.long - r.value.long) % d.len == 0
  {
    if c.lat < 0 then Err(NegativeLat(c.lat))
    else if c.lat < TotalWidth(d) then Ok(Key(d, c))
    else Err(LatBeyondWidth(c.lat, TotalWidth(d)))
  }

  /** `RoadCells::get`: the vehicle at a validated coordinate, if any. */
  function Get(d: Dims, cells: CellMap, c: Coord): (r: Result<Option<Vehicle>, CoordError>)
    requires d.len > 0
    ensures r.Ok? <==> OnRoad(d, c)
    ensures r.Ok? ==> (r.value.Some? <==> Key(d, c) in cells)
    ensures r.Ok? && r.value.Some? ==> r.value.value == cells[Key(d, c)]
  {
    match ValidateCoord(d, c)
    case Err(e) => Err(e)
    case Ok(k) => Ok(if k in cells then Some(cells[k]) else None)
  }

  /** Looking a cell up is blind to whole turns round the ring. */
  lemma GetPeriodic(d: Dims, cells: CellMap, c: Coord, k: int)
    requires d.len > 0
    ensures Get(d, cells, Coord(c.lat, c.long + d.len * k)) == Get(d, cells, c)
  {
    KeyPeriodic(d, c, k);
  }

  function MaxSearch(d: Dims, maybeMax: Option<nat>): nat
  {
    match maybeMax
    case Some(m) => m
    case None => d.len
  }

  /** Whether the cell `t` steps ahead of `start`, in its lane, holds a vehicle. */
  predicate OccupiedAhead(d: Dims, cells: CellMap, start: Coord, t: int)
    requires d.len > 0
  {
    Key(d, Coord(start.lat, start.long + t)) in cells
  }

  lemma OccupiedAheadOfKey(d: Dims, cells: CellMap, c: Coord)
    requires d.len > 0
    ensures forall t :: OccupiedAhead(d, cells, Key(d, c), t) == OccupiedAhead(d, cells, c, t)
  {
    forall t
      ensures OccupiedAhead(d, cells, Key(d, c), t) == OccupiedAhead(d, cells, c, t)
    {
      ModOfMod(c.long, t, d.len);
    }
  }

  /** The first distance in `dist .. maxSearch` ahead of `start` whose cell is occupied. */
  function ScanAhead(d: Dims, cells: CellMap, start: Coord, dist: nat, maxSearch: nat): (r: Option<nat>)
    requires d.len > 0
    ensures r.Some? ==> dist <= r.value < maxSearch && OccupiedAhead(d, cells, start, r.value)
    ensures forall t :: dist <= t < maxSearch && (r.None? || t < r.value) ==>
      !OccupiedAhead(d, cells, start, t)
    decreases maxSearch - dist
  {
    if maxSearch <= dist then None
    else if OccupiedAhead(d, cells, start, dist) then Some(dist)
    else ScanAhead(d, cells, start, dist + 1, maxSearch)
  }

  /**
   * `RoadCells::front_gap`: the number of free cells in front of `c` in its lane, searching
   * distances `1 .. maxSearch`; when nothing is found the whole search distance is free.
   * (The source's branch for a negative distance cannot be taken: a find at distance
   * `t >= 1` always gives `t - 1 >= 0`.)
   */
  function FrontGap(d: Dims, cells: CellMap, c: Coord, maybeMax: Option<nat>): (r: nat)
    requires d.len > 0 && OnRoad(d, c)
    ensures r <= MaxSearch(d, maybeMax)
    ensures forall t :: 1 <= t <= r && t < MaxSearch(d, maybeMax) ==> !OccupiedAhead(d, cells, c, t)
    ensures r < MaxSearch(d, maybeMax) ==> r + 1 < MaxSearch(d, maybeMax) && OccupiedAhead(d, cells, c, r + 1)
  {
    var start := ValidateCoord(d, c).value;
    var maxSearch := MaxSearch(d, maybeMax);
    OccupiedAheadOfKey(d, cells, c);
    match ScanAhead(d, cells, start, 1, maxSearch)
    case Some(found) => found - 1
    case None => maxSearch
  }

  /**
   * The front gap is the only number with its three properties: no further than the search,
   * free up to it, and, when short of the search, followed by an occupied searched cell.
   */
  lemma FrontGapUnique(d: Dims, cells: CellMap, c: Coord, maybeMax: Option<nat>, n: nat)
    requires d.len > 0 && OnRoad(d, c)
    requires n <= MaxSearch(d, maybeMax)
    requires forall t :: 1 <= t <= n && t < MaxSearch(d, maybeMax) ==> !OccupiedAhead(d, cells, c, t)
    requires n < MaxSearch(d, maybeMax) ==> n + 1 < MaxSearch(d, maybeMax) && OccupiedAhead(d, cells, c, n + 1)
    ensures n == FrontGap(d, cells, c, maybeMax)
  {
    var r := FrontGap(d, cells, c, maybeMax);
    if n < r {
      assert false;
    } else if r < n {
      assert false;
    }
  }

  /** The vehicle `t` cells behind `start` in its lane, if that cell holds a car. */
  predicate CarBehind(d: Dims, cells: CellMap, start: Coord, t: int)
    requires d.len > 0
  {
    var k := Key(d, Coord(start.lat, start.long - t));
    k in cells && cells[k].Car?
  }

  datatype CarSighting = CarSighting(distance: nat, id: nat)

  /** The nearest distance in `dist .. maxSearch` behind `start` whose cell holds a car. */
  function ScanBack(d: Dims, cells: CellMap, start: Coord, dist: nat, maxSearch: nat): (r: Option<CarSighting>)
    requires d.len > 0
    requires dist < maxSearch ==> OnRoad(d, start)
    ensures r.Some? ==> dist <= r.value.distance < maxSearch
    ensures r.Some? ==> CarBehind(d, cells, start, r.value.distance)
    ensures r.Some? ==> cells[Key(d, Coord(start.lat, start.long - r.value.distance))] == Car(r.value.id)
    ensures forall t :: dist <= t < maxSearch && (r.None? || t < r.value.distance) ==>
      !CarBehind(d, cells, start, t)
    decreases maxSearch - dist
  {
    if maxSearch <= dist then None
    else
      // Looking the validated coordinate up validates it again, which changes nothing.
      var here := ValidateCoord(d, Coord(start.lat, start.long - dist)).value;
      if here in cells && cells[here].Car? then Some(CarSighting(dist, cells[here].id))
      else ScanBack(d, cells, start, dist + 1, maxSearch)
  }

  /**
   * `RoadCells::first_car_back`: the id of the nearest car behind `c` in its lane within
   * distances `1 .. maxSearch`, looking past bikes.
   */
  function FirstCarBack(d: Dims, cells: CellMap, c: Coord, maybeMax: Option<nat>): (r: Option<nat>)
    requires d.len > 0
    requires MaxSearch(d, maybeMax) > 1 ==> OnRoad(d, c)
    ensures r.Some? <==> exists t :: 1 <= t < MaxSearch(d, maybeMax) && CarBehind(d, cells, c, t)
  {
    match ScanBack(d, cells, c, 1, MaxSearch(d, maybeMax))
    case None => None
    case Some(s) => Some(s.id)
  }

  /** The car found behind is the nearest one: a car at distance `t` with none closer is the one reported. */
  lemma FirstCarBackNearest(d: Dims, cells: CellMap, c: Coord, maybeMax: Option<nat>, t: int)
    requires d.len > 0 && (MaxSearch(d, maybeMax) > 1 ==> OnRoad(d, c))
    requires 1 <= t < MaxSearch(d, maybeMax) && CarBehind(d, cells, c, t)
    requires forall u :: 1 <= u < t ==> !CarBehind(d, cells, c, u)
    ensures FirstCarBack(d, cells, c, maybeMax) == Some(cells[Key(d, Coord(c.lat, c.long - t))].id)
  {
    var s := ScanBack(d, cells, c, 1, MaxSearch(d, maybeMax));
    assert s.Some?;
    assert s.value.distance == t;
  }

  /** Whether lane `lat` holds a vehicle at longitude `long` (reduced modulo `L`). */
  predicate LaneOccupied(d: Dims, cells: CellMap, lat: int, long: int)
    requires d.len > 0
  {
    Key(d, Coord(lat, long)) in cells
  }

  /** Whether the map holds the exact key `Coord(lat, long)`. */
  predicate HoldsKey(cells: CellMap, lat: int, long: int)
  {
    Coord(lat, long) in cells
  }

  /** The leftmost lane in `lat .. BLW + MLW` holding a vehicle at the (already reduced) longitude. */
  function ScanLanes(d: Dims, cells: CellMap, lat: nat, long: int): (r: nat)
    requires lat <= TotalWidth(d)
    ensures lat <= r <= TotalWidth(d)
    ensures forall l :: lat <= l < r ==> !HoldsKey(cells, l, long)
    ensures r < TotalWidth(d) ==> HoldsKey(cells, r, long)
    decreases TotalWidth(d) - lat
  {
    if TotalWidth(d) <= lat then TotalWidth(d)
    else if HoldsKey(cells, lat, long) then lat
    else ScanLanes(d, cells, lat + 1, long)
  }

  /**
   * `RoadCells::route_width`: the leftmost occupied lane at longitude `long`, or the road's
   * full width when every lane there is free.
   */
  function RouteWidth(d: Dims, cells: CellMap, long: int): (r: nat)
    requires d.len > 0
    ensures r <= TotalWidth(d)
    ensures forall l :: 0 <= l < r ==> !LaneOccupied(d, cells, l, long)
    ensures r < TotalWidth(d) ==> LaneOccupied(d, cells, r, long)
  {
    var validated := long % d.len;
    assert forall l :: LaneOccupied(d, cells, l, long) == HoldsKey(cells, l, validated);
    ScanLanes(d, cells, 0, validated)
  }

  /** The route width repeats with period `L` along the road. */
  lemma RouteWidthPeriodic(d: Dims, cells: CellMap, long: int, k: int)
    requires d.len > 0
    ensures RouteWidth(d, cells, long + d.len * k) == RouteWidth(d, cells, long)
  {
    ModAddMultiple(long, k, d.len);
  }
}
