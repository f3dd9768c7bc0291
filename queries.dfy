/**
 * Read-only questions a `Road` (src/road.rs) answers about its occupancy map: collisions,
 * lane membership, the nearest car behind, blocking, and the free distance in front of an
 * occupier. They are asked of an immutable snapshot, `RoadView`, because the per-vehicle
 * updates compute every vehicle's next state from the same snapshot.
 */
module Queries {
  import opened Wrappers
  import opened Geometry
  import opened Cells
  import Cars

  datatype RoadView = RoadView(dims: Dims, cells: CellMap, cars: seq<Cars.Car>)

  /** The map's car ids all name cars of the road (`get_car` unwraps the lookup). */
  predicate ViewWf(v: RoadView)
  {
    v.dims.len > 0 && forall x :: x in v.cells.Values && x.Car? ==> x.id < |v.cars|
  }

  /** `road_contains_occupier`: every cell lies in a lane of the road. */
  predicate RoadContainsOccupier(d: Dims, occupied: seq<Coord>)
  {
    forall c :: c in occupied ==> 0 <= c.lat < TotalWidth(d)
  }

  /** A rectangle is on the road iff it is empty or spans lanes inside `[0, BLW + MLW)`. */
  lemma RoadContainsRect(d: Dims, r: Rect)
    ensures RoadContainsOccupier(d, OccupiedCells(r)) <==>
      Empty(r) || (0 <= Left(r) && r.right < TotalWidth(d))
  {
    RectLanes(r, 0);
    RectLanes(r, TotalWidth(d));
    if !Empty(r) && !(0 <= Left(r) && r.right < TotalWidth(d)) {
      if Left(r) < 0 {
        InRect(r, Coord(Left(r), r.front));
      } else {
        InRect(r, Coord(r.right, r.front));
      }
    }
  }

  /** `motor_lane_contains_occupier`: some cell lies in a motor lane (`lat < MLW`). */
  predicate MotorLaneContainsOccupier(d: Dims, occupied: seq<Coord>)
  {
    IsWithin(occupied, d.motorLaneWidth)
  }

  /** `bike_lane_contains_occupier`: some cell lies in a bike lane (`MLW <= lat`). */
  predicate BikeLaneContainsOccupier(d: Dims, occupied: seq<Coord>)
  {
    IsWithout(occupied, d.motorLaneWidth)
  }

  /**
   * A non-empty rectangle is in the motor lane, the bike lane or both, and it is in both
   * exactly when it straddles the lane boundary.
   */
  lemma LanesOfRect(d: Dims, r: Rect)
    requires !Empty(r)
    ensures MotorLaneContainsOccupier(d, OccupiedCells(r)) || BikeLaneContainsOccupier(d, OccupiedCells(r))
    ensures MotorLaneContainsOccupier(d, OccupiedCells(r)) && BikeLaneContainsOccupier(d, OccupiedCells(r))
      <==> Left(r) < d.motorLaneWidth <= r.right
  {
    RectLanes(r, d.motorLaneWidth);
  }

  /** `collisions_for`: the vehicles found in the occupier's cells, in cell order. */
  function CollisionsFor(d: Dims, cells: CellMap, occupied: seq<Coord>): (r: seq<Vehicle>)
    requires d.len > 0 && RoadContainsOccupier(d, occupied)
    ensures |r| <= |occupied|
    ensures forall x :: x in r <==> exists c :: c in occupied && Key(d, c) in cells && cells[Key(d, c)] == x
  {
    if occupied == [] then []
    else
      var k := ValidateCoord(d, occupied[0]).value;
      var rest := CollisionsFor(d, cells, occupied[1..]);
      assert forall c :: c in occupied <==> c == occupied[0] || c in occupied[1..];
      (if k in cells then [cells[k]] else []) + rest
  }

  /** `is_collision_for`: some cell of the occupier holds a vehicle other than `vehicle`. */
  predicate IsCollisionFor(d: Dims, cells: CellMap, occupied: seq<Coord>, vehicle: Vehicle)
    requires d.len > 0 && RoadContainsOccupier(d, occupied)
  {
    exists x :: x in CollisionsFor(d, cells, occupied) && x != vehicle
  }

  lemma IsCollisionForMeaning(d: Dims, cells: CellMap, occupied: seq<Coord>, vehicle: Vehicle)
    requires d.len > 0 && RoadContainsOccupier(d, occupied)
    ensures IsCollisionFor(d, cells, occupied, vehicle) <==>
      exists c :: c in occupied && Key(d, c) in cells && cells[Key(d, c)] != vehicle
  {
    if exists c :: c in occupied && Key(d, c) in cells && cells[Key(d, c)] != vehicle {
      var c :| c in occupied && Key(d, c) in cells && cells[Key(d, c)] != vehicle;
      assert cells[Key(d, c)] in CollisionsFor(d, cells, occupied);
    }
  }

  /** The nearest car behind `c` lies `t` cells back (within the search distance). */
  predicate NearestCarBehind(d: Dims, cells: CellMap, c: Coord, maxSearch: nat, t: int)
    requires d.len > 0
  {
    1 <= t < maxSearch && CarBehind(d, cells, c, t) &&
    forall u :: 1 <= u < t ==> !CarBehind(d, cells, c, u)
  }

  /** The id of the car whose cell lies `t` cells behind `c`. */
  function CarIdBehind(d: Dims, cells: CellMap, c: Coord, t: int): nat
    requires d.len > 0 && CarBehind(d, cells, c, t)
  {
    cells[Key(d, Coord(c.lat, c.long - t))].id
  }

  /** At most one distance is the nearest. */
  lemma NearestCarBehindUnique(d: Dims, cells: CellMap, c: Coord, maxSearch: nat, t: int, u: int)
    requires d.len > 0
    requires NearestCarBehind(d, cells, c, maxSearch, t) && NearestCarBehind(d, cells, c, maxSearch, u)
    ensures t == u
  {
  }

  /** `Road::first_car_back`: the car whose cell is nearest behind `c`, looking past bikes. */
  function RoadFirstCarBack(v: RoadView, c: Coord, maybeMax: Option<nat>): (r: Option<Cars.Car>)
    requires ViewWf(v) && (MaxSearch(v.dims, maybeMax) > 1 ==> OnRoad(v.dims, c))
    ensures r.None? <==> forall t :: !NearestCarBehind(v.dims, v.cells, c, MaxSearch(v.dims, maybeMax), t)
    ensures forall t :: NearestCarBehind(v.dims, v.cells, c, MaxSearch(v.dims, maybeMax), t) ==>
      r == Some(v.cars[CarIdBehind(v.dims, v.cells, c, t)])
  {
    var s := ScanBack(v.dims, v.cells, c, 1, MaxSearch(v.dims, maybeMax));
    match s
    case None => None
    case Some(found) =>
      assert v.cells[Key(v.dims, Coord(c.lat, c.long - found.distance))] in v.cells.Values;
      assert NearestCarBehind(v.dims, v.cells, c, MaxSearch(v.dims, maybeMax), found.distance);
      Some(v.cars[FirstCarBack(v.dims, v.cells, c, maybeMax).value])
  }

  /** Whether the car `id` would count as blocking a bike moving onto `c`. */
  predicate CarIsBlocking(v: RoadView, c: Coord, id: nat)
    requires id < |v.cars|
  {
    Cars.NextIterationPotentialSpeed(v.cars[id]) < v.cars[id].front - c.long
  }

  /**
   * `is_blocking`: there is a nearest car behind `c` within the search distance and its
   * potential speed is less than the difference between its stored front and `c`'s longitude.
   */
  function IsBlocking(v: RoadView, c: Coord, maybeMax: Option<nat>): (r: bool)
    requires ViewWf(v) && (MaxSearch(v.dims, maybeMax) > 1 ==> OnRoad(v.dims, c))
    ensures r <==> exists t :: (NearestCarBehind(v.dims, v.cells, c, MaxSearch(v.dims, maybeMax), t) &&
                                CarIdBehind(v.dims, v.cells, c, t) < |v.cars| &&
                                CarIsBlocking(v, c, CarIdBehind(v.dims, v.cells, c, t)))
  {
    match RoadFirstCarBack(v, c, maybeMax)
    case None => false
    case Some(car) => Cars.NextIterationPotentialSpeed(car) < car.front - c.long
  }

  /**
   * As written, the distance compares the car's stored front with the longitude it was
   * found behind: a blocking car with a non-negative potential speed must have its stored
   * front strictly ahead of `c`, which a car found behind `c` only has through wrap-around.
   */
  lemma BlockingCarStoredAhead(v: RoadView, c: Coord, maybeMax: Option<nat>)
    requires ViewWf(v) && (MaxSearch(v.dims, maybeMax) > 1 ==> OnRoad(v.dims, c))
    requires IsBlocking(v, c, maybeMax)
    requires forall i :: 0 <= i < |v.cars| ==> Cars.NextIterationPotentialSpeed(v.cars[i]) >= 0
    ensures exists i :: 0 <= i < |v.cars| && v.cars[i].front > c.long
  {
    var t :| NearestCarBehind(v.dims, v.cells, c, MaxSearch(v.dims, maybeMax), t) &&
      CarIdBehind(v.dims, v.cells, c, t) < |v.cars| &&
      CarIsBlocking(v, c, CarIdBehind(v.dims, v.cells, c, t));
    var i := CarIdBehind(v.dims, v.cells, c, t);
    assert v.cars[i].front > c.long;
  }

  /** The smallest front gap over `cs`, `None` when `cs` is empty (`Iterator::min`). */
  function MinFrontGap(d: Dims, cells: CellMap, cs: seq<Coord>): (r: Option<nat>)
    requires d.len > 0 && forall c :: c in cs ==> OnRoad(d, c)
    ensures r.None? <==> |cs| == 0
    ensures r.Some? ==> forall c :: c in cs ==> r.value <= FrontGap(d, cells, c, None)
    ensures r.Some? ==> exists c :: c in cs && r.value == FrontGap(d, cells, c, None)
  {
    if cs == [] then None
    else
      var g := FrontGap(d, cells, cs[0], None);
      var rest := MinFrontGap(d, cells, cs[1..]);
      assert forall c :: c in cs <==> c == cs[0] || c in cs[1..];
      if rest.None? || g <= rest.value then Some(g) else rest
  }

  /** `Road::front_gap`: the free distance ahead of an occupier, the least over its lanes. */
  function RoadFrontGap(v: RoadView, occ: Rect): (r: Option<nat>)
    requires v.dims.len > 0 && forall c :: c in FrontCells(occ) ==> OnRoad(v.dims, c)
    ensures r.None? <==> occ.width == 0
    ensures r.Some? ==> forall c :: c in FrontCells(occ) ==> r.value <= FrontGap(v.dims, v.cells, c, None)
    ensures r.Some? ==> exists c :: c in FrontCells(occ) && r.value == FrontGap(v.dims, v.cells, c, None)
  {
    FrontCellsShape(occ);
    MinFrontGap(v.dims, v.cells, FrontCells(occ))
  }

  /**
   * Every lane of the occupier is free for the whole front gap: no cell `1 ..= gap` ahead
   * of its front is occupied (within one turn of the ring), and the gap never exceeds `L`.
   */
  lemma RoadFrontGapClear(v: RoadView, occ: Rect)
    requires v.dims.len > 0 && forall c :: c in FrontCells(occ) ==> OnRoad(v.dims, c)
    requires occ.width >= 1
    ensures RoadFrontGap(v, occ).value <= v.dims.len
    ensures forall lat, t ::
              (Left(occ) <= lat <= occ.right && 1 <= t <= RoadFrontGap(v, occ).value && t < v.dims.len) ==>
              !OccupiedAhead(v.dims, v.cells, Coord(lat, occ.front), t)
  {
    FrontCellsShape(occ);
    var g := RoadFrontGap(v, occ).value;
    var c0 := FrontCells(occ)[0];
    assert c0 in FrontCells(occ);
    forall lat, t | Left(occ) <= lat <= occ.right && 1 <= t <= g && t < v.dims.len
      ensures !OccupiedAhead(v.dims, v.cells, Coord(lat, occ.front), t)
    {
      var c := FrontCells(occ)[lat - Left(occ)];
      assert c == Coord(lat, occ.front) && c in FrontCells(occ);
    }
  }
}
