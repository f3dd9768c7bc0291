/**
 * Cars (src/car.rs). A car's lateral extent is computed in floating point from its
 * constant width, its speed and two shape parameters; the model keeps only the rounded
 * result, `lateralOccupancy`, the number of lanes the car covers.
 */
module Cars {
  import opened Wrappers
  import opened Geometry

  datatype Car = Car(
    front: int,
    length: nat,
    lateralOccupancy: nat,
    speed: int,
    acceleration: int,
    speedMax: int)

  /** The speed the car could reach next step: accelerate, but not beyond its maximum. */
  function NextIterationPotentialSpeed(c: Car): (r: int)
    ensures r <= c.speed + c.acceleration && r <= c.speedMax
    ensures r == c.speed + c.acceleration || r == c.speedMax
  {
    if c.speed + c.acceleration <= c.speedMax then c.speed + c.acceleration else c.speedMax
  }

  /**
   * A car occupies the rectangle whose right lane is its lateral width `w` and whose width
   * is `w`: lanes `1 ..= w` of the road, `length` cells ending at its front.
   */
  function OccupiedCells(c: Car): seq<Coord>
  {
    RectangleOccupation(c.front, c.lateralOccupancy, c.lateralOccupancy, c.length)
  }

  function Footprint(c: Car): Rect
  {
    Rect(c.front, c.lateralOccupancy, c.lateralOccupancy, c.length)
  }

  lemma OccupiedCellsShape(c: Car)
    ensures |OccupiedCells(c)| == c.lateralOccupancy * c.length
    ensures Distinct(OccupiedCells(c))
    ensures forall x :: x in OccupiedCells(c) <==>
      1 <= x.lat <= c.lateralOccupancy && c.front - c.length + 1 <= x.long <= c.front
  {
    Geometry.OccupiedCellsShape(Footprint(c));
  }

  /** The integer part of `CarBuilder`; its floating-point parameters are folded into `lateralOccupancy`. */
  datatype CarBuilder = CarBuilder(
    front: int,
    length: nat,
    lateralOccupancy: nat,
    speedMax: int,
    speed: int,
    acceleration: int)

  datatype CarError = SpeedAboveMax(speed: int, speedMax: int)

  /** `Car::try_from(&CarBuilder)`: refuse a builder whose speed exceeds its maximum, else copy it. */
  function TryFromBuilder(b: CarBuilder): (r: Result<Car, CarError>)
    ensures r.Err? <==> b.speedMax < b.speed
    ensures r.Ok? ==> r.value.speed <= r.value.speedMax
    ensures r.Ok? ==> (r.value.front == b.front && r.value.length == b.length &&
                       r.value.lateralOccupancy == b.lateralOccupancy && r.value.speed == b.speed &&
                       r.value.acceleration == b.acceleration && r.value.speedMax == b.speedMax)
  {
    if b.speedMax < b.speed then Err(SpeedAboveMax(b.speed, b.speedMax))
    else Ok(Car(b.front, b.length, b.lateralOccupancy, b.speed, b.acceleration, b.speedMax))
  }
}
