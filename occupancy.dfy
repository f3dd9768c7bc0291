/**
 * Which cells the road's vehicles occupy (`iter_car_positions`, `iter_bike_positions`) and
 * the occupancy map built from them (`RoadCells::try_from`, used by `Road::new`): cars
 * first, then bikes, each cell validated and inserted, failing on a cell off the road or a
 * cell already taken.
 */
module Occupancy {
  import opened Wrappers
  import opened Arith
  import opened Geometry
  import opened Cells
  import opened Placement
  import Cars
  import opened Bikes

  /** `iter_car_positions`: car `i`'s cells, each to be entered as `Car(i)`. */
  function CarBlocks(cars: seq<Cars.Car>): (r: seq<Block>)
    ensures |r| == |cars|
    ensures forall i :: 0 <= i < |cars| ==> r[i] == Block(Cars.OccupiedCells(cars[i]), Vehicle.Car(i))
  {
    seq(|cars|, i requires 0 <= i < |cars| => Block(Cars.OccupiedCells(cars[i]), Vehicle.Car(i)))
  }

  /** `iter_bike_positions`: bike `i`'s cells, each to be entered as `Bike(i)`. */
  function BikeBlocks(bikes: seq<Bike>): (r: seq<Block>)
    ensures |r| == |bikes|
    ensures forall i :: 0 <= i < |bikes| ==> r[i] == Block(BikeCells(bikes[i]), Vehicle.Bike(i))
  {
    seq(|bikes|, i requires 0 <= i < |bikes| => Block(BikeCells(bikes[i]), Vehicle.Bike(i)))
  }

  /** The blocks in the order `try_from` inserts them: every car, then every bike. */
  function Blocks(cars: seq<Cars.Car>, bikes: seq<Bike>): (r: seq<Block>)
    ensures |r| == |cars| + |bikes|
  {
    CarBlocks(cars) + BikeBlocks(bikes)
  }

  datatype CellsError = CellOffRoad(at: Coord, error: CoordError) | CellTaken(at: Coord, found: Vehicle)

  /** `RoadCells::try_from(&Road)`: insert every car's cells, then every bike's. */
  function TryFromRoad(d: Dims, cars: seq<Cars.Car>, bikes: seq<Bike>): (r: Result<CellMap, CellsError>)
    requires d.len > 0
  {
    match PlaceBlocks(d, map[], Blocks(cars, bikes))
    case Placed(m) => Ok(m)
    case OffRoad(_, at, e) => Err(CellOffRoad(at, e))
    case Collision(_, at, found) => Err(CellTaken(at, found))
  }

  /**
   * Building the map succeeds exactly when every vehicle cell is on the road and no key is
   * claimed twice; the map is then every vehicle's keys sent to that vehicle.
   */
  lemma TryFromRoadSpec(d: Dims, cars: seq<Cars.Car>, bikes: seq<Bike>)
    requires d.len > 0
    ensures TryFromRoad(d, cars, bikes).Ok? <==> Fits(d, map[], Blocks(cars, bikes))
    ensures TryFromRoad(d, cars, bikes).Ok? ==>
      TryFromRoad(d, cars, bikes).value == BlocksMap(d, Blocks(cars, bikes))
  {
    var bs := Blocks(cars, bikes);
    var p := PlaceBlocks(d, map[], bs);
    if p.Placed? {
      assert map[] + BlocksMap(d, bs) == BlocksMap(d, bs);
    }
  }

  /** In a built map each key of car `i` holds `Car(i)`. */
  lemma CarCellOwned(d: Dims, cars: seq<Cars.Car>, bikes: seq<Bike>, i: int, c: Coord)
    requires d.len > 0 && TryFromRoad(d, cars, bikes).Ok?
    requires 0 <= i < |cars| && c in Cars.OccupiedCells(cars[i])
    ensures Key(d, c) in TryFromRoad(d, cars, bikes).value
    ensures TryFromRoad(d, cars, bikes).value[Key(d, c)] == Vehicle.Car(i)
  {
    TryFromRoadSpec(d, cars, bikes);
    var bs := Blocks(cars, bikes);
    assert bs[i] == CarBlocks(cars)[i];
    BlocksMapLookup(d, bs, i, Key(d, c));
  }

  /** In a built map each key of bike `i` holds `Bike(i)`. */
  lemma BikeCellOwned(d: Dims, cars: seq<Cars.Car>, bikes: seq<Bike>, i: int, c: Coord)
    requires d.len > 0 && TryFromRoad(d, cars, bikes).Ok?
    requires 0 <= i < |bikes| && c in BikeCells(bikes[i])
    ensures Key(d, c) in TryFromRoad(d, cars, bikes).value
    ensures TryFromRoad(d, cars, bikes).value[Key(d, c)] == Vehicle.Bike(i)
  {
    TryFromRoadSpec(d, cars, bikes);
    var bs := Blocks(cars, bikes);
    assert bs[|cars| + i] == BikeBlocks(bikes)[i];
    BlocksMapLookup(d, bs, |cars| + i, Key(d, c));
  }

  /** A built map holds no key that no vehicle occupies. */
  lemma BuiltKeysOccupied(d: Dims, cars: seq<Cars.Car>, bikes: seq<Bike>, k: Coord)
    requires d.len > 0 && TryFromRoad(d, cars, bikes).Ok?
    ensures k in TryFromRoad(d, cars, bikes).value <==>
      exists i :: 0 <= i < |cars| + |bikes| && k in KeySet(d, Blocks(cars, bikes)[i].cells)
  {
    TryFromRoadSpec(d, cars, bikes);
    AllKeysMembership(d, Blocks(cars, bikes), k);
  }

  /** The road's map is the one built from its cars and bikes. */
  predicate Consistent(d: Dims, cells: CellMap, cars: seq<Cars.Car>, bikes: seq<Bike>)
    requires d.len > 0
  {
    PlaceBlocks(d, map[], Blocks(cars, bikes)) == Placed(cells)
  }

  /** The entries of the cars alone. */
  function CarMap(d: Dims, cars: seq<Cars.Car>): CellMap
    requires d.len > 0
  {
    BlocksMap(d, CarBlocks(cars))
  }

  /** A consistent map is placed in two stages: the cars into the empty map, then the bikes. */
  lemma ConsistentSplit(d: Dims, cells: CellMap, cars: seq<Cars.Car>, bikes: seq<Bike>)
    requires d.len > 0 && Consistent(d, cells, cars, bikes)
    ensures PlaceBlocks(d, map[], CarBlocks(cars)) == Placed(CarMap(d, cars))
    ensures PlaceBlocks(d, CarMap(d, cars), BikeBlocks(bikes)) == Placed(cells)
  {
    PlaceBlocksFromEmpty(d, CarBlocks(cars), BikeBlocks(bikes), cells);
  }

  /**
   * A consistent map is the cars' entries plus the bikes' entries: the cars fit the empty
   * map, the bikes fit next to the cars, and wiping the bikes' keys leaves the cars' entries.
   */
  lemma ConsistentParts(d: Dims, cells: CellMap, cars: seq<Cars.Car>, bikes: seq<Bike>)
    requires d.len > 0 && Consistent(d, cells, cars, bikes)
    ensures Fits(d, map[], CarBlocks(cars))
    ensures Fits(d, CarMap(d, cars), BikeBlocks(bikes))
    ensures cells == CarMap(d, cars) + BlocksMap(d, BikeBlocks(bikes))
    ensures cells - AllKeys(d, BikeBlocks(bikes)) == CarMap(d, cars)
  {
    ConsistentSplit(d, cells, cars, bikes);
    var carMap := CarMap(d, cars);
    var bikeBlocks := BikeBlocks(bikes);
    var bikeKeys := AllKeys(d, bikeBlocks);
    forall k | k in bikeKeys
      ensures k !in carMap
    {
      AllKeysMembership(d, bikeBlocks, k);
      var i :| 0 <= i < |bikeBlocks| && k in KeySet(d, bikeBlocks[i].cells);
      assert BlockFits(d, carMap, bikeBlocks[i]);
    }
    UnionMinus(carMap, BlocksMap(d, bikeBlocks));
  }

  /** Removing the keys of a disjoint right operand undoes a union. */
  lemma UnionMinus(a: CellMap, b: CellMap)
    requires a.Keys !! b.Keys
    ensures (a + b) - b.Keys == a
  {
    var u := (a + b) - b.Keys;
    assert u.Keys == a.Keys;
    forall k | k in u.Keys
      ensures u[k] == a[k]
    {
    }
  }

  /** On a consistent road two bikes hold disjoint keys. */
  lemma ConsistentBikesDisjoint(d: Dims, cells: CellMap, cars: seq<Cars.Car>, bikes: seq<Bike>, i: int, j: int)
    requires d.len > 0 && Consistent(d, cells, cars, bikes)
    requires 0 <= i < |bikes| && 0 <= j < |bikes| && i != j
    ensures KeySet(d, BikeCells(bikes[i])) !! KeySet(d, BikeCells(bikes[j]))
  {
    ConsistentParts(d, cells, cars, bikes);
    var held := BikeBlocks(bikes);
    if i < j {
      assert KeySet(d, held[i].cells) !! KeySet(d, held[j].cells);
    } else {
      assert KeySet(d, held[j].cells) !! KeySet(d, held[i].cells);
    }
  }

  /** A consistent map is recovered from its parts: cars fitting the empty map, bikes fitting next to them. */
  lemma ConsistentJoin(d: Dims, cars: seq<Cars.Car>, bikes: seq<Bike>)
    requires d.len > 0
    requires Fits(d, map[], CarBlocks(cars)) && Fits(d, CarMap(d, cars), BikeBlocks(bikes))
    ensures Consistent(d, CarMap(d, cars) + BlocksMap(d, BikeBlocks(bikes)), cars, bikes)
  {
    var cb, bb := CarBlocks(cars), BikeBlocks(bikes);
    EmptyUnion(CarMap(d, cars));
    assert PlaceBlocks(d, map[], cb) == Placed(CarMap(d, cars));
    assert PlaceBlocks(d, CarMap(d, cars), bb) == Placed(CarMap(d, cars) + BlocksMap(d, bb));
    PlaceBlocksChain(d, map[], cb, bb, CarMap(d, cars), CarMap(d, cars) + BlocksMap(d, bb));
  }

  /** The bikes' entries, alone. */
  function BikeMap(d: Dims, bikes: seq<Bike>): CellMap
    requires d.len > 0
  {
    BlocksMap(d, BikeBlocks(bikes))
  }

  /** Removing the keys of a disjoint left operand undoes a union. */
  lemma UnionMinusLeft(a: CellMap, b: CellMap)
    requires a.Keys !! b.Keys
    ensures (a + b) - a.Keys == b
  {
    var u := (a + b) - a.Keys;
    assert u.Keys == b.Keys;
  }

  /** The union of maps with disjoint keys does not depend on the order. */
  lemma UnionCommutes(a: CellMap, b: CellMap)
    requires a.Keys !! b.Keys
    ensures a + b == b + a
  {
  }

  /** On a consistent road the bikes' keys avoid the cars' keys, and wiping the cars leaves the bikes' entries. */
  lemma ConsistentWipeCars(d: Dims, cells: CellMap, cars: seq<Cars.Car>, bikes: seq<Bike>)
    requires d.len > 0 && Consistent(d, cells, cars, bikes)
    ensures CarMap(d, cars).Keys !! BikeMap(d, bikes).Keys
    ensures cells - AllKeys(d, CarBlocks(cars)) == BikeMap(d, bikes)
  {
    ConsistentParts(d, cells, cars, bikes);
    var bikeBlocks := BikeBlocks(bikes);
    forall k | k in AllKeys(d, bikeBlocks)
      ensures k !in CarMap(d, cars)
    {
      AllKeysMembership(d, bikeBlocks, k);
      var i :| 0 <= i < |bikeBlocks| && k in KeySet(d, bikeBlocks[i].cells);
      assert BlockFits(d, CarMap(d, cars), bikeBlocks[i]);
    }
    UnionMinusLeft(CarMap(d, cars), BikeMap(d, bikes));
  }

  /** Bikes that fitted beside the old cars fit beside new cars that fit among the bikes. */
  lemma BikesFitNewCars(d: Dims, cars: seq<Cars.Car>, bikes: seq<Bike>, next: seq<Cars.Car>)
    requires d.len > 0 && Fits(d, CarMap(d, cars), BikeBlocks(bikes))
    requires Fits(d, BikeMap(d, bikes), CarBlocks(next))
    ensures Fits(d, CarMap(d, next), BikeBlocks(bikes))
  {
    var bikeBlocks := BikeBlocks(bikes);
    var carBlocks := CarBlocks(next);
    forall i | 0 <= i < |bikeBlocks|
      ensures KeySet(d, bikeBlocks[i].cells) !! CarMap(d, next).Keys
    {
      forall k | k in KeySet(d, bikeBlocks[i].cells)
        ensures k !in AllKeys(d, carBlocks)
      {
        AllKeysMembership(d, bikeBlocks, k);
        AllKeysMembership(d, carBlocks, k);
      }
    }
    assert forall i :: 0 <= i < |bikeBlocks| ==> BlockFits(d, CarMap(d, cars), bikeBlocks[i]);
  }

  /**
   * `cars_update` on a consistent road: when the new cars fit among the bikes left after
   * wiping the old cars, the updated map is the one built from the new cars and the bikes.
   */
  lemma CarsSwapKeepsConsistent(d: Dims, cells: CellMap, cars: seq<Cars.Car>, bikes: seq<Bike>, next: seq<Cars.Car>)
    requires d.len > 0 && Consistent(d, cells, cars, bikes)
    requires Fits(d, cells - AllKeys(d, CarBlocks(cars)), CarBlocks(next))
    ensures Consistent(d, (cells - AllKeys(d, CarBlocks(cars))) + BlocksMap(d, CarBlocks(next)), next, bikes)
  {
    ConsistentParts(d, cells, cars, bikes);
    ConsistentWipeCars(d, cells, cars, bikes);
    var carBlocks := CarBlocks(next);
    assert forall i :: 0 <= i < |carBlocks| ==> BlockFits(d, BikeMap(d, bikes), carBlocks[i]);
    assert Fits(d, map[], carBlocks);
    BikesFitNewCars(d, cars, bikes, next);
    ConsistentJoin(d, next, bikes);
    forall k | k in AllKeys(d, carBlocks)
      ensures k !in BikeMap(d, bikes)
    {
      AllKeysMembership(d, carBlocks, k);
      var j :| 0 <= j < |carBlocks| && k in KeySet(d, carBlocks[j].cells);
      assert BlockFits(d, BikeMap(d, bikes), carBlocks[j]);
    }
    UnionCommutes(BikeMap(d, bikes), CarMap(d, next));
  }

  /**
   * A rectangle's cells wrap onto distinct keys exactly when it is empty or no longer than
   * the road.
   */
  lemma RectKeysDistinct(d: Dims, r: Rect)
    requires d.len > 0
    ensures KeysDistinct(d, OccupiedCells(r)) <==> r.width == 0 || r.length <= d.len
  {
    if r.width == 0 || r.length <= d.len {
      ShortRectKeysDistinct(d, r);
    } else {
      LongRectKeysCollide(d, r);
    }
  }

  lemma ShortRectKeysDistinct(d: Dims, r: Rect)
    requires d.len > 0 && (r.width == 0 || r.length <= d.len)
    ensures KeysDistinct(d, OccupiedCells(r))
  {
    var cells := OccupiedCells(r);
    OccupiedCellsShape(r);
    forall i, j | 0 <= i < j < |cells|
      ensures Key(d, cells[i]) != Key(d, cells[j])
    {
      assert cells[i] in cells && cells[j] in cells;
      ShortRectCellKeys(d, r, cells[i], cells[j]);
    }
  }

  /** Two different cells of a rectangle no longer than the road fall on different keys. */
  lemma ShortRectCellKeys(d: Dims, r: Rect, a: Coord, b: Coord)
    requires d.len > 0 && r.length <= d.len && a != b
    requires Back(r) <= a.long <= r.front && Back(r) <= b.long <= r.front
    ensures Key(d, a) != Key(d, b)
  {
    if a.lat == b.lat && a.long % d.len == b.long % d.len {
      if a.long >= b.long {
        ModSmallDiff(a.long, b.long, d.len);
      } else {
        ModSmallDiff(b.long, a.long, d.len);
      }
    }
  }

  lemma LongRectKeysCollide(d: Dims, r: Rect)
    requires d.len > 0 && r.width > 0 && r.length > d.len
    ensures !KeysDistinct(d, OccupiedCells(r))
  {
    var cells := OccupiedCells(r);
    var c1 := Coord(r.right, Back(r));
    var c2 := Coord(r.right, Back(r) + d.len);
    OccupiedCellsShape(r);
    assert c1 in cells && c2 in cells;
    KeyPeriodic(d, c1, 1);
    if KeysDistinct(d, cells) {
      DistinctKeysInjective(d, cells, c1, c2);
    }
  }

  /** Under distinct keys, two members with one key are the same member. */
  lemma DistinctKeysInjective(d: Dims, cs: seq<Coord>, a: Coord, b: Coord)
    requires d.len > 0 && KeysDistinct(d, cs) && a in cs && b in cs
    ensures Key(d, a) == Key(d, b) ==> a == b
  {
    var i :| 0 <= i < |cs| && cs[i] == a;
    var j :| 0 <= j < |cs| && cs[j] == b;
    if i < j {
      assert Key(d, cs[i]) != Key(d, cs[j]);
    } else if j < i {
      assert Key(d, cs[j]) != Key(d, cs[i]);
    }
  }
}
