/**
 * The road (`Road` in src/road.rs): fixed arrays of bikes and cars and the occupancy map,
 * updated in place. Building a road inserts every vehicle's cells; each update wipes one
 * kind of vehicle from the map and inserts its new cells. The random draws of a step
 * (ignoring lateral movement, slowing down, the uniform choice, the shuffle) arrive as
 * arguments, and so do the cars' next states, whose rule is not part of this model.
 */
module Traffic {
  import opened Wrappers
  import opened Geometry
  import opened Cells
  import opened Queries
  import opened Placement
  import opened Bikes
  import opened Occupancy
  import opened Motion
  import opened Lateral
  import Cars

  /** Why an update failed: inserting a cell found its key already taken. */
  datatype UpdateError = Collided(at: Coord, found: Vehicle)

  /** Every car's cells lie in the road's lanes (what validating them with `unwrap` demands). */
  predicate CarsOnRoad(d: Dims, cars: seq<Cars.Car>)
  {
    forall i :: 0 <= i < |cars| ==> AllOnRoad(d, Cars.OccupiedCells(cars[i]))
  }

  /** Every bike's cells lie in the road's lanes. */
  predicate BikesOnRoad(d: Dims, bikes: seq<Bike>)
  {
    forall i :: 0 <= i < |bikes| ==> AllOnRoad(d, BikeCells(bikes[i]))
  }

  /** Whether a rectangle lies in the road's lanes does not depend on where its front is. */
  lemma OnRoadAnyFront(d: Dims, r: Rect, front: int)
    ensures AllOnRoad(d, OccupiedCells(r)) <==> AllOnRoad(d, OccupiedCells(r.(front := front)))
  {
    RoadContainsRect(d, r);
    RoadContainsRect(d, r.(front := front));
  }

  /** A consistent road's vehicles all lie in the road's lanes. */
  lemma ConsistentOnRoad(d: Dims, cells: CellMap, cars: seq<Cars.Car>, bikes: seq<Bike>)
    requires d.len > 0 && Consistent(d, cells, cars, bikes)
    ensures CarsOnRoad(d, cars) && BikesOnRoad(d, bikes)
  {
    ConsistentParts(d, cells, cars, bikes);
    assert forall i :: 0 <= i < |cars| ==> BlockFits(d, map[], CarBlocks(cars)[i]);
    assert forall i :: 0 <= i < |bikes| ==> BlockFits(d, CarMap(d, cars), BikeBlocks(bikes)[i]);
  }

  /** The forward step moves bikes only along their lanes, so they stay in the road's lanes. */
  lemma ForwardStaysOnRoad(v: RoadView, bikes: seq<Bike>, decelerate: seq<bool>)
    requires v.dims.len > 0 && |decelerate| == |bikes|
    requires forall i :: 0 <= i < |bikes| ==> ForwardReady(v.dims, bikes[i])
    requires BikesOnRoad(v.dims, bikes)
    ensures BikesOnRoad(v.dims, NextBikesForward(v, bikes, decelerate))
  {
    var next := NextBikesForward(v, bikes, decelerate);
    forall i | 0 <= i < |bikes|
      ensures AllOnRoad(v.dims, BikeCells(next[i]))
    {
      OnRoadAnyFront(v.dims, bikes[i].occupation, next[i].occupation.front);
    }
  }

  /** On a consistent road of valid bikes the lateral step's preconditions hold. */
  lemma LateralReady(d: Dims, cells: CellMap, cars: seq<Cars.Car>, bikes: seq<Bike>,
                     ignore: seq<bool>, picks: seq<nat>, order: seq<nat>)
    requires d.len > 0 && Consistent(d, cells, cars, bikes)
    requires forall i :: 0 <= i < |bikes| ==> BikeValid(bikes[i])
    requires |ignore| == |bikes| && |picks| == |bikes| && IsPermutation(order, |bikes|)
    ensures forall i :: 0 <= i < |bikes| ==> SelectReady(RoadView(d, cells, cars), bikes[i], i)
    ensures AllOnLanes(d, bikes) && AllOnLanes(d, NextBikesLateral(RoadView(d, cells, cars), bikes, ignore, picks))
  {
    LateralStepKeepsConsistent(d, cells, cars, bikes, ignore, picks, order);
  }

  /** The outcome of the lateral step on a consistent road of valid bikes is again consistent and valid. */
  lemma LateralOutcomeValid(d: Dims, cells: CellMap, cars: seq<Cars.Car>, bikes: seq<Bike>,
                            ignore: seq<bool>, picks: seq<nat>, order: seq<nat>, cells': CellMap, bikes': seq<Bike>)
    requires d.len > 0 && Consistent(d, cells, cars, bikes)
    requires forall i :: 0 <= i < |bikes| ==> BikeValid(bikes[i])
    requires |ignore| == |bikes| && |picks| == |bikes| && IsPermutation(order, |bikes|)
    requires forall i :: 0 <= i < |bikes| && !ignore[i] ==> SelectReady(RoadView(d, cells, cars), bikes[i], i)
    requires AllOnLanes(d, bikes) && AllOnLanes(d, NextBikesLateral(RoadView(d, cells, cars), bikes, ignore, picks))
    requires forall n :: n in order ==> n < |bikes|
    requires (cells', bikes') == SettleBikes(d, cells - AllKeys(d, BikeBlocks(bikes)), bikes,
      NextBikesLateral(RoadView(d, cells, cars), bikes, ignore, picks), order)
    ensures Consistent(d, cells', cars, bikes') && forall i :: 0 <= i < |bikes'| ==> BikeValid(bikes'[i])
  {
    LateralStepKeepsConsistent(d, cells, cars, bikes, ignore, picks, order);
  }

  /** On a consistent road of valid bikes the forward step's preconditions hold. */
  lemma ForwardReadyOnRoad(d: Dims, cells: CellMap, cars: seq<Cars.Car>, bikes: seq<Bike>, decelerate: seq<bool>)
    requires d.len > 0 && Consistent(d, cells, cars, bikes) && |decelerate| == |bikes|
    requires forall i :: 0 <= i < |bikes| ==> BikeValid(bikes[i])
    ensures forall i :: 0 <= i < |bikes| ==> ForwardReady(d, bikes[i])
    ensures BikesOnRoad(d, bikes)
  {
    ForwardStepKeepsConsistent(d, cells, cars, bikes, decelerate);
    ConsistentOnRoad(d, cells, cars, bikes);
  }

  class Road {
    const dims: Dims
    const bikes: array<Bike>
    const cars: array<Cars.Car>
    var cells: CellMap

    /** The read-only snapshot the vehicles' update rules consult. */
    function View(): RoadView
      reads this, cars
    {
      RoadView(dims, cells, cars[..])
    }

    /**
     * The road's invariant: a road of positive length whose map is exactly the one built
     * from its cars and bikes, every bike as its builder's validation leaves it.
     */
    predicate Valid()
      reads this, bikes, cars
    {
      dims.len > 0 && Consistent(dims, cells, cars[..], bikes[..]) &&
      forall i :: 0 <= i < bikes.Length ==> BikeValid(bikes[i])
    }

    /** A road holding the given vehicles and an empty map, as `Road::new` first makes it. */
    constructor Empty(d: Dims, bs: seq<Bike>, cs: seq<Cars.Car>)
      ensures dims == d && bikes[..] == bs && cars[..] == cs && cells == map[]
      ensures fresh(bikes) && fresh(cars)
    {
      dims := d;
      bikes := new Bike[|bs|](i requires 0 <= i < |bs| => bs[i]);
      cars := new Cars.Car[|cs|](i requires 0 <= i < |cs| => cs[i]);
      cells := map[];
    }

    /**
     * The insert loop of `try_from` and of both forward updates: validate each cell of each
     * block in turn and insert its key, stopping at the first cell off the road, or at the
     * first key already taken (whose insert has then already replaced the entry).
     */
    method InsertBlocks(bs: seq<Block>) returns (r: Placement)
      requires dims.len > 0
      modifies this
      ensures r == PlaceBlocks(dims, old(cells), bs) && cells == r.cells
    {
      ghost var goal := PlaceBlocks(dims, cells, bs);
      var i := 0;
      while i < |bs|
        invariant 0 <= i <= |bs|
        invariant goal == PlaceBlocks(dims, cells, bs[i..])
      {
        assert bs[i..][0] == bs[i] && bs[i..][1..] == bs[i + 1..];
        var cs := bs[i].cells;
        var owner := bs[i].owner;
        var j := 0;
        while j < |cs|
          invariant 0 <= j <= |cs|
          invariant goal == AndThen(dims, PlaceCells(dims, cells, cs[j..], owner), bs[i + 1..])
        {
          assert cs[j..][0] == cs[j] && cs[j..][1..] == cs[j + 1..];
          match ValidateCoord(dims, cs[j]) {
            case Err(e) =>
              return OffRoad(cells, cs[j], e);
            case Ok(k) =>
              if k in cells {
                var found := cells[k];
                cells := cells[k := owner];
                return Collision(cells, cs[j], found);
              }
              cells := cells[k := owner];
          }
          j := j + 1;
        }
        assert cs[j..] == [];
        i := i + 1;
      }
      assert bs[i..] == [];
      r := Placed(cells);
    }

    /** `RoadCells::insert` for each cell in turn: validate it and enter its key for `v`, replacing any entry. */
    method InsertCells(cs: seq<Coord>, v: Vehicle)
      requires dims.len > 0 && AllOnRoad(dims, cs)
      modifies this
      ensures cells == old(cells) + KeyMap(dims, cs, v)
    {
      var j := 0;
      while j < |cs|
        invariant 0 <= j <= |cs|
        invariant cells == old(cells) + KeyMap(dims, cs[..j], v)
      {
        assert cs[j] in cs;
        var k := ValidateCoord(dims, cs[j]).value;
        cells := cells[k := v];
        KeyMapSnoc(dims, cs, j, v);
        j := j + 1;
      }
      assert cs[..j] == cs;
    }

    /** The removal loop of `wipe_*_from_cells`: validate each cell of each block and remove its key. */
    method WipeBlocks(bs: seq<Block>)
      requires dims.len > 0 && forall i :: 0 <= i < |bs| ==> AllOnRoad(dims, bs[i].cells)
      modifies this
      ensures cells == old(cells) - AllKeys(dims, bs)
    {
      var i := 0;
      while i < |bs|
        invariant 0 <= i <= |bs|
        invariant cells == old(cells) - AllKeys(dims, bs[..i])
      {
        var cs := bs[i].cells;
        var j := 0;
        while j < |cs|
          invariant 0 <= j <= |cs|
          invariant cells == old(cells) - (AllKeys(dims, bs[..i]) + KeySet(dims, cs[..j]))
        {
          assert cs[j] in cs;
          var k := ValidateCoord(dims, cs[j]).value;
          cells := cells - {k};
          KeySetSnoc(dims, cs, j);
          j := j + 1;
        }
        assert cs[..j] == cs;
        AllKeysSnoc(dims, bs, i);
        i := i + 1;
      }
      assert bs[..i] == bs;
    }

    /** `wipe_bikes_from_cells`: remove every key a bike holds. */
    method WipeBikesFromCells()
      requires dims.len > 0 && BikesOnRoad(dims, bikes[..])
      modifies this
      ensures cells == old(cells) - AllKeys(dims, BikeBlocks(bikes[..]))
    {
      WipeBlocks(BikeBlocks(bikes[..]));
    }

    /** `wipe_cars_from_cells`: remove every key a car holds. */
    method WipeCarsFromCells()
      requires dims.len > 0 && CarsOnRoad(dims, cars[..])
      modifies this
      ensures cells == old(cells) - AllKeys(dims, CarBlocks(cars[..]))
    {
      WipeBlocks(CarBlocks(cars[..]));
    }

    /**
     * `Road::new`: a road holding the given vehicles whose map is built by `try_from`. It
     * fails exactly when building the map fails, and otherwise the road is valid.
     */
    static method New(d: Dims, bs: seq<Bike>, cs: seq<Cars.Car>) returns (r: Result<Road, CellsError>)
      requires d.len > 0
      ensures r.Ok? <==> TryFromRoad(d, cs, bs).Ok?
      ensures r.Err? ==> TryFromRoad(d, cs, bs) == Err(r.error)
      ensures r.Ok? ==> fresh(r.value) && fresh(r.value.bikes) && fresh(r.value.cars)
      ensures r.Ok? ==> r.value.dims == d && r.value.bikes[..] == bs && r.value.cars[..] == cs
      ensures r.Ok? ==> r.value.cells == TryFromRoad(d, cs, bs).value
      ensures r.Ok? && (forall i :: 0 <= i < |bs| ==> BikeValid(bs[i])) ==> r.value.Valid()
    {
      var road := new Road.Empty(d, bs, cs);
      var placed := road.InsertBlocks(Blocks(cs, bs));
      match placed {
        case Placed(_) => r := Ok(road);
        case OffRoad(_, at, e) => r := Err(CellOffRoad(at, e));
        case Collision(_, at, found) => r := Err(CellTaken(at, found));
      }
    }

    /** Replace every bike by its next state, in place. */
    method SetBikes(next: seq<Bike>)
      requires |next| == bikes.Length
      modifies bikes
      ensures bikes[..] == next
    {
      forall i | 0 <= i < bikes.Length {
        bikes[i] := next[i];
      }
    }

    /** Replace every car by its next state, in place. */
    method SetCars(next: seq<Cars.Car>)
      requires |next| == cars.Length
      modifies cars
      ensures cars[..] == next
    {
      forall i | 0 <= i < cars.Length {
        cars[i] := next[i];
      }
    }

    /**
     * `bikes_forward_update`: every bike's forward step against the road as it stands, then
     * wipe the bikes and insert their new cells. A taken key ends the update with an error,
     * leaving the map as far as it got and the bikes as they were; otherwise the bikes are
     * replaced and no other entry changes. On a valid road it never fails, and the road
     * stays valid.
     */
    method BikesForwardUpdate(decelerate: seq<bool>) returns (r: Result<(), UpdateError>)
      requires dims.len > 0 && |decelerate| == bikes.Length
      requires forall i :: 0 <= i < bikes.Length ==> ForwardReady(dims, bikes[i])
      requires BikesOnRoad(dims, bikes[..])
      modifies this, bikes
      ensures var next := NextBikesForward(old(View()), old(bikes[..]), decelerate);
        var placed := PlaceBlocks(dims, old(cells) - AllKeys(dims, BikeBlocks(old(bikes[..]))), BikeBlocks(next));
        cells == placed.cells && (r.Ok? <==> placed.Placed?) &&
        bikes[..] == (if r.Ok? then next else old(bikes[..]))
      ensures r.Ok? ==> forall k :: k in old(cells) && k !in AllKeys(dims, BikeBlocks(old(bikes[..]))) ==>
        k in cells && cells[k] == old(cells)[k]
      ensures old(Valid()) ==> r.Ok? && Valid()
    {
      ghost var wasValid := Valid();
      ghost var cells0, cars0, bikes0 := cells, cars[..], bikes[..];
      var next := NextBikesForward(View(), bikes[..], decelerate);
      if wasValid {
        ForwardStepKeepsConsistent(dims, cells0, cars0, bikes0, decelerate);
      }
      ForwardStaysOnRoad(View(), bikes[..], decelerate);
      WipeBikesFromCells();
      PlaceBlocksOnRoad(dims, cells, BikeBlocks(next));
      ghost var wiped := cells;
      assert wiped == cells0 - AllKeys(dims, BikeBlocks(bikes0));
      var placed := InsertBlocks(BikeBlocks(next));
      if placed.Placed? {
        PlacedKeepsEntries(dims, wiped, BikeBlocks(next));
        SetBikes(next);
        r := Ok(());
      } else {
        r := Err(Collided(placed.at, placed.found));
      }
    }

    /**
     * `cars_update`, given the cars' next states: wipe the cars and insert their new cells.
     * A taken key ends the update with an error, leaving the map as far as it got and the
     * cars as they were; otherwise the cars are replaced and no bike entry changes. On a
     * valid road the update succeeds exactly when the new cars fit among the bikes, and then
     * the road stays valid.
     */
    method CarsUpdate(next: seq<Cars.Car>) returns (r: Result<(), UpdateError>)
      requires dims.len > 0 && |next| == cars.Length
      requires CarsOnRoad(dims, cars[..]) && CarsOnRoad(dims, next)
      modifies this, cars
      ensures var placed := PlaceBlocks(dims, old(cells) - AllKeys(dims, CarBlocks(old(cars[..]))), CarBlocks(next));
        cells == placed.cells && (r.Ok? <==> placed.Placed?) &&
        cars[..] == (if r.Ok? then next else old(cars[..]))
      ensures r.Ok? ==> forall k :: k in old(cells) && k !in AllKeys(dims, CarBlocks(old(cars[..]))) ==>
        k in cells && cells[k] == old(cells)[k]
      ensures old(Valid()) ==> (r.Ok? <==> Fits(dims, BikeMap(dims, bikes[..]), CarBlocks(next)))
      ensures old(Valid()) && r.Ok? ==> Valid()
    {
      ghost var wasValid := Valid();
      ghost var cells0, cars0, bikes0 := cells, cars[..], bikes[..];
      WipeCarsFromCells();
      ghost var wiped := cells;
      assert wiped == cells0 - AllKeys(dims, CarBlocks(cars0));
      if wasValid {
        ConsistentWipeCars(dims, cells0, cars0, bikes0);
        if Fits(dims, wiped, CarBlocks(next)) {
          CarsSwapKeepsConsistent(dims, cells0, cars0, bikes0, next);
        }
      }
      PlaceBlocksOnRoad(dims, cells, CarBlocks(next));
      var placed := InsertBlocks(CarBlocks(next));
      if placed.Placed? {
        PlacedKeepsEntries(dims, wiped, CarBlocks(next));
        SetCars(next);
        r := Ok(());
      } else {
        r := Err(Collided(placed.at, placed.found));
      }
    }

    /**
     * One turn of the settling loop: bike `id` takes its proposal when none of its cells is
     * taken and keeps its current position otherwise, and its cells are inserted.
     */
    method SettleOne(props: seq<Bike>, id: nat)
      requires dims.len > 0 && |props| == bikes.Length && id < bikes.Length
      requires AllOnLanes(dims, bikes[..]) && AllOnLanes(dims, props)
      modifies this, bikes
      ensures var c := SettleChoice(dims, old(cells), old(bikes[..]), props, id);
        cells == old(cells) + KeyMap(dims, BikeCells(c), Vehicle.Bike(id)) && bikes[..] == old(bikes[..])[id := c]
    {
      ghost var cur := bikes[..];
      SettleUnfold(dims, cells, cur, props, [id]);
      var chosen := if |CollisionsFor(dims, cells, BikeCells(props[id]))| == 0 then props[id] else bikes[id];
      InsertCells(BikeCells(chosen), Vehicle.Bike(id));
      bikes[id] := chosen;
      assert bikes[..] == cur[id := chosen];
    }

    /**
     * The settling loop of `bikes_lateral_update`, the bikes already wiped: in `order`, each
     * bike takes its proposal when none of its cells is taken and keeps its current
     * position otherwise, inserting its cells.
     */
    method SettleInOrder(props: seq<Bike>, order: seq<nat>)
      requires dims.len > 0 && |props| == bikes.Length
      requires forall n :: n in order ==> n < bikes.Length
      requires AllOnLanes(dims, bikes[..]) && AllOnLanes(dims, props)
      modifies this, bikes
      ensures (cells, bikes[..]) == SettleBikes(dims, old(cells), old(bikes[..]), props, order)
    {
      ghost var goal := SettleBikes(dims, cells, bikes[..], props, order);
      var n := 0;
      while n < |order|
        invariant 0 <= n <= |order|
        invariant forall i :: i in order[n..] ==> i < bikes.Length
        invariant AllOnLanes(dims, bikes[..])
        invariant goal == SettleBikes(dims, cells, bikes[..], props, order[n..])
      {
        var id := order[n];
        assert order[n..][0] == id && order[n..][1..] == order[n + 1..];
        SettleUnfold(dims, cells, bikes[..], props, order[n..]);
        SettleOne(props, id);
        n := n + 1;
      }
      assert order[n..] == [];
    }

    /** Removes every bike from the map, then settles the proposals in the given order. */
    method WipeAndSettle(props: seq<Bike>, order: seq<nat>)
      requires dims.len > 0 && |props| == bikes.Length && IsPermutation(order, bikes.Length)
      requires AllOnLanes(dims, bikes[..]) && AllOnLanes(dims, props)
      modifies this, bikes
      ensures (cells, bikes[..]) == SettleBikes(dims, old(cells) - AllKeys(dims, BikeBlocks(old(bikes[..]))),
        old(bikes[..]), props, order)
    {
      assert BikesOnRoad(dims, bikes[..]);
      WipeBikesFromCells();
      assert forall i :: i in order ==> i < bikes.Length;
      SettleInOrder(props, order);
    }

    /**
     * `bikes_lateral_update`: every bike's lateral proposal against the road as it stands,
     * then wipe the bikes and settle them in the shuffled `order`. On a valid road the road
     * stays valid.
     */
    method BikesLateralUpdate(ignore: seq<bool>, picks: seq<nat>, order: seq<nat>)
      requires dims.len > 0 && |ignore| == bikes.Length && |picks| == bikes.Length
      requires IsPermutation(order, bikes.Length)
      requires forall i :: 0 <= i < bikes.Length && !ignore[i] ==> SelectReady(View(), bikes[i], i)
      requires AllOnLanes(dims, bikes[..]) && AllOnLanes(dims, NextBikesLateral(View(), bikes[..], ignore, picks))
      modifies this, bikes
      ensures (cells, bikes[..]) == SettleBikes(dims, old(cells) - AllKeys(dims, BikeBlocks(old(bikes[..]))),
        old(bikes[..]), NextBikesLateral(old(View()), old(bikes[..]), ignore, picks), order)
      ensures old(Valid()) ==> Valid()
    {
      ghost var wasValid := Valid();
      ghost var cells0, cars0, bikes0 := cells, cars[..], bikes[..];
      var props := NextBikesLateral(View(), bikes[..], ignore, picks);
      WipeAndSettle(props, order);
      if wasValid {
        LateralOutcomeValid(dims, cells0, cars0, bikes0, ignore, picks, order, cells, bikes[..]);
      }
    }

    /**
     * `update`: the lateral step, then the forward step, then the cars' step, stopping at
     * the first error. On a valid road only the cars' step can fail, and when none fails
     * the road stays valid.
     */
    method Update(ignore: seq<bool>, picks: seq<nat>, order: seq<nat>, decelerate: seq<bool>, nextCars: seq<Cars.Car>)
      returns (r: Result<(), UpdateError>)
      requires Valid()
      requires |ignore| == bikes.Length && |picks| == bikes.Length && |decelerate| == bikes.Length
      requires IsPermutation(order, bikes.Length)
      requires |nextCars| == cars.Length && CarsOnRoad(dims, nextCars)
      modifies this, bikes, cars
      ensures r.Ok? <==> Fits(dims, BikeMap(dims, bikes[..]), CarBlocks(nextCars))
      ensures r.Ok? ==> Valid() && cars[..] == nextCars
      ensures r.Err? ==> cars[..] == old(cars[..])
    {
      ghost var cells0, cars0, bikes0 := cells, cars[..], bikes[..];
      LateralReady(dims, cells0, cars0, bikes0, ignore, picks, order);
      BikesLateralUpdate(ignore, picks, order);
      assert Valid();
      ghost var cells1, cars1, bikes1 := cells, cars[..], bikes[..];
      ForwardReadyOnRoad(dims, cells1, cars1, bikes1, decelerate);
      // On a valid road the forward step succeeds, so the source's early return after it never happens.
      r := BikesForwardUpdate(decelerate);
      assert Valid();
      ghost var cells2, cars2, settled := cells, cars[..], bikes[..];
      ConsistentOnRoad(dims, cells2, cars2, settled);
      r := CarsUpdate(nextCars);
      assert bikes[..] == settled;
    }
  }
}
