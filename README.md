# Bike and car traffic on a ring road, in Dafny

This project models the core of an integer cellular-automaton traffic simulation. Bikes and cars are axis-aligned rectangles of cells on a ring road of length `L`:

- Longitudes wrap modulo `L`.
- Lanes are numbered from 0: motor lanes `[0, MLW)`, then bike lanes `[MLW, MLW + BLW)`.
- An occupancy map (`RoadCells`) records which vehicle holds each cell.

A road step has three parts:

- **Lateral step.** Every bike proposes a lateral move. The bikes are wiped from the map and re-inserted one by one in a shuffled order. Each bike takes its proposal when none of the proposal's cells is taken at its turn, and keeps its old position otherwise.
- **Forward step.** Every bike accelerates, is capped by its maximum speed and the free gap ahead, may slow down at random, and wraps round the ring.
- **Cars' step.** The cars are wiped and re-inserted at their next positions.

The modules follow the source files:

| module | file | models |
|---|---|---|
| `Geometry` | `geometry.dfy` | rectangles, `rectangle_occupation`, front cells and lane predicates (`src/road.rs`) |
| `Cells` | `cells.dfy` | `RoadCells`: coordinate validation and wrap-around, lookup, `front_gap`, `first_car_back`, `route_width` |
| `Cars` | `cars.dfy` | `src/car.rs`: the potential-speed rule, the occupied cells, the validating `try_from` |
| `Queries` | `queries.dfy` | the `Road` queries on a read-only snapshot: collisions, lane membership, `is_blocking`, `Road::front_gap` |
| `Bikes` | `bikes.dfy` | `src/bike.rs`: forward update, the y' / y'' / y* lateral pipeline, the builder |
| `Placement` | `placement.dfy` | the validate-and-insert loops as functions, with an exact characterisation of when they succeed |
| `Occupancy` | `occupancy.dfy` | vehicle positions, `try_from(&Road)`, and the consistency invariant between the map and the vehicles |
| `Motion` | `motion.dfy` | `next_bikes_forward`, and the proof that the forward step never collides on a consistent road |
| `Lateral` | `lateral.dfy` | `next_bikes_lateral` and the settling loop, with the proof that settling keeps the road consistent |
| `Traffic` | `road.dfy` | the `Road` class: arrays of bikes and cars, the map updated in place by the wipe and insert loops, and `new`/`update` |

## How the source is modelled

**The `Road` class.**
- `Road` is a class with `const` arrays `bikes` and `cars` and a mutable map field `cells`.
- The wipe, insert and settling loops are `while` loops over that map.
- Each loop is proved equal to a specification function: `PlaceBlocks`, `SettleBikes`, or a set difference.

**The road invariant.** `Valid()` says:
- the length is positive;
- the map is exactly what `try_from` would build from the current cars and bikes (`Consistent`);
- every bike is as the builder's validation leaves it (`BikeValid`).

**Main results.**
- `Road::new` succeeds exactly when `try_from` does, and gives a valid road.
- The lateral step keeps a valid road valid, whatever the shuffle order and the random draws.
- The forward step never fails on a valid road, and keeps it valid. A comment at `src/road.rs:535-536` asks whether this holds.
- On a valid road, the cars' step succeeds exactly when the new cars' cells fit beside the bikes, and it then keeps the road valid.
- So `update` on a valid road fails only in the cars' step.

**Randomness.** Every random draw is an explicit argument:
- `ignore[i]`: the lateral-ignorance Bernoulli sample;
- `decelerate[i]`: the slow-down sample;
- `picks[i]`: the index of the uniformly chosen candidate, taken modulo the number of candidates;
- `order`: the shuffle, a permutation of the bike ids.

**Panics become preconditions.** Where the source panics, the model puts a `requires` on the caller (an `unwrap` or `expect` on a coordinate, the "bike should be able to stay still" expectation). The valid-road theorems discharge those preconditions.

**Error paths.** On a failed insertion, `bikes_forward_update` and `cars_update` return an error. They leave the map as far as the loop got, including the overwriting insert that detected the collision. The vehicle array is not replaced. The model keeps this behaviour (`Placement.Collision` carries that map).

## Model

| member | source | states |
|---|---|---|
| `Geometry.Span` | src/road.rs:106-114 | the integers `lo ..= hi`, ascending: `hi - lo + 1` of them (none when `hi < lo`), entry `i` being `lo + i` |
| `Geometry.SpanMembership` | src/road.rs:106-114 | `x` is in the range iff `lo <= x <= hi` |
| `Geometry.OccupiedCellsShape` | src/road.rs:71-86 | `rectangle_occupation` yields exactly `width * length` pairwise-distinct cells; a cell is among them iff its lat is in `right-width+1 ..= right` and its long in `front-length+1 ..= front` |
| `Geometry.InRect` | src/road.rs:71-86 | membership in a rectangle, one cell at a time |
| `Geometry.FrontCellsShape` | src/road.rs:89-115 | `front_cells` is the `width` cells at `long = front`, lat ascending from `left`; they belong to the rectangle when it has any length |
| `Geometry.RectLanes` | src/road.rs:30-44 | the four lane predicates on a rectangle depend only on its left and right lanes (an empty rectangle is entirely on any side and partly on none) |
| `Cells.Key` | src/road.rs:134-150 | the key keeps the lane and brings the longitude into `[0, L)`, congruent to it modulo `L` |
| `Cells.KeyPeriodic` | src/road.rs:134-150 | keys are blind to whole turns of the ring, and a key is its own key |
| `Cells.ValidateCoord` | src/road.rs:134-150 | fails iff the lane is `< 0` (the negative-lane error) or `>= BLW+MLW`; on success the lane is unchanged and the longitude is reduced modulo `L` into `[0, L)` |
| `Cells.Get` | src/road.rs:160-163 | succeeds iff the coordinate is on the road; it then finds a vehicle iff the coordinate's key is in the map, and the vehicle it finds is the one stored under that key |
| `Cells.GetPeriodic` | src/road.rs:160-163 | looking a cell up gives the same answer a whole number of turns further on |
| `Cells.ScanAhead` | src/road.rs:206-212 | the `find` along the lane: the first occupied distance in the search window, and nothing occupied before it |
| `Cells.FrontGap` | src/road.rs:196-238 | the result is at most the search distance (default `L`), and every cell `1 ..= result` ahead within the window is free. A result below the window means the cell right after it is still inside the window and is occupied |
| `Cells.FrontGapUnique` | src/road.rs:196-238 | these properties fix the gap: any count that has free cells up to it and, below the window, an occupied cell right after it equals `front_gap` |
| `Cells.ScanBack` | src/road.rs:182-193 | the nearest distance in the window whose cell holds a car, skipping bikes; that cell holds `Car(id)`; no car lies closer |
| `Cells.FirstCarBack` | src/road.rs:171-194 | finds a car iff some cell `1 .. max_search` behind holds a car |
| `Cells.FirstCarBackNearest` | src/road.rs:183-193 | the id found is that of the car in the nearest such cell: bikes in between are passed over, and a farther car is not reported |
| `Cells.ScanLanes` | src/road.rs:242-252 | the first lane at or after `lat` holding the exact key, all lanes before it free |
| `Cells.RouteWidth` | src/road.rs:240-253 | the smallest occupied lane at `long mod L`, or `BLW+MLW` when that row is empty; every lane before it is free |
| `Cells.RouteWidthPeriodic` | src/road.rs:240-253 | the route width is periodic in `long` with period `L` |
| `Cars.NextIterationPotentialSpeed` | src/car.rs:60-62 | at most `speed + acceleration` and at most `speed_max`, and equal to one of them |
| `Cars.OccupiedCellsShape` | src/car.rs:21-24 | for lateral width `w`, the car holds `w * length` distinct cells: lanes `1 ..= w`, longitudes `front-length+1 ..= front` |
| `Cars.TryFromBuilder` | src/car.rs:86-109 | fails iff `speed_max < speed`; on success every field equals the builder's |
| `Queries.RoadContainsRect` | src/road.rs:450-454 | a rectangle is on the road iff it is empty or its lanes lie in `[0, BLW+MLW)` |
| `Queries.LanesOfRect` | src/road.rs:430-448 | a non-empty rectangle is in the motor lane or the bike lane, and in both iff it straddles `MLW` |
| `Queries.CollisionsFor` | src/road.rs:415-421 | a vehicle is reported iff it holds the key of one of the occupier's cells; at most one report per cell |
| `Queries.IsCollisionForMeaning` | src/road.rs:423-428 | `is_collision_for` holds iff some cell's key holds a vehicle other than the given one |
| `Queries.RoadFirstCarBack` | src/road.rs:487-492 | none iff no nearest car lies behind within the window; otherwise the car whose id the nearest car cell holds |
| `Queries.IsBlocking` | src/road.rs:494-503 | true iff there is a nearest car behind within the window and its potential speed is below its stored front minus the coordinate's longitude |
| `Queries.BlockingCarStoredAhead` | src/road.rs:494-503 | if blocking holds and potential speeds are non-negative, some car's stored front lies strictly ahead of the coordinate (the distance compares the stored front with the longitude it was found behind) |
| `Queries.MinFrontGap` | src/road.rs:700-705 | `min` over the front cells' gaps: none iff there are no cells, otherwise a lower bound attained by one of them |
| `Queries.RoadFrontGap` | src/road.rs:700-705 | `Road::front_gap` is none iff the occupier has width 0; otherwise it is the minimum of the cells' front gaps over the front cells, being at most each of them and equal to one of them |
| `Queries.RoadFrontGapClear` | src/road.rs:700-705 | the gap is at most `L`, and every lane of the occupier is free for the whole gap ahead of its front |
| `Bikes.AcceleratedSpeed` | src/bike.rs:234-249 | the minimum of `speed + acceleration`, `forward_speed_max` and the front gap: at most each, equal to one |
| `Bikes.ForwardUpdate` | src/bike.rs:224-264 | only `front` and `forward_speed` change; the new front lies in `[0, L)` and is `front + speed` modulo `L`; the speed is the capped speed, less one but not below 0 when slowing; it never exceeds the gap or a non-negative maximum |
| `Bikes.ForwardUpdateKeepsValid` | src/bike.rs:234-263 | a well-formed bike stays well-formed after the forward step, with a non-negative speed |
| `Bikes.PotentialLateralPositions` | src/bike.rs:35-43 | `right - rsm .. right + rsm + 1`: `2*rsm + 1` ascending values (none when `rsm < 0`) |
| `Bikes.Candidates` | src/bike.rs:92-98 | one candidate per potential lateral position; candidate `i` is the bike's rectangle with `right` moved to `right - rightward_speed_max + i` |
| `Bikes.KeepAdmissible` | src/bike.rs:99-102 | keeps exactly the candidates on the road with no cell holding another vehicle, in their original order |
| `Bikes.YPrimeSpec` | src/bike.rs:80-102 | y' is exactly the admissible rectangles equal to the occupation but for `right`, within the rightward speed, in ascending `right` order |
| `Bikes.StayingStillIsCandidate` | src/bike.rs:218-221 | a bike whose position is admissible finds that position in y' |
| `Bikes.DetermineFilter` | src/bike.rs:316-333 | `BikeLane` iff no cell lies in the motor lane; `MotorLaneBlocking` iff some does and the back-left cell is blocking |
| `Bikes.DetermineFilterBikeLane` | src/bike.rs:316-333 | the bike-lane filter applies iff the bike's left lane is at or right of `MLW` |
| `Bikes.LanePart` | src/bike.rs:348-353 | one side of the partition: exactly the candidates on that side of the motor lane, in order |
| `Bikes.LanePartSizes` | src/bike.rs:348-353 | the two sides together have as many candidates as y' |
| `Bikes.Partition` | src/bike.rs:345-353 | the first list holds exactly the candidates in the motor lane and the second exactly the others, with the lengths adding up to the input's; both keep an ascending input ascending |
| `Bikes.MotorLaneBlockingChoicesSpec` | src/bike.rs:335-365 | the result is non-empty and drawn from y'; it is the bike-lane candidates in order when there are any, else the single last motor-lane candidate |
| `Bikes.MotorLaneBlockingLoop` | src/bike.rs:335-365 | the push loop over two vectors computes exactly those choices |
| `Bikes.AvoidBlockingFilter` | src/bike.rs:367-385 | keeps a candidate iff it lies entirely at or beyond the boundary or is not blocking at its back-left cell, in order |
| `Bikes.YPrimePrime` | src/bike.rs:285-308 | y'' is drawn from y' and keeps its ascending order. Under a plain filter it is exactly the y' candidates that filter keeps. Under motor-lane blocking it is not empty: it is exactly the bike-lane candidates when there are some, and otherwise only the last candidate of y' |
| `Bikes.RightmostIndex` | src/bike.rs:267-273 | an index of maximal `right`, the last such one (as `max_by_key` returns) |
| `Bikes.RightmostSelector` | src/bike.rs:267-273 | none iff no options; otherwise an option with no option further right |
| `Bikes.UniformSelector` | src/bike.rs:275-283 | none iff no options; otherwise one of them |
| `Bikes.Select` | src/bike.rs:215-220 | the strategy's selector: none iff y'' is empty, a member otherwise, rightmost under `Rightmost` |
| `Bikes.SelectYStar` | src/bike.rs:204-222 | y* is the current occupation when y'' is empty and a member of y'' otherwise (so always the occupation or a member of y'); under `Rightmost` no y'' candidate lies further right |
| `Bikes.StayingStillMakesSelectReady` | src/bike.rs:204-222 | a well-formed bike at an admissible position never hits the "bike should be able to stay still" panic |
| `Bikes.LateralUpdate` | src/bike.rs:59-78 | only the occupation changes; nothing changes when ignoring; otherwise the new occupation is y*, so the old one or a member of y' |
| `Bikes.LateralUpdateKeepsAdmissible` | src/bike.rs:59-78 | the bike stays well-formed and admissible, keeps front, width and length, and moves `right` by at most its rightward speed |
| `Bikes.WithFrontAt` | src/bike.rs:448-450 | sets `front`, nothing else |
| `Bikes.WithRightAt` | src/bike.rs:452-454 | sets `right`, nothing else |
| `Bikes.WithFrontRightAt` | src/bike.rs:456-462 | sets `front` to the longitude and `right` to the lane, nothing else |
| `Bikes.WithLength` | src/bike.rs:464-472 | rejects `length < 1`; otherwise sets only `length` |
| `Bikes.WithWidth` | src/bike.rs:474-482 | rejects `width < 1`; otherwise sets only `width` |
| `Bikes.WithDimensions` | src/bike.rs:484-487 | rejects iff either is `< 1`, reporting the width first; otherwise sets both |
| `Bikes.WithForwardMaxSpeed` | src/bike.rs:489-500 | rejects negative values; otherwise sets only `forward_speed_max` |
| `Bikes.WithForwardSpeed` | src/bike.rs:502-513 | rejects negative values; otherwise sets only `forward_speed` |
| `Bikes.WithRightwardSpeedMax` | src/bike.rs:515-526 | rejects negative values; otherwise sets only `rightward_speed_max` |
| `Bikes.WithForwardAcceleration` | src/bike.rs:528-539 | rejects values `< 1`; otherwise sets only `forward_acceleration` |
| `Bikes.WithYStarSelectionStrategy` | src/bike.rs:567-575 | sets the strategy, nothing else |
| `Bikes.TryInto` | src/bike.rs:600-627 | fails iff `forward_speed_max < forward_speed` (reported first) or a dimension is negative; on success copies every field |
| `Bikes.BuilderValidity` | src/bike.rs:438-627 | the defaults are valid, every accepted setter keeps a builder valid, and a valid builder builds iff its speed is at most its maximum, giving a well-formed bike |
| `Bikes.DefaultBike` | src/bike.rs:415-420 | the default bike is well-formed, 2x2 at (2, 2), with the uniform selector |
| `Placement.PlaceCells` | src/road.rs:269-281 | inserting one vehicle's cells succeeds iff all are on the road, no two share a key and none is already taken; the map is then the old one plus those keys |
| `Placement.PlaceBlocks` | src/road.rs:265-283 | inserting vehicles in turn succeeds iff they fit (on the road, no key shared within, between vehicles or with the map); the map is then the old one plus every vehicle's keys mapped to it |
| `Placement.PlaceBlocksConcat` | src/road.rs:268-270 | inserting `a` then `b` (the chained iterator) is inserting `a` and, if that succeeds, `b` into the result |
| `Placement.PlaceBlocksOnRoad` | src/road.rs:541-545 | when every cell is on the road the loop never stops at an off-road cell |
| `Placement.PlacedKeepsEntries` | src/road.rs:546-556 | a successful insert loop keeps every entry it started from |
| `Occupancy.CarBlocks` | src/road.rs:392-402 | car `i`'s cells are entered as `Car(i)` |
| `Occupancy.BikeBlocks` | src/road.rs:404-413 | bike `i`'s cells are entered as `Bike(i)` |
| `Occupancy.TryFromRoadSpec` | src/road.rs:265-283 | building the map succeeds iff every vehicle cell is on the road and no key is claimed twice; the map is then every vehicle's keys sent to it |
| `Occupancy.CarCellOwned` | src/road.rs:265-283 | in a built map each key of car `i` holds `Car(i)` |
| `Occupancy.BikeCellOwned` | src/road.rs:265-283 | in a built map each key of bike `i` holds `Bike(i)` |
| `Occupancy.BuiltKeysOccupied` | src/road.rs:265-283 | a built map holds a key iff some vehicle occupies it |
| `Occupancy.ConsistentParts` | src/road.rs:350-360 | a consistent map is the cars' entries plus the bikes' entries, and wiping the bikes leaves the cars' entries |
| `Occupancy.ConsistentBikesDisjoint` | src/road.rs:350-360 | on a consistent road no two bikes share a key |
| `Occupancy.ConsistentWipeCars` | src/road.rs:623-640 | wiping the cars of a consistent map leaves exactly the bikes' entries |
| `Occupancy.BikesFitNewCars` | src/road.rs:664-688 | new cars that fit beside the bikes leave room for the bikes beside them |
| `Occupancy.CarsSwapKeepsConsistent` | src/road.rs:664-688 | wiping the cars and inserting new cars that fit gives the map built from the new cars and the bikes |
| `Occupancy.RectKeysDistinct` | src/road.rs:134-150 | a rectangle's cells have distinct keys iff it has no width or is at most `L` long |
| `Motion.NextBikesForward` | src/road.rs:654-662 | every bike's forward update, all against the same snapshot |
| `Motion.ForwardStepMove` | src/bike.rs:224-264 | the forward step moves a bike only along its lanes, by its new speed, which the free gap ahead covers |
| `Motion.MovedKeysDisjoint` | src/road.rs:534-559 | two bikes on disjoint keys, each moving within its free gap, stay on disjoint keys |
| `Motion.ConsistentForwardReady` | src/bike.rs:240-244 | on a consistent road a well-formed bike's front cells are on the road, so the gap search never panics |
| `Motion.ForwardStepFits` | src/road.rs:534-559 | on a consistent road the moved bikes fit beside the cars |
| `Motion.ForwardStepKeepsConsistent` | src/road.rs:534-559 | on a consistent road, wiping the bikes and inserting their forward-updated cells never collides, and the map is again consistent with well-formed bikes |
| `Lateral.NextBikesLateral` | src/road.rs:642-652 | every bike's lateral update, all against the same snapshot |
| `Lateral.NoCollisionsMeaning` | src/road.rs:522-525 | a proposal has no collisions iff none of its keys is taken |
| `Lateral.ConsistentLookup` | src/road.rs:265-283 | on a consistent road each key holds the owner of the vehicle it belongs to |
| `Lateral.ConsistentViewWf` | src/road.rs:479-481 | on a consistent road every car id in the map names a car, so `get_car` never panics |
| `Lateral.ConsistentOwnAdmissible` | src/bike.rs:99-102 | on a consistent road each bike's own position passes the y' filter |
| `Lateral.SettleUnfold` | src/road.rs:521-531 | one turn of the settling loop: the bike settles on the road's lanes and the rest follow |
| `Lateral.SettleStep` | src/road.rs:521-531 | one turn keeps the settling invariant |
| `Lateral.SettleRun` | src/road.rs:521-531 | the whole settling loop keeps the invariant: each bike at its old position or its proposal, settled bikes pairwise disjoint and entered in the map |
| `Lateral.ProposalFitsBeside` | src/road.rs:512-532 | an admissible lateral proposal of a bike fits beside the cars |
| `Lateral.ProposalAvoidsOthers` | src/road.rs:512-532 | an admissible proposal of a bike touches no other bike's old position |
| `Lateral.LateralStart` | src/road.rs:642-652 | on a consistent road of well-formed bikes, every bike can compute its proposal, each proposal is well-formed and admissible, and settling's preconditions hold |
| `Lateral.ConsistentOnLanes` | src/road.rs:415-421 | on a consistent road every bike is on the road's lanes, so `collisions_for` never panics |
| `Lateral.LateralStepKeepsConsistent` | src/road.rs:512-532 | for any shuffle, wiping the bikes and settling them gives a map consistent with the cars and the new bikes, each well-formed and at its old position or its proposal |
| `Lateral.SettleKeepsConsistent` | src/road.rs:521-531 | settling proposals that are on the lanes, in any order, into the wiped map of a consistent road gives a consistent road, each bike at its old position or its proposal |
| `Traffic.OnRoadAnyFront` | src/bike.rs:254-257 | whether a rectangle is on the road does not depend on its front |
| `Traffic.ConsistentOnRoad` | src/road.rs:604-640 | on a consistent road every vehicle cell is on the road, so the wipes never panic |
| `Traffic.ForwardStaysOnRoad` | src/road.rs:534-545 | the forward step keeps every bike on the road |
| `Traffic.Road.Empty` | src/road.rs:350-355 | a road holding the given vehicles and an empty map |
| `Traffic.Road.InsertBlocks` | src/road.rs:265-283 | the validate-and-insert loop ends in exactly the `PlaceBlocks` outcome, with the map it describes |
| `Traffic.Road.InsertCells` | src/road.rs:527-529 | inserting one bike's cells adds its keys for that bike, overwriting |
| `Traffic.Road.WipeBlocks` | src/road.rs:604-640 | the removal loop deletes exactly the given vehicles' keys |
| `Traffic.Road.WipeBikesFromCells` | src/road.rs:604-621 | removes exactly every bike's keys |
| `Traffic.Road.WipeCarsFromCells` | src/road.rs:623-640 | removes exactly every car's keys |
| `Traffic.Road.New` | src/road.rs:350-360 | succeeds iff `try_from` does, returning its error otherwise; the road holds the given vehicles and the built map, and is valid when its bikes are well-formed |
| `Traffic.Road.BikesForwardUpdate` | src/road.rs:534-559 | the map is the wiped map with the forward-updated bikes inserted; Ok iff no collision, and then the bikes are replaced and other entries untouched; on a valid road it never fails and the road stays valid |
| `Traffic.Road.CarsUpdate` | src/road.rs:664-688 | the map is the wiped map with the new cars inserted; Ok iff no collision, and then the cars are replaced and bike entries untouched; on a valid road it succeeds iff the new cars fit beside the bikes, and the road stays valid |
| `Traffic.Road.SettleOne` | src/road.rs:522-530 | one turn of the loop: the chosen bike, its proposal when collision-free and otherwise its old state, is entered in the map under its id and stored at its index, and nothing else changes |
| `Traffic.Road.SettleInOrder` | src/road.rs:521-531 | the settling loop produces exactly the `SettleBikes` map and bikes |
| `Traffic.Road.WipeAndSettle` | src/road.rs:521-531 | wiping the bikes, then settling the proposals in the given order, gives exactly the `SettleBikes` map and bikes over the wiped map |
| `Traffic.Road.BikesLateralUpdate` | src/road.rs:512-532 | the map and bikes are the settling of the lateral proposals into the wiped map, in the given order; a valid road stays valid |
| `Traffic.Road.Update` | src/road.rs:505-510 | on a valid road the step succeeds iff the new cars fit beside the moved bikes; then the road is valid with the new cars, and on failure the cars are unchanged |

## Left out

- Randomness (`thread_rng`, the Bernoulli samples, `shuffle`, the uniform choice) is replaced by explicit arguments, not by probabilities.
- Floating point: `lateral_occupancy` (the car's width from `const_width`, `alpha`, `beta` and speed) is the car field `lateralOccupancy`. The probability setters `with_lateral_ignorance`/`with_deceleration_prob`, and `Bernoulli::new` in `try_into`, are not modelled. Neither are `mean_car_speed`/`mean_bike_speed`.
- `car.update`, which `next_cars` calls, is not part of this model. The cars' next states are an argument of `CarsUpdate` and `Update`.
- `par_iter` in `next_bikes_*`/`next_cars` is a parallel map over one snapshot. It is modelled as a sequential map over a `RoadView` value.
- `Display` for `RoadCells`, `vehicle_positions_as_string`, the position iterators' tuple form and the hash-map capacity constants do not affect behaviour.
- The `debug_assert!`s in the wipes and in `front_gap` are not modelled. The first holds on a valid road by `ConsistentOnRoad` and the consistency invariant. The negative-distance branch of `front_gap` cannot be taken.
- `TryFrom<CarBuilder> for Car` calls itself unconditionally and does not terminate. It is not modelled.
- `y_star_cmp_priority` and `generate_y_stars` are not reachable from `select_y_star`. They are not modelled.
- `isize` overflow and `saturating_sub_unsigned` are not modelled: integers are unbounded, and `right - width + 1` never saturates.
- `Cars.Car` has no getter for `front`: `front()` returns the stored field, which the model reads directly.
- Traffic.Road.BikesLateralUpdate: takes as preconditions that every bike can run its lateral update and that every position is on the road's lanes. The source panics otherwise. On a valid road `LateralStepKeepsConsistent` establishes both.
- Traffic.Road.Update: states validity and the cars' new state, not the bikes' new positions. `BikesLateralUpdate` and `BikesForwardUpdate` state those separately. The source returns early when the forward step fails; the model calls the cars' step unconditionally, because on a valid road the forward step never fails (`BikesForwardUpdate`).
- The experiment-sweep orchestration described alongside the simulation is not part of this model. Its scripts are not among the simulation's sources.
