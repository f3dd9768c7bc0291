/**
 * The lateral half of a road update (`bikes_lateral_update` in src/road.rs): every bike
 * proposes a lateral move against one snapshot of the road (`next_bikes_lateral`), the
 * bikes are wiped from the map, and then, in a shuffled order, each bike takes its
 * proposal when none of the proposal's cells is taken at its turn, and its previous
 * position otherwise. The theorem here shows that this keeps the map consistent with the
 * vehicles.
 */
module Lateral {
  import opened Geometry
  import opened Cells
  import opened Queries
  import opened Placement
  import opened Bikes
  import opened Occupancy
  import Cars

  /** `order` lists every index below `n` exactly once (the result of a shuffle). */
  predicate IsPermutation(order: seq<nat>, n: nat)
  {
    |order| == n && Distinct(order) &&
    (forall i :: 0 <= i < |order| ==> order[i] < n) &&
    (forall i :: 0 <= i < n ==> i in order)
  }

  /** `next_bikes_lateral`: every bike's lateral proposal, computed against the same snapshot. */
  function NextBikesLateral(v: RoadView, bikes: seq<Bike>, ignore: seq<bool>, picks: seq<nat>): (r: seq<Bike>)
    requires |ignore| == |bikes| && |picks| == |bikes|
    requires forall i :: 0 <= i < |bikes| && !ignore[i] ==> SelectReady(v, bikes[i], i)
    ensures |r| == |bikes|
    ensures forall i :: 0 <= i < |bikes| ==> r[i] == LateralUpdate(v, bikes[i], i, ignore[i], picks[i])
  {
    seq(|bikes|, i requires 0 <= i < |bikes| => LateralUpdate(v, bikes[i], i, ignore[i], picks[i]))
  }

  /**
   * The settling loop of `bikes_lateral_update`, one bike of `order` at a time: bike `id`
   * takes its proposal when no cell of it is taken in `m`, otherwise its current position,
   * and its cells are inserted as `Bike(id)` (an insert overwrites whatever is there).
   */
  function SettleBikes(d: Dims, m: CellMap, cur: seq<Bike>, proposals: seq<Bike>, order: seq<nat>): (r: (CellMap, seq<Bike>))
    requires d.len > 0 && |proposals| == |cur|
    requires forall n :: n in order ==> n < |cur|
    requires AllOnLanes(d, cur) && AllOnLanes(d, proposals)
    ensures |r.1| == |cur|
    decreases |order|
  {
    if order == [] then (m, cur)
    else
      var id := order[0];
      assert id in order && forall n :: n in order[1..] ==> n in order;
      var chosen := SettleChoice(d, m, cur, proposals, id);
      SettleBikes(d, m + KeyMap(d, BikeCells(chosen), Vehicle.Bike(id)), cur[id := chosen], proposals, order[1..])
  }

  /** Bike `id`'s position after its turn: the proposal when none of its cells is taken, else where it is. */
  function SettleChoice(d: Dims, m: CellMap, cur: seq<Bike>, proposals: seq<Bike>, id: nat): Bike
    requires d.len > 0 && id < |cur| == |proposals|
    requires RoadContainsOccupier(d, BikeCells(proposals[id]))
  {
    if |CollisionsFor(d, m, BikeCells(proposals[id]))| == 0 then proposals[id] else cur[id]
  }

  /** A proposal has no collision in `m` exactly when none of its keys is taken. */
  lemma NoCollisionsMeaning(d: Dims, m: CellMap, cs: seq<Coord>)
    requires d.len > 0 && RoadContainsOccupier(d, cs)
    ensures |CollisionsFor(d, m, cs)| == 0 <==> KeySet(d, cs) !! m.Keys
  {
    if |CollisionsFor(d, m, cs)| != 0 {
      assert CollisionsFor(d, m, cs)[0] in CollisionsFor(d, m, cs);
    }
  }

  // ---------------------------------------------------------------------------------
  // What a consistent road guarantees

  /** On a consistent road each key holds the owner of the block it belongs to. */
  lemma ConsistentLookup(d: Dims, cells: CellMap, cars: seq<Cars.Car>, bikes: seq<Bike>, k: Coord) returns (i: int)
    requires d.len > 0 && Consistent(d, cells, cars, bikes) && k in cells
    ensures 0 <= i < |cars| + |bikes|
    ensures k in KeySet(d, Blocks(cars, bikes)[i].cells) && cells[k] == Blocks(cars, bikes)[i].owner
  {
    var bs := Blocks(cars, bikes);
    AllKeysMembership(d, bs, k);
    i :| 0 <= i < |bs| && k in KeySet(d, bs[i].cells);
    BlocksMapLookup(d, bs, i, k);
    EmptyUnion(BlocksMap(d, bs));
  }

  /** A consistent road's map names only cars of the road. */
  lemma ConsistentViewWf(d: Dims, cells: CellMap, cars: seq<Cars.Car>, bikes: seq<Bike>)
    requires d.len > 0 && Consistent(d, cells, cars, bikes)
    ensures ViewWf(RoadView(d, cells, cars))
  {
    forall x | x in cells.Values && x.Car?
      ensures x.id < |cars|
    {
      var k :| k in cells && cells[k] == x;
      var i := ConsistentLookup(d, cells, cars, bikes, k);
    }
  }

  /** On a consistent road a bike's own position is admissible for it. */
  lemma ConsistentOwnAdmissible(d: Dims, cells: CellMap, cars: seq<Cars.Car>, bikes: seq<Bike>, i: int)
    requires d.len > 0 && Consistent(d, cells, cars, bikes) && 0 <= i < |bikes|
    ensures Admissible(d, cells, bikes[i].occupation, i)
  {
    ConsistentParts(d, cells, cars, bikes);
    assert BlockFits(d, CarMap(d, cars), BikeBlocks(bikes)[i]);
    var occ := BikeCells(bikes[i]);
    IsCollisionForMeaning(d, cells, occ, Vehicle.Bike(i));
    forall c | c in occ && Key(d, c) in cells
      ensures cells[Key(d, c)] == Vehicle.Bike(i)
    {
      TryFromRoadSpec(d, cars, bikes);
      BikeCellOwned(d, cars, bikes, i, c);
    }
  }

  // ---------------------------------------------------------------------------------
  // Settling keeps the map consistent

  /** The keys a bike's cells wrap onto. */
  function BikeKeys(d: Dims, b: Bike): set<Coord>
    requires d.len > 0
  {
    KeySet(d, BikeCells(b))
  }

  /** Bike `i` standing at `b` fits beside the cars in `carMap`. */
  predicate FitsBeside(d: Dims, carMap: CellMap, b: Bike, i: nat)
    requires d.len > 0
  {
    BlockFits(d, carMap, Block(BikeCells(b), Vehicle.Bike(i)))
  }

  /**
   * What settling relies on: each bike's old position and its proposal fit beside the
   * cars, the old positions are pairwise disjoint, and no proposal touches another
   * bike's old position.
   */
  predicate SettleStart(d: Dims, carMap: CellMap, orig: seq<Bike>, props: seq<Bike>)
    requires d.len > 0
  {
    |props| == |orig| &&
    (forall i :: 0 <= i < |orig| ==> FitsBeside(d, carMap, orig[i], i) && FitsBeside(d, carMap, props[i], i)) &&
    (forall i, j :: 0 <= i < |orig| && 0 <= j < |orig| && i != j ==>
      BikeKeys(d, orig[i]) !! BikeKeys(d, orig[j]) && BikeKeys(d, props[i]) !! BikeKeys(d, orig[j]))
  }

  /** Every bike stands at its old position or its proposal; those still to go at the old one. */
  ghost predicate AtOldOrProposal(orig: seq<Bike>, props: seq<Bike>, cur: seq<Bike>, rest: seq<nat>)
  {
    |cur| == |orig| == |props| &&
    (forall i :: 0 <= i < |cur| ==> cur[i] == orig[i] || cur[i] == props[i]) &&
    (forall i :: 0 <= i < |cur| && i in rest ==> cur[i] == orig[i])
  }

  /** Each settled bike is disjoint from every other bike. */
  ghost predicate SettledDisjoint(d: Dims, cur: seq<Bike>, rest: seq<nat>)
    requires d.len > 0
  {
    forall i, j :: 0 <= i < |cur| && 0 <= j < |cur| && i != j && i !in rest ==>
      BikeKeys(d, cur[i]) !! BikeKeys(d, cur[j])
  }

  /** The map's keys are the cars' keys and the settled bikes' keys. */
  ghost predicate SettledKeys(d: Dims, carMap: CellMap, m: CellMap, cur: seq<Bike>, rest: seq<nat>)
    requires d.len > 0
  {
    forall k :: k in m <==> k in carMap || exists i :: 0 <= i < |cur| && i !in rest && k in BikeKeys(d, cur[i])
  }

  /** The map sends the cars' keys to the cars and each settled bike's keys to that bike. */
  ghost predicate SettledValues(d: Dims, carMap: CellMap, m: CellMap, cur: seq<Bike>, rest: seq<nat>)
    requires d.len > 0
  {
    (forall k :: k in carMap ==> k in m && m[k] == carMap[k]) &&
    (forall i, k :: 0 <= i < |cur| && i !in rest && k in BikeKeys(d, cur[i]) ==> k in m && m[k] == Vehicle.Bike(i))
  }

  /** Part way through settling, with `rest` still to go. */
  ghost predicate SettleInv(d: Dims, carMap: CellMap, orig: seq<Bike>, props: seq<Bike>, m: CellMap, cur: seq<Bike>, rest: seq<nat>)
    requires d.len > 0
  {
    AtOldOrProposal(orig, props, cur, rest) && SettledDisjoint(d, cur, rest) &&
    SettledKeys(d, carMap, m, cur, rest) && SettledValues(d, carMap, m, cur, rest)
  }

  /**
   * The bike whose turn it is lands on keys that are free in `m` and disjoint from every
   * other bike, settled or not.
   */
  lemma SettleChoiceFits(d: Dims, carMap: CellMap, orig: seq<Bike>, props: seq<Bike>, m: CellMap, cur: seq<Bike>, rest: seq<nat>)
    requires d.len > 0 && SettleStart(d, carMap, orig, props) && SettleInv(d, carMap, orig, props, m, cur, rest)
    requires rest != [] && rest[0] < |cur|
    ensures var c := SettleChoice(d, m, cur, props, rest[0]);
      (c == orig[rest[0]] || c == props[rest[0]]) && BikeKeys(d, c) !! m.Keys &&
      forall j :: 0 <= j < |cur| && j != rest[0] ==> BikeKeys(d, c) !! BikeKeys(d, cur[j])
  {
    var id := rest[0];
    assert id in rest;
    var c := SettleChoice(d, m, cur, props, id);
    NoCollisionsMeaning(d, m, BikeCells(props[id]));
    assert FitsBeside(d, carMap, c, id);
    forall j | 0 <= j < |cur| && j != id
      ensures BikeKeys(d, c) !! BikeKeys(d, cur[j])
    {
      if j !in rest {
        assert BikeKeys(d, cur[j]) !! BikeKeys(d, cur[id]);
        forall k | k in BikeKeys(d, cur[j])
          ensures k in m
        {
        }
      }
    }
    forall k | k in BikeKeys(d, c)
      ensures k !in m
    {
      if c == orig[id] {
        forall i | 0 <= i < |cur| && i !in rest
          ensures k !in BikeKeys(d, cur[i])
        {
          assert BikeKeys(d, cur[i]) !! BikeKeys(d, cur[id]);
        }
      }
    }
  }

  /**
   * After bike `rest[0]` settles at `c`, disjoint from every other bike, the settled bikes
   * are still pairwise disjoint.
   */
  lemma TurnDisjoint(d: Dims, cur: seq<Bike>, rest: seq<nat>, c: Bike)
    requires d.len > 0 && SettledDisjoint(d, cur, rest)
    requires rest != [] && rest[0] < |cur| && rest[0] !in rest[1..]
    requires forall j :: 0 <= j < |cur| && j != rest[0] ==> BikeKeys(d, c) !! BikeKeys(d, cur[j])
    ensures SettledDisjoint(d, cur[rest[0] := c], rest[1..])
  {
    var id := rest[0];
    var cur' := cur[id := c];
    forall i, j | 0 <= i < |cur'| && 0 <= j < |cur'| && i != j && i !in rest[1..]
      ensures BikeKeys(d, cur'[i]) !! BikeKeys(d, cur'[j])
    {
      if i != id && j != id {
        assert i !in rest;
        assert BikeKeys(d, cur[i]) !! BikeKeys(d, cur[j]);
      }
    }
  }

  /** After bike `rest[0]` settles at `c` and its keys are inserted, the map's keys are the cars' and the settled bikes'. */
  lemma TurnKeys(d: Dims, carMap: CellMap, m: CellMap, cur: seq<Bike>, rest: seq<nat>, c: Bike)
    requires d.len > 0 && SettledKeys(d, carMap, m, cur, rest)
    requires rest != [] && rest[0] < |cur| && rest[0] !in rest[1..]
    ensures SettledKeys(d, carMap, m + KeyMap(d, BikeCells(c), Vehicle.Bike(rest[0])), cur[rest[0] := c], rest[1..])
  {
    var id := rest[0];
    assert id in rest;
    var m' := m + KeyMap(d, BikeCells(c), Vehicle.Bike(id));
    var cur' := cur[id := c];
    var rest' := rest[1..];
    assert KeyMap(d, BikeCells(c), Vehicle.Bike(id)).Keys == BikeKeys(d, c);
    forall k
      ensures k in m' <==> k in carMap || exists i :: 0 <= i < |cur'| && i !in rest' && k in BikeKeys(d, cur'[i])
    {
      if k in BikeKeys(d, c) {
        assert cur'[id] == c && id !in rest';
      }
      if exists i :: 0 <= i < |cur'| && i !in rest' && k in BikeKeys(d, cur'[i]) {
        var i :| 0 <= i < |cur'| && i !in rest' && k in BikeKeys(d, cur'[i]);
        if i != id {
          assert i !in rest && cur'[i] == cur[i];
          assert k in m;
        }
      }
      if k in m && k !in carMap {
        var i :| 0 <= i < |cur| && i !in rest && k in BikeKeys(d, cur[i]);
        assert i != id && cur'[i] == cur[i] && i !in rest';
      }
    }
  }

  /**
   * After bike `rest[0]` settles at `c`, on keys free in `m` and disjoint from every other
   * bike, and its keys are inserted, the cars' and settled bikes' keys hold their owners.
   */
  lemma TurnValues(d: Dims, carMap: CellMap, m: CellMap, cur: seq<Bike>, rest: seq<nat>, c: Bike)
    requires d.len > 0 && SettledKeys(d, carMap, m, cur, rest) && SettledValues(d, carMap, m, cur, rest)
    requires rest != [] && rest[0] < |cur| && rest[0] !in rest[1..]
    requires BikeKeys(d, c) !! m.Keys
    requires forall j :: 0 <= j < |cur| && j != rest[0] ==> BikeKeys(d, c) !! BikeKeys(d, cur[j])
    ensures SettledValues(d, carMap, m + KeyMap(d, BikeCells(c), Vehicle.Bike(rest[0])), cur[rest[0] := c], rest[1..])
  {
    var id := rest[0];
    assert id in rest;
    var added := KeyMap(d, BikeCells(c), Vehicle.Bike(id));
    var m' := m + added;
    var cur' := cur[id := c];
    assert added.Keys == BikeKeys(d, c);
    forall i, k | 0 <= i < |cur'| && i !in rest[1..] && k in BikeKeys(d, cur'[i])
      ensures k in m' && m'[k] == Vehicle.Bike(i)
    {
      if i != id {
        assert cur'[i] == cur[i] && i !in rest;
        assert k !in added && k in m;
      } else {
        assert k in added && added[k] == Vehicle.Bike(id);
      }
    }
    forall k | k in carMap
      ensures k in m' && m'[k] == carMap[k]
    {
      assert k in m && k !in added;
    }
  }

  /** After bike `rest[0]` settles at its old position or its proposal, every bike still stands at one of its two. */
  lemma TurnPositions(orig: seq<Bike>, props: seq<Bike>, cur: seq<Bike>, rest: seq<nat>, c: Bike)
    requires AtOldOrProposal(orig, props, cur, rest)
    requires rest != [] && rest[0] < |cur| && rest[0] !in rest[1..]
    requires c == orig[rest[0]] || c == props[rest[0]]
    ensures AtOldOrProposal(orig, props, cur[rest[0] := c], rest[1..])
  {
    assert forall i :: i in rest[1..] ==> i in rest && i != rest[0];
  }

  /** One turn of the settling loop keeps the invariant, with one bike fewer to go. */
  lemma SettleStep(d: Dims, carMap: CellMap, orig: seq<Bike>, props: seq<Bike>, m: CellMap, cur: seq<Bike>, rest: seq<nat>)
    requires d.len > 0 && SettleStart(d, carMap, orig, props) && SettleInv(d, carMap, orig, props, m, cur, rest)
    requires rest != [] && rest[0] < |cur| && rest[0] !in rest[1..]
    ensures var c := SettleChoice(d, m, cur, props, rest[0]);
      SettleInv(d, carMap, orig, props, m + KeyMap(d, BikeCells(c), Vehicle.Bike(rest[0])), cur[rest[0] := c], rest[1..])
  {
    var id := rest[0];
    assert id in rest;
    var c := SettleChoice(d, m, cur, props, id);
    SettleChoiceFits(d, carMap, orig, props, m, cur, rest);
    TurnDisjoint(d, cur, rest, c);
    TurnKeys(d, carMap, m, cur, rest, c);
    TurnValues(d, carMap, m, cur, rest, c);
    TurnPositions(orig, props, cur, rest, c);
  }

  /** Every bike stands on the road's lanes (what `collisions_for` demands of a position). */
  predicate AllOnLanes(d: Dims, bikes: seq<Bike>)
  {
    forall i :: 0 <= i < |bikes| ==> RoadContainsOccupier(d, BikeCells(bikes[i]))
  }

  /** One turn of the settling loop: the bike whose turn it is settles, on the road's lanes, and the rest follow. */
  lemma SettleUnfold(d: Dims, m: CellMap, cur: seq<Bike>, props: seq<Bike>, order: seq<nat>)
    requires d.len > 0 && |props| == |cur| && order != []
    requires (forall n :: n in order ==> n < |cur|) && AllOnLanes(d, cur) && AllOnLanes(d, props)
    ensures order[0] < |cur| && forall n :: n in order[1..] ==> n < |cur|
    ensures var c := SettleChoice(d, m, cur, props, order[0]);
      AllOnLanes(d, cur[order[0] := c]) && AllOnRoad(d, BikeCells(c)) &&
      SettleBikes(d, m, cur, props, order) ==
        SettleBikes(d, m + KeyMap(d, BikeCells(c), Vehicle.Bike(order[0])), cur[order[0] := c], props, order[1..])
  {
    assert order[0] in order;
    assert forall n :: n in order[1..] ==> n in order;
  }

  /** The whole settling loop keeps the invariant, ending with no bike left to go. */
  lemma {:induction false} SettleRun(d: Dims, carMap: CellMap, orig: seq<Bike>, props: seq<Bike>, m: CellMap, cur: seq<Bike>, rest: seq<nat>)
    requires d.len > 0 && SettleStart(d, carMap, orig, props) && SettleInv(d, carMap, orig, props, m, cur, rest)
    requires Distinct(rest) && (forall n :: n in rest ==> n < |cur|)
    requires AllOnLanes(d, cur) && AllOnLanes(d, props)
    ensures var r := SettleBikes(d, m, cur, props, rest);
      SettleInv(d, carMap, orig, props, r.0, r.1, [])
    decreases |rest|
  {
    if rest != [] {
      var id := rest[0];
      assert id in rest;
      assert forall j :: 0 <= j < |rest[1..]| ==> rest[1..][j] == rest[j + 1];
      assert id !in rest[1..];
      assert Distinct(rest[1..]);
      assert forall n :: n in rest[1..] ==> n in rest;
      var c := SettleChoice(d, m, cur, props, id);
      SettleStep(d, carMap, orig, props, m, cur, rest);
      assert AllOnLanes(d, cur[id := c]);
      SettleRun(d, carMap, orig, props, m + KeyMap(d, BikeCells(c), Vehicle.Bike(id)), cur[id := c], rest[1..]);
    }
  }

  /** Once every bike has settled, the bikes fit beside the cars and beside each other. */
  lemma SettledFits(d: Dims, carMap: CellMap, orig: seq<Bike>, props: seq<Bike>, cur: seq<Bike>)
    requires d.len > 0 && SettleStart(d, carMap, orig, props)
    requires AtOldOrProposal(orig, props, cur, []) && SettledDisjoint(d, cur, [])
    ensures Fits(d, carMap, BikeBlocks(cur))
  {
    var bs := BikeBlocks(cur);
    forall i | 0 <= i < |bs|
      ensures BlockFits(d, carMap, bs[i])
    {
      assert FitsBeside(d, carMap, cur[i], i);
    }
    forall i, j | 0 <= i < j < |bs|
      ensures KeySet(d, bs[i].cells) !! KeySet(d, bs[j].cells)
    {
      assert i !in [];
      assert BikeKeys(d, cur[i]) !! BikeKeys(d, cur[j]);
    }
  }

  /** Once every bike has settled, the map's keys are the cars' keys and the bikes' keys. */
  lemma SettledMapKeys(d: Dims, carMap: CellMap, m: CellMap, cur: seq<Bike>)
    requires d.len > 0 && SettledKeys(d, carMap, m, cur, [])
    ensures m.Keys == carMap.Keys + AllKeys(d, BikeBlocks(cur))
  {
    var bs := BikeBlocks(cur);
    forall k
      ensures k in m <==> k in carMap || k in AllKeys(d, bs)
    {
      AllKeysMembership(d, bs, k);
      if k in m && k !in carMap {
        var i :| 0 <= i < |cur| && i !in [] && k in BikeKeys(d, cur[i]);
        assert k in KeySet(d, bs[i].cells);
      }
      if k in AllKeys(d, bs) {
        var i :| 0 <= i < |bs| && k in KeySet(d, bs[i].cells);
        assert k in BikeKeys(d, cur[i]) && i !in [];
      }
    }
  }

  /** A settled bike's key holds that bike. */
  lemma SettledValueOf(d: Dims, carMap: CellMap, m: CellMap, cur: seq<Bike>, rest: seq<nat>, i: int, k: Coord)
    requires d.len > 0 && SettledValues(d, carMap, m, cur, rest)
    requires 0 <= i < |cur| && i !in rest && k in BikeKeys(d, cur[i])
    ensures k in m && m[k] == Vehicle.Bike(i)
  {
  }

  /** Once every bike has settled, each key of the map holds what building the map from scratch puts there. */
  lemma SettledEntry(d: Dims, carMap: CellMap, m: CellMap, cur: seq<Bike>, k: Coord)
    requires d.len > 0 && PairwiseDisjoint(d, BikeBlocks(cur)) && SettledValues(d, carMap, m, cur, [])
    requires k in carMap || k in AllKeys(d, BikeBlocks(cur))
    ensures k in m && m[k] == (carMap + BlocksMap(d, BikeBlocks(cur)))[k]
  {
    var bs := BikeBlocks(cur);
    if k in AllKeys(d, bs) {
      AllKeysMembership(d, bs, k);
      var i :| 0 <= i < |bs| && k in KeySet(d, bs[i].cells);
      BlocksMapLookup(d, bs, i, k);
      assert bs[i].cells == BikeCells(cur[i]) && i !in [];
      SettledValueOf(d, carMap, m, cur, [], i, k);
    } else {
      assert k in carMap;
      assert m[k] == carMap[k];
    }
  }

  /**
   * Once every bike has settled, disjoint from each other and from the cars, the map is
   * the cars' entries plus the bikes' entries, as building the map from scratch would give.
   */
  lemma SettledMap(d: Dims, carMap: CellMap, m: CellMap, cur: seq<Bike>)
    requires d.len > 0 && PairwiseDisjoint(d, BikeBlocks(cur))
    requires SettledKeys(d, carMap, m, cur, []) && SettledValues(d, carMap, m, cur, [])
    ensures m == carMap + BlocksMap(d, BikeBlocks(cur))
  {
    var u := carMap + BlocksMap(d, BikeBlocks(cur));
    SettledMapKeys(d, carMap, m, cur);
    forall k | k in m
      ensures m[k] == u[k]
    {
      SettledEntry(d, carMap, m, cur, k);
    }
    MapsAgree(m, u);
  }

  /** Two maps with the same keys and the same value at each key are equal. */
  lemma MapsAgree(m: CellMap, u: CellMap)
    requires m.Keys == u.Keys && forall k :: k in m ==> m[k] == u[k]
    ensures m == u
  {
  }

  /** Before the first turn, with the bikes wiped and every bike still to go, the invariant holds. */
  lemma SettleInit(d: Dims, carMap: CellMap, orig: seq<Bike>, props: seq<Bike>, order: seq<nat>)
    requires d.len > 0 && |props| == |orig| && IsPermutation(order, |orig|)
    ensures SettleInv(d, carMap, orig, props, carMap, orig, order)
  {
  }

  // ---------------------------------------------------------------------------------
  // The proposals start the settling loop

  /** On a consistent road every key a car holds is in the map, holding a car. */
  lemma ConsistentCarKey(d: Dims, cells: CellMap, cars: seq<Cars.Car>, bikes: seq<Bike>, k: Coord)
    requires d.len > 0 && Consistent(d, cells, cars, bikes) && k in CarMap(d, cars)
    ensures k in cells && cells[k].Car?
  {
    ConsistentParts(d, cells, cars, bikes);
    var i := ConsistentLookup(d, cells, cars, bikes, k);
    var bs := Blocks(cars, bikes);
    if i >= |cars| {
      assert false;
    }
    assert bs[i] == CarBlocks(cars)[i];
  }

  /**
   * A proposal admissible for bike `i` on a consistent road, with the bike's own width and
   * length, fits beside the cars.
   */
  lemma ProposalFitsBeside(d: Dims, cells: CellMap, cars: seq<Cars.Car>, bikes: seq<Bike>, i: int, p: Bike)
    requires d.len > 0 && Consistent(d, cells, cars, bikes) && 0 <= i < |bikes|
    requires Admissible(d, cells, p.occupation, i)
    requires p.occupation == bikes[i].occupation.(right := p.occupation.right)
    ensures FitsBeside(d, CarMap(d, cars), p, i)
  {
    ConsistentParts(d, cells, cars, bikes);
    assert BlockFits(d, CarMap(d, cars), BikeBlocks(bikes)[i]);
    RectKeysDistinct(d, bikes[i].occupation);
    RectKeysDistinct(d, p.occupation);
    var cs := BikeCells(p);
    IsCollisionForMeaning(d, cells, cs, Vehicle.Bike(i));
    forall k | k in KeySet(d, cs)
      ensures k !in CarMap(d, cars)
    {
      if k in CarMap(d, cars) {
        ConsistentCarKey(d, cells, cars, bikes, k);
        assert false;
      }
    }
  }

  /** A proposal admissible for bike `i` on a consistent road touches no other bike's keys. */
  lemma ProposalAvoidsOthers(d: Dims, cells: CellMap, cars: seq<Cars.Car>, bikes: seq<Bike>, i: int, j: int, p: Bike)
    requires d.len > 0 && Consistent(d, cells, cars, bikes)
    requires 0 <= i < |bikes| && 0 <= j < |bikes| && i != j
    requires Admissible(d, cells, p.occupation, i)
    ensures BikeKeys(d, p) !! BikeKeys(d, bikes[j])
  {
    var cs := BikeCells(p);
    IsCollisionForMeaning(d, cells, cs, Vehicle.Bike(i));
    TryFromRoadSpec(d, cars, bikes);
    forall k | k in BikeKeys(d, p)
      ensures k !in BikeKeys(d, bikes[j])
    {
      if k in BikeKeys(d, bikes[j]) {
        var c :| c in cs && Key(d, c) == k;
        var c' :| c' in BikeCells(bikes[j]) && Key(d, c') == k;
        BikeCellOwned(d, cars, bikes, j, c');
        assert false;
      }
    }
  }

  /**
   * On a consistent road of valid bikes, every bike may run its lateral update, and the
   * bikes' old positions and proposals meet what settling relies on.
   */
  lemma LateralStart(d: Dims, cells: CellMap, cars: seq<Cars.Car>, bikes: seq<Bike>, ignore: seq<bool>, picks: seq<nat>)
    requires d.len > 0 && Consistent(d, cells, cars, bikes)
    requires forall i :: 0 <= i < |bikes| ==> BikeValid(bikes[i])
    requires |ignore| == |bikes| && |picks| == |bikes|
    ensures forall i :: 0 <= i < |bikes| ==> SelectReady(RoadView(d, cells, cars), bikes[i], i)
    ensures var props := NextBikesLateral(RoadView(d, cells, cars), bikes, ignore, picks);
      SettleStart(d, CarMap(d, cars), bikes, props) &&
      (forall i :: 0 <= i < |bikes| ==> BikeValid(props[i]) && Admissible(d, cells, props[i].occupation, i))
  {
    var v := RoadView(d, cells, cars);
    ConsistentViewWf(d, cells, cars, bikes);
    forall i | 0 <= i < |bikes|
      ensures SelectReady(v, bikes[i], i)
      ensures BikeValid(LateralUpdate(v, bikes[i], i, ignore[i], picks[i]))
      ensures Admissible(d, cells, LateralUpdate(v, bikes[i], i, ignore[i], picks[i]).occupation, i)
      ensures LateralUpdate(v, bikes[i], i, ignore[i], picks[i]).occupation ==
        bikes[i].occupation.(right := LateralUpdate(v, bikes[i], i, ignore[i], picks[i]).occupation.right)
    {
      ConsistentOwnAdmissible(d, cells, cars, bikes, i);
      LateralUpdateKeepsAdmissible(v, bikes[i], i, ignore[i], picks[i]);
    }
    var props := NextBikesLateral(v, bikes, ignore, picks);
    var carMap := CarMap(d, cars);
    ConsistentParts(d, cells, cars, bikes);
    forall i | 0 <= i < |bikes|
      ensures FitsBeside(d, carMap, bikes[i], i) && FitsBeside(d, carMap, props[i], i)
    {
      assert BlockFits(d, carMap, BikeBlocks(bikes)[i]);
      ProposalFitsBeside(d, cells, cars, bikes, i, props[i]);
    }
    forall i, j | 0 <= i < |bikes| && 0 <= j < |bikes| && i != j
      ensures BikeKeys(d, bikes[i]) !! BikeKeys(d, bikes[j]) && BikeKeys(d, props[i]) !! BikeKeys(d, bikes[j])
    {
      ConsistentBikesDisjoint(d, cells, cars, bikes, i, j);
      ProposalAvoidsOthers(d, cells, cars, bikes, i, j, props[i]);
    }
  }

  // ---------------------------------------------------------------------------------
  // The lateral step keeps the map consistent

  /** On a consistent road every bike stands on the road's lanes. */
  lemma ConsistentOnLanes(d: Dims, cells: CellMap, cars: seq<Cars.Car>, bikes: seq<Bike>)
    requires d.len > 0 && Consistent(d, cells, cars, bikes)
    ensures AllOnLanes(d, bikes)
  {
    ConsistentParts(d, cells, cars, bikes);
    forall i | 0 <= i < |bikes|
      ensures RoadContainsOccupier(d, BikeCells(bikes[i]))
    {
      assert BlockFits(d, CarMap(d, cars), BikeBlocks(bikes)[i]);
    }
  }

  /**
   * `bikes_lateral_update` on a consistent road of valid bikes: every bike can compute
   * its proposal, every position handed to `collisions_for` is on the road's lanes, and
   * after wiping the bikes and settling them in any shuffled order the map is again the
   * one built from the cars and the new bikes; each bike is valid and stands at its old
   * position or at its proposal.
   */
  lemma {:induction false} LateralStepKeepsConsistent(d: Dims, cells: CellMap, cars: seq<Cars.Car>, bikes: seq<Bike>,
                                   ignore: seq<bool>, picks: seq<nat>, order: seq<nat>)
    requires d.len > 0 && Consistent(d, cells, cars, bikes)
    requires forall i :: 0 <= i < |bikes| ==> BikeValid(bikes[i])
    requires |ignore| == |bikes| && |picks| == |bikes| && IsPermutation(order, |bikes|)
    ensures forall i :: 0 <= i < |bikes| ==> SelectReady(RoadView(d, cells, cars), bikes[i], i)
    ensures var props := NextBikesLateral(RoadView(d, cells, cars), bikes, ignore, picks);
      AllOnLanes(d, bikes) && AllOnLanes(d, props) &&
      var r := SettleBikes(d, cells - AllKeys(d, BikeBlocks(bikes)), bikes, props, order);
      Consistent(d, r.0, cars, r.1) &&
      forall i :: 0 <= i < |bikes| ==> BikeValid(r.1[i]) && (r.1[i] == bikes[i] || r.1[i] == props[i])
  {
    LateralStart(d, cells, cars, bikes, ignore, picks);
    var props := NextBikesLateral(RoadView(d, cells, cars), bikes, ignore, picks);
    ConsistentOnLanes(d, cells, cars, bikes);
    assert AllOnLanes(d, props);
    SettleKeepsConsistent(d, cells, cars, bikes, props, order);
  }

  /**
   * Settling, in any order, proposals that start the loop into the map with the bikes wiped
   * gives the consistent map of the cars and the settled bikes, each at its old position or
   * at its proposal.
   */
  lemma SettleKeepsConsistent(d: Dims, cells: CellMap, cars: seq<Cars.Car>, bikes: seq<Bike>,
                              props: seq<Bike>, order: seq<nat>)
    requires d.len > 0 && Consistent(d, cells, cars, bikes)
    requires SettleStart(d, CarMap(d, cars), bikes, props) && IsPermutation(order, |bikes|)
    requires AllOnLanes(d, bikes) && AllOnLanes(d, props)
    ensures var r := SettleBikes(d, cells - AllKeys(d, BikeBlocks(bikes)), bikes, props, order);
      Consistent(d, r.0, cars, r.1) &&
      forall i :: 0 <= i < |bikes| ==> r.1[i] == bikes[i] || r.1[i] == props[i]
  {
    var carMap := CarMap(d, cars);
    ConsistentParts(d, cells, cars, bikes);
    SettleInit(d, carMap, bikes, props, order);
    SettleRun(d, carMap, bikes, props, carMap, bikes, order);
    var r := SettleBikes(d, carMap, bikes, props, order);
    SettledFits(d, carMap, bikes, props, r.1);
    SettledMap(d, carMap, r.0, r.1);
    ConsistentJoin(d, cars, r.1);
  }
}
