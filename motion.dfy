/**
 * The road-wide steps of src/road.rs on values: every bike's forward step computed from one
 * snapshot of the road (`next_bikes_forward`), every bike's lateral proposal
 * (`next_bikes_lateral`) and the order-dependent settling of those proposals
 * (`bikes_lateral_update`). The theorems here show that the forward step can never
 * collide on a consistent road and that settling keeps the map consistent.
 */
module Motion {
  import opened Wrappers
  import opened Arith
  import opened Geometry
  import opened Cells
  import opened Queries
  import opened Placement
  import opened Bikes
  import opened Occupancy
  import Cars

  // ---------------------------------------------------------------------------------
  // Forward step

  /** `next_bikes_forward`: every bike steps forward against the same snapshot. */
  function NextBikesForward(v: RoadView, bikes: seq<Bike>, decelerate: seq<bool>): (r: seq<Bike>)
    requires v.dims.len > 0 && |decelerate| == |bikes|
    requires forall i :: 0 <= i < |bikes| ==> ForwardReady(v.dims, bikes[i])
    ensures |r| == |bikes|
    ensures forall i :: 0 <= i < |bikes| ==> r[i] == ForwardUpdate(v, bikes[i], decelerate[i])
  {
    seq(|bikes|, i requires 0 <= i < |bikes| => ForwardUpdate(v, bikes[i], decelerate[i]))
  }

  /** The key `t` cells ahead of `c` in its lane. */
  function AheadKey(d: Dims, c: Coord, t: int): Coord
    requires d.len > 0
  {
    Key(d, Coord(c.lat, c.long + t))
  }

  /** Longitudes that differ by a multiple of `L` give the same key. */
  lemma KeyCongruent(d: Dims, lat: int, a: int, b: int)
    requires d.len > 0 && (a - b) % d.len == 0
    ensures Key(d, Coord(lat, a)) == Key(d, Coord(lat, b))
  {
    var q := (a - b) / d.len;
    assert a == b + d.len * q;
    KeyPeriodic(d, Coord(lat, b), q);
  }

  /** A positive distance reduced modulo `n`: no larger, below `n`, and congruent. */
  lemma WrapOffset(n: int, x: int) returns (u: int)
    requires n > 0 && x > 0
    ensures 0 <= u <= x && u < n && (x - u) % n == 0
  {
    u := x % n;
    ModDifference(x, n);
    ModAtMost(x, n);
  }

  /** A key of `r` comes from one of its cells. */
  lemma CellOfKey(d: Dims, r: Rect, k: Coord) returns (c: Coord)
    requires d.len > 0 && k in KeySet(d, OccupiedCells(r))
    ensures Left(r) <= c.lat <= r.right && Back(r) <= c.long <= r.front
    ensures Key(d, c) == k && c.lat == k.lat
  {
    OccupiedCellsShape(r);
    c :| c in OccupiedCells(r) && Key(d, c) == k;
  }

  /** A cell of `r` whose key is `k` puts `k` among `r`'s keys. */
  lemma HeldKey(d: Dims, r: Rect, c: Coord, k: Coord)
    requires d.len > 0 && Key(d, c) == k
    requires Left(r) <= c.lat <= r.right && Back(r) <= c.long <= r.front
    ensures k in KeySet(d, OccupiedCells(r))
  {
    OccupiedCellsShape(r);
  }

  /**
   * Where a key of a rectangle moved `s` cells forward comes from: either the rectangle
   * already held it (`t == 0`), or it lies `t` cells ahead of the old front in one of the
   * rectangle's lanes, with `1 <= t <= s` and `t < L`.
   */
  lemma ForwardKeyOrigin(d: Dims, r: Rect, s: int, front: int, k: Coord) returns (t: int)
    requires d.len > 0 && r.length >= 1 && s >= 0
    requires (r.front + s - front) % d.len == 0
    requires k in KeySet(d, OccupiedCells(r.(front := front)))
    ensures Left(r) <= k.lat <= r.right
    ensures t == 0 ==> k in KeySet(d, OccupiedCells(r))
    ensures t != 0 ==> 1 <= t <= s && t < d.len && k == AheadKey(d, Coord(k.lat, r.front), t)
  {
    var c := CellOfKey(d, r.(front := front), k);
    var x := s - (front - c.long);
    assert r.front + x - c.long == r.front + s - front;
    KeyCongruent(d, c.lat, r.front + x, c.long);
    if x <= 0 {
      HeldKey(d, r, Coord(c.lat, r.front + x), k);
      t := 0;
    } else {
      var u := WrapOffset(d.len, x);
      KeyCongruent(d, c.lat, r.front + x, r.front + u);
      if u == 0 {
        HeldKey(d, r, Coord(c.lat, r.front), k);
        t := 0;
      } else {
        t := u;
      }
    }
  }

  /** Two runs ahead in one lane that reach the same key: the shorter one's start lies on the longer one. */
  lemma AheadCancel(d: Dims, lat: int, a: int, b: int, ta: int, tb: int)
    requires d.len > 0 && ta >= tb
    requires AheadKey(d, Coord(lat, a), ta) == AheadKey(d, Coord(lat, b), tb)
    ensures Key(d, Coord(lat, b)) == AheadKey(d, Coord(lat, a), ta - tb)
  {
    ModShiftCancel(b, a + (ta - tb), tb, d.len);
    assert a + (ta - tb) + tb == a + ta;
  }

  /** Every lane of `r` is free for `g` cells ahead of its front (within one turn of the ring). */
  predicate FreeAhead(d: Dims, cells: CellMap, r: Rect, g: int)
    requires d.len > 0
  {
    forall lat, t :: Left(r) <= lat <= r.right && 1 <= t <= g && t < d.len ==>
      AheadKey(d, Coord(lat, r.front), t) !in cells
  }

  /**
   * `r` moves `s >= 0` cells forward to `front` (modulo `L`) over cells that are free in
   * every one of its lanes.
   */
  predicate ForwardMove(d: Dims, cells: CellMap, r: Rect, s: int, front: int)
    requires d.len > 0
  {
    r.length >= 1 && s >= 0 && (r.front + s - front) % d.len == 0 && FreeAhead(d, cells, r, s)
  }

  /** Every key of `r` is taken in `cells`. */
  predicate HeldIn(d: Dims, cells: CellMap, r: Rect)
    requires d.len > 0
  {
    forall k :: k in KeySet(d, OccupiedCells(r)) ==> k in cells
  }

  /**
   * Two rectangles holding disjoint keys that each move forward over free cells end up on
   * disjoint keys: a shared key would put one front inside the other's free run, or both
   * fronts on one key.
   */
  lemma MovedKeysDisjoint(d: Dims, cells: CellMap, ri: Rect, si: int, fi: int, rj: Rect, sj: int, fj: int)
    requires d.len > 0 && ForwardMove(d, cells, ri, si, fi) && ForwardMove(d, cells, rj, sj, fj)
    requires HeldIn(d, cells, ri) && HeldIn(d, cells, rj)
    requires KeySet(d, OccupiedCells(ri)) !! KeySet(d, OccupiedCells(rj))
    ensures KeySet(d, OccupiedCells(ri.(front := fi))) !! KeySet(d, OccupiedCells(rj.(front := fj)))
  {
    forall k | k in KeySet(d, OccupiedCells(ri.(front := fi)))
      ensures k !in KeySet(d, OccupiedCells(rj.(front := fj)))
    {
      if k in KeySet(d, OccupiedCells(rj.(front := fj))) {
        var ti := ForwardKeyOrigin(d, ri, si, fi, k);
        var tj := ForwardKeyOrigin(d, rj, sj, fj, k);
        if ti == 0 || tj == 0 {
          assert false;
        } else {
          AheadRunsDisjoint(d, cells, ri, si, rj, sj, k.lat, ti, tj);
          assert false;
        }
      }
    }
  }

  /** The free runs ahead of two rectangles on disjoint taken keys never reach one key. */
  lemma AheadRunsDisjoint(d: Dims, cells: CellMap, ri: Rect, si: int, rj: Rect, sj: int, lat: int, ti: int, tj: int)
    requires d.len > 0 && ForwardMove(d, cells, ri, si, ri.front + si) && ForwardMove(d, cells, rj, sj, rj.front + sj)
    requires HeldIn(d, cells, ri) && HeldIn(d, cells, rj)
    requires KeySet(d, OccupiedCells(ri)) !! KeySet(d, OccupiedCells(rj))
    requires Left(ri) <= lat <= ri.right && Left(rj) <= lat <= rj.right
    requires 1 <= ti <= si && ti < d.len && 1 <= tj <= sj && tj < d.len
    ensures AheadKey(d, Coord(lat, ri.front), ti) != AheadKey(d, Coord(lat, rj.front), tj)
  {
    if AheadKey(d, Coord(lat, ri.front), ti) == AheadKey(d, Coord(lat, rj.front), tj) {
      if ti == tj {
        AheadCancel(d, lat, ri.front, rj.front, ti, tj);
        HeldKey(d, ri, Coord(lat, ri.front), AheadKey(d, Coord(lat, rj.front), 0));
        HeldKey(d, rj, Coord(lat, rj.front), AheadKey(d, Coord(lat, rj.front), 0));
        assert false;
      } else if ti > tj {
        AheadCancel(d, lat, ri.front, rj.front, ti, tj);
        HeldKey(d, rj, Coord(lat, rj.front), AheadKey(d, Coord(lat, ri.front), ti - tj));
        assert false;
      } else {
        AheadCancel(d, lat, rj.front, ri.front, tj, ti);
        HeldKey(d, ri, Coord(lat, ri.front), AheadKey(d, Coord(lat, rj.front), tj - ti));
        assert false;
      }
    }
  }

  /** A rectangle moved along its lanes stays on the road when it was on the road. */
  lemma MovedOnRoad(d: Dims, r: Rect, front: int)
    requires r.length >= 1 && AllOnRoad(d, OccupiedCells(r))
    ensures AllOnRoad(d, OccupiedCells(r.(front := front)))
  {
    OccupiedCellsShape(r);
    OccupiedCellsShape(r.(front := front));
    forall c | c in OccupiedCells(r.(front := front))
      ensures OnRoad(d, c)
    {
      assert Coord(c.lat, r.front) in OccupiedCells(r);
    }
  }

  /**
   * A bike's block moved forward over free cells still fits next to the cars: on the road,
   * on distinct keys, and on no key the cars hold.
   */
  lemma MovedBlockFits(d: Dims, cells: CellMap, carMap: CellMap, r: Rect, s: int, front: int, owner: Vehicle)
    requires d.len > 0 && ForwardMove(d, cells, r, s, front)
    requires BlockFits(d, carMap, Block(OccupiedCells(r), owner))
    requires carMap.Keys <= cells.Keys
    ensures BlockFits(d, carMap, Block(OccupiedCells(r.(front := front)), owner))
  {
    var moved := r.(front := front);
    MovedOnRoad(d, r, front);
    RectKeysDistinct(d, r);
    RectKeysDistinct(d, moved);
    forall k | k in KeySet(d, OccupiedCells(moved))
      ensures k !in carMap
    {
      var t := ForwardKeyOrigin(d, r, s, front, k);
    }
  }

  /** On a consistent road every bike's keys are taken, by that bike. */
  lemma ConsistentBikeHeld(d: Dims, cells: CellMap, cars: seq<Cars.Car>, bikes: seq<Bike>, i: int)
    requires d.len > 0 && Consistent(d, cells, cars, bikes) && 0 <= i < |bikes|
    ensures HeldIn(d, cells, bikes[i].occupation)
  {
    ConsistentParts(d, cells, cars, bikes);
    var bs := BikeBlocks(bikes);
    forall k | k in KeySet(d, OccupiedCells(bikes[i].occupation))
      ensures k in cells
    {
      assert k in KeySet(d, bs[i].cells);
      AllKeysMembership(d, bs, k);
    }
  }

  /** On a consistent road a well-formed bike can take its forward step. */
  lemma ConsistentForwardReady(d: Dims, cells: CellMap, cars: seq<Cars.Car>, bikes: seq<Bike>, i: int)
    requires d.len > 0 && Consistent(d, cells, cars, bikes) && 0 <= i < |bikes| && BikeValid(bikes[i])
    ensures AllOnRoad(d, BikeCells(bikes[i]))
    ensures ForwardReady(d, bikes[i])
  {
    ConsistentParts(d, cells, cars, bikes);
    assert BlockFits(d, CarMap(d, cars), BikeBlocks(bikes)[i]);
    FrontCellsShape(bikes[i].occupation);
  }

  /** A bike's forward step only crosses cells that were free in the snapshot. */
  lemma ForwardStepMove(v: RoadView, b: Bike, decelerate: bool)
    requires v.dims.len > 0 && ForwardReady(v.dims, b) && BikeValid(b)
    ensures var n := ForwardUpdate(v, b, decelerate);
      ForwardMove(v.dims, v.cells, b.occupation, n.forwardSpeed, n.occupation.front) &&
      n.occupation == b.occupation.(front := n.occupation.front)
  {
    ForwardUpdateKeepsValid(v, b, decelerate);
    RoadFrontGapClear(v, b.occupation);
    var s := ForwardUpdate(v, b, decelerate).forwardSpeed;
    var g := RoadFrontGap(v, b.occupation).value;
    var r := b.occupation;
    forall lat, t | Left(r) <= lat <= r.right && 1 <= t <= s && t < v.dims.len
      ensures AheadKey(v.dims, Coord(lat, r.front), t) !in v.cells
    {
      assert t <= g;
      assert !OccupiedAhead(v.dims, v.cells, Coord(lat, r.front), t);
    }
  }

  /** The road-wide facts a forward step starts from. */
  predicate ForwardStart(d: Dims, cells: CellMap, cars: seq<Cars.Car>, bikes: seq<Bike>, decelerate: seq<bool>)
  {
    d.len > 0 && Consistent(d, cells, cars, bikes) && |decelerate| == |bikes| &&
    forall i :: 0 <= i < |bikes| ==> BikeValid(bikes[i])
  }

  lemma StartReady(d: Dims, cells: CellMap, cars: seq<Cars.Car>, bikes: seq<Bike>, decelerate: seq<bool>)
    requires ForwardStart(d, cells, cars, bikes, decelerate)
    ensures forall i :: 0 <= i < |bikes| ==> ForwardReady(d, bikes[i])
  {
    forall i | 0 <= i < |bikes|
      ensures ForwardReady(d, bikes[i])
    {
      ConsistentForwardReady(d, cells, cars, bikes, i);
    }
  }

  /** Bike `i`'s moved block fits next to the cars. */
  lemma ForwardBlockFits(d: Dims, cells: CellMap, cars: seq<Cars.Car>, bikes: seq<Bike>, decelerate: seq<bool>, i: int)
    requires ForwardStart(d, cells, cars, bikes, decelerate) && 0 <= i < |bikes|
    ensures forall j :: 0 <= j < |bikes| ==> ForwardReady(d, bikes[j])
    ensures BlockFits(d, CarMap(d, cars), BikeBlocks(NextBikesForward(RoadView(d, cells, cars), bikes, decelerate))[i])
  {
    StartReady(d, cells, cars, bikes, decelerate);
    ConsistentParts(d, cells, cars, bikes);
    var v := RoadView(d, cells, cars);
    var next := NextBikesForward(v, bikes, decelerate);
    var carMap := CarMap(d, cars);
    assert carMap.Keys <= cells.Keys;
    ForwardStepMove(v, bikes[i], decelerate[i]);
    assert BlockFits(d, carMap, BikeBlocks(bikes)[i]);
    MovedBlockFits(d, cells, carMap, bikes[i].occupation, next[i].forwardSpeed,
                   next[i].occupation.front, Vehicle.Bike(i));
  }

  /** Bikes `i` and `j` move onto disjoint keys. */
  lemma ForwardBlocksDisjoint(d: Dims, cells: CellMap, cars: seq<Cars.Car>, bikes: seq<Bike>, decelerate: seq<bool>, i: int, j: int)
    requires ForwardStart(d, cells, cars, bikes, decelerate) && 0 <= i < j < |bikes|
    ensures forall n :: 0 <= n < |bikes| ==> ForwardReady(d, bikes[n])
    ensures var bs := BikeBlocks(NextBikesForward(RoadView(d, cells, cars), bikes, decelerate));
      KeySet(d, bs[i].cells) !! KeySet(d, bs[j].cells)
  {
    StartReady(d, cells, cars, bikes, decelerate);
    var v := RoadView(d, cells, cars);
    var next := NextBikesForward(v, bikes, decelerate);
    var bi, bj := bikes[i], bikes[j];
    var ni, nj := next[i], next[j];
    ForwardStepMove(v, bi, decelerate[i]);
    ForwardStepMove(v, bj, decelerate[j]);
    ConsistentBikeHeld(d, cells, cars, bikes, i);
    ConsistentBikeHeld(d, cells, cars, bikes, j);
    ConsistentBikesDisjoint(d, cells, cars, bikes, i, j);
    MovedKeysDisjoint(d, cells, bi.occupation, ni.forwardSpeed, ni.occupation.front,
                      bj.occupation, nj.forwardSpeed, nj.occupation.front);
  }

  /**
   * The forward step of `bikes_forward_update` cannot collide on a consistent road: after
   * the bikes are wiped from the map, every bike's new cells are on the road, on distinct
   * keys, free of cars and of every other bike's new cells.
   */
  lemma ForwardStepFits(d: Dims, cells: CellMap, cars: seq<Cars.Car>, bikes: seq<Bike>, decelerate: seq<bool>)
    requires d.len > 0 && Consistent(d, cells, cars, bikes) && |decelerate| == |bikes|
    requires forall i :: 0 <= i < |bikes| ==> BikeValid(bikes[i])
    ensures forall i :: 0 <= i < |bikes| ==> ForwardReady(d, bikes[i])
    ensures Fits(d, CarMap(d, cars), BikeBlocks(NextBikesForward(RoadView(d, cells, cars), bikes, decelerate)))
  {
    StartReady(d, cells, cars, bikes, decelerate);
    var bs := BikeBlocks(NextBikesForward(RoadView(d, cells, cars), bikes, decelerate));
    forall i | 0 <= i < |bs|
      ensures BlockFits(d, CarMap(d, cars), bs[i])
    {
      ForwardBlockFits(d, cells, cars, bikes, decelerate, i);
    }
    forall i, j | 0 <= i < j < |bs|
      ensures KeySet(d, bs[i].cells) !! KeySet(d, bs[j].cells)
    {
      ForwardBlocksDisjoint(d, cells, cars, bikes, decelerate, i, j);
    }
  }

  /**
   * Hence the step keeps the road consistent: after wiping the bikes, inserting the moved
   * bikes succeeds, the map it yields is the one built from the cars and the moved bikes,
   * and the moved bikes are still well-formed.
   */
  lemma ForwardStepKeepsConsistent(d: Dims, cells: CellMap, cars: seq<Cars.Car>, bikes: seq<Bike>, decelerate: seq<bool>)
    requires d.len > 0 && Consistent(d, cells, cars, bikes) && |decelerate| == |bikes|
    requires forall i :: 0 <= i < |bikes| ==> BikeValid(bikes[i])
    ensures forall i :: 0 <= i < |bikes| ==> ForwardReady(d, bikes[i])
    ensures var next := NextBikesForward(RoadView(d, cells, cars), bikes, decelerate);
      var placed := PlaceBlocks(d, cells - AllKeys(d, BikeBlocks(bikes)), BikeBlocks(next));
      placed.Placed? && Consistent(d, placed.cells, cars, next) &&
      forall i :: 0 <= i < |next| ==> BikeValid(next[i])
  {
    ForwardStepFits(d, cells, cars, bikes, decelerate);
    ConsistentParts(d, cells, cars, bikes);
    var v := RoadView(d, cells, cars);
    var next := NextBikesForward(v, bikes, decelerate);
    ConsistentJoin(d, cars, next);
    forall i | 0 <= i < |next|
      ensures BikeValid(next[i])
    {
      ForwardUpdateKeepsValid(v, bikes[i], decelerate[i]);
    }
  }
}
