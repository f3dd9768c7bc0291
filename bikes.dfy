/**
 * Bikes (src/bike.rs): the forward step (accelerate, cap, slow down at random, wrap round
 * the ring), the lateral step (candidate lanes, the y' availability filter, the y'' filter
 * chosen by the bike's lane and the traffic behind it, and the y* selector) and the
 * validating builder. The random draws are parameters: `ignore` and `decelerate` are the
 * Bernoulli samples, `pick` indexes the uniformly chosen candidate.
 */
module Bikes {
  import opened Wrappers
  import opened Arith
  import opened Geometry
  import opened Cells
  import opened Queries

  datatype Strategy = Rightmost | UniformRandom

  /** A bike: its rectangle of cells and its motion parameters (the probabilities are not modelled). */
  datatype Bike = Bike(
    occupation: Rect,
    forwardSpeedMax: int,
    forwardSpeed: int,
    forwardAcceleration: int,
    rightwardSpeedMax: int,
    strategy: Strategy)

  /** The bike's cells (`RoadOccupier for Bike`): those of its rectangle. */
  function BikeCells(b: Bike): seq<Coord>
  {
    OccupiedCells(b.occupation)
  }

  /** What a bike built through the validating setters satisfies. */
  predicate BikeValid(b: Bike)
  {
    b.occupation.width >= 1 && b.occupation.length >= 1 &&
    0 <= b.forwardSpeed <= b.forwardSpeedMax &&
    b.forwardAcceleration >= 1 && b.rightwardSpeedMax >= 0
  }

  // ---------------------------------------------------------------------------------
  // Forward step

  /** What `forward_update` demands of a bike: a front lane to search and every front cell in a lane. */
  predicate ForwardReady(d: Dims, b: Bike)
  {
    b.occupation.width >= 1 && forall c :: c in FrontCells(b.occupation) ==> OnRoad(d, c)
  }

  /** The speed before any random slow-down: accelerate, but not beyond the maximum or the gap. */
  function AcceleratedSpeed(v: RoadView, b: Bike): (r: int)
    requires v.dims.len > 0 && ForwardReady(v.dims, b)
    ensures r <= b.forwardSpeed + b.forwardAcceleration && r <= b.forwardSpeedMax
    ensures r <= RoadFrontGap(v, b.occupation).value
    ensures r == b.forwardSpeed + b.forwardAcceleration || r == b.forwardSpeedMax ||
            r == RoadFrontGap(v, b.occupation).value
  {
    Min(Min(b.forwardSpeed + b.forwardAcceleration, b.forwardSpeedMax), RoadFrontGap(v, b.occupation).value)
  }

  /**
   * `forward_update`: move the front by the new speed, wrapped into `[0, L)`. The new speed
   * is the accelerated speed, reduced by one (not below zero) when the bike decelerates.
   * Nothing but the front and the speed changes.
   */
  function ForwardUpdate(v: RoadView, b: Bike, decelerate: bool): (r: Bike)
    requires v.dims.len > 0 && ForwardReady(v.dims, b)
    ensures r == b.(occupation := b.occupation.(front := r.occupation.front), forwardSpeed := r.forwardSpeed)
    ensures 0 <= r.occupation.front < v.dims.len
    ensures (b.occupation.front + r.forwardSpeed - r.occupation.front) % v.dims.len == 0
    ensures r.forwardSpeed == if decelerate then Max(AcceleratedSpeed(v, b) - 1, 0) else AcceleratedSpeed(v, b)
    ensures r.forwardSpeed <= RoadFrontGap(v, b.occupation).value
    ensures 0 <= b.forwardSpeedMax ==> r.forwardSpeed <= b.forwardSpeedMax
  {
    var nextSpeed := AcceleratedSpeed(v, b);
    var nextSpeed := if decelerate then Max(nextSpeed - 1, 0) else nextSpeed;
    b.(occupation := b.occupation.(front := Wrap(b.occupation.front + nextSpeed, v.dims.len)), forwardSpeed := nextSpeed)
  }

  /** A well-formed bike stays well-formed and never moves backwards. */
  lemma ForwardUpdateKeepsValid(v: RoadView, b: Bike, decelerate: bool)
    requires v.dims.len > 0 && BikeValid(b) && ForwardReady(v.dims, b)
    ensures BikeValid(ForwardUpdate(v, b, decelerate))
    ensures ForwardUpdate(v, b, decelerate).forwardSpeed >= 0
  {
    var r := ForwardUpdate(v, b, decelerate);
    assert AcceleratedSpeed(v, b) >= 0;
  }

  // ---------------------------------------------------------------------------------
  // Lateral step: candidates and the availability filter y'

  /** `potential_lateral_positions`: the right lanes `right - rsm .. right + rsm + 1`. */
  function PotentialLateralPositions(b: Bike): (r: seq<int>)
    ensures |r| == if b.rightwardSpeedMax < 0 then 0 else 2 * b.rightwardSpeedMax + 1
    ensures forall i :: 0 <= i < |r| ==> r[i] == b.occupation.right - b.rightwardSpeedMax + i
  {
    Span(b.occupation.right - b.rightwardSpeedMax, b.occupation.right + b.rightwardSpeedMax + 1 - 1)
  }

  /** The current occupation moved so that its right lane is each potential position in turn. */
  function Candidates(b: Bike): (r: seq<Rect>)
    ensures |r| == |PotentialLateralPositions(b)|
    ensures forall i :: 0 <= i < |r| ==> r[i] == b.occupation.(right := b.occupation.right - b.rightwardSpeedMax + i)
  {
    var ps := PotentialLateralPositions(b);
    seq(|ps|, i requires 0 <= i < |ps| => b.occupation.(right := ps[i]))
  }

  predicate AscendingRight(s: seq<Rect>)
  {
    forall i, j :: 0 <= i < j < |s| ==> s[i].right < s[j].right
  }

  /** A position is available to bike `id`: on the road, and no cell holds another vehicle. */
  predicate Admissible(d: Dims, cells: CellMap, occ: Rect, id: nat)
    requires d.len > 0
  {
    RoadContainsOccupier(d, OccupiedCells(occ)) &&
    !IsCollisionFor(d, cells, OccupiedCells(occ), Vehicle.Bike(id))
  }

  /** The admissible members of `cands`, in their order. */
  function KeepAdmissible(d: Dims, cells: CellMap, id: nat, cands: seq<Rect>): (r: seq<Rect>)
    requires d.len > 0
    ensures forall o :: o in r <==> o in cands && Admissible(d, cells, o, id)
    ensures AscendingRight(cands) ==> AscendingRight(r)
  {
    if cands == [] then []
    else
      var rest := KeepAdmissible(d, cells, id, cands[1..]);
      assert forall o :: o in cands <==> o == cands[0] || o in cands[1..];
      assert AscendingRight(cands) ==> forall o :: o in rest ==> cands[0].right < o.right;
      if Admissible(d, cells, cands[0], id) then [cands[0]] + rest else rest
  }

  /** `is_blocking` may be asked at the back-left corner of `occ` (a lookup there is validated). */
  predicate BackLeftSearchable(v: RoadView, occ: Rect)
    requires v.dims.len > 0
  {
    MaxSearch(v.dims, None) > 1 ==> OnRoad(v.dims, BackLeft(occ))
  }

  predicate BackLeftsSearchable(v: RoadView, yp: seq<Rect>, boundary: int)
    requires v.dims.len > 0
  {
    forall o :: o in yp && IsWithin(OccupiedCells(o), boundary) ==> BackLeftSearchable(v, o)
  }

  /** A position on the road that reaches left of some lane has its back-left corner on the road. */
  lemma OnRoadSearchable(v: RoadView, s: seq<Rect>)
    requires v.dims.len > 0
    requires forall o :: o in s ==> RoadContainsOccupier(v.dims, OccupiedCells(o))
    ensures forall boundary :: BackLeftsSearchable(v, s, boundary)
  {
    forall boundary, o | o in s && IsWithin(OccupiedCells(o), boundary)
      ensures OnRoad(v.dims, BackLeft(o))
    {
      RectLanes(o, boundary);
      RoadContainsRect(v.dims, o);
    }
  }

  /** `y_prime_j_t_plus_1`: the available candidate positions. */
  function YPrime(v: RoadView, b: Bike, id: nat): (r: seq<Rect>)
    requires v.dims.len > 0
    ensures forall boundary :: BackLeftsSearchable(v, r, boundary)
  {
    var r := KeepAdmissible(v.dims, v.cells, id, Candidates(b));
    OnRoadSearchable(v, r);
    r
  }

  /**
   * y' holds exactly the admissible rectangles that differ from the current occupation only
   * in their right lane, by at most the rightward speed, and lists them by ascending right lane.
   */
  lemma YPrimeSpec(v: RoadView, b: Bike, id: nat)
    requires v.dims.len > 0
    ensures forall o :: o in YPrime(v, b, id) <==>
      (o == b.occupation.(right := o.right) &&
       b.occupation.right - b.rightwardSpeedMax <= o.right <= b.occupation.right + b.rightwardSpeedMax &&
       Admissible(v.dims, v.cells, o, id))
    ensures AscendingRight(YPrime(v, b, id))
  {
    var cands := Candidates(b);
    var lo := b.occupation.right - b.rightwardSpeedMax;
    forall o: Rect | o == b.occupation.(right := o.right) && lo <= o.right <= b.occupation.right + b.rightwardSpeedMax
      ensures o in cands
    {
      assert cands[o.right - lo] == o;
    }
  }

  /** Staying put is available to a well-formed bike whose current position is admissible. */
  lemma StayingStillIsCandidate(v: RoadView, b: Bike, id: nat)
    requires v.dims.len > 0 && b.rightwardSpeedMax >= 0
    requires Admissible(v.dims, v.cells, b.occupation, id)
    ensures b.occupation in YPrime(v, b, id)
  {
    YPrimeSpec(v, b, id);
  }

  // ---------------------------------------------------------------------------------
  // Lateral step: the y'' filters

  datatype YPrimePrimeFilter = MotorLaneBlocking | MotorLaneNonBlocking | BikeLane

  /** `determine_y_prime_prime_j_t_plus_1_filter`. */
  function DetermineFilter(v: RoadView, current: Rect): (r: YPrimePrimeFilter)
    requires ViewWf(v)
    requires MotorLaneContainsOccupier(v.dims, OccupiedCells(current)) ==> BackLeftSearchable(v, current)
    ensures r == BikeLane <==> !MotorLaneContainsOccupier(v.dims, OccupiedCells(current))
    ensures r == MotorLaneBlocking <==>
      MotorLaneContainsOccupier(v.dims, OccupiedCells(current)) && IsBlocking(v, BackLeft(current), None)
  {
    if MotorLaneContainsOccupier(v.dims, OccupiedCells(current)) then
      if IsBlocking(v, BackLeft(current), None) then MotorLaneBlocking else MotorLaneNonBlocking
    else BikeLane
  }

  /** The filter is the bike-lane one exactly when the bike's left lane is at or right of `MLW`. */
  lemma DetermineFilterBikeLane(v: RoadView, current: Rect)
    requires ViewWf(v) && !Empty(current)
    requires MotorLaneContainsOccupier(v.dims, OccupiedCells(current)) ==> BackLeftSearchable(v, current)
    ensures DetermineFilter(v, current) == BikeLane <==> v.dims.motorLaneWidth <= Left(current)
  {
    RectLanes(current, v.dims.motorLaneWidth);
  }

  predicate InMotorLane(d: Dims, o: Rect)
  {
    MotorLaneContainsOccupier(d, OccupiedCells(o))
  }

  /** The members of `s` that are in the motor lane (`motor`) or not (`!motor`), in order. */
  function LanePart(d: Dims, s: seq<Rect>, motor: bool): (r: seq<Rect>)
    ensures forall o :: o in r <==> o in s && InMotorLane(d, o) == motor
    ensures AscendingRight(s) ==> AscendingRight(r)
  {
    if s == [] then []
    else
      var init, last := s[..|s| - 1], s[|s| - 1];
      var part := LanePart(d, init, motor);
      SnocPart(s, init, last, part);
      if InMotorLane(d, last) == motor then part + [last] else part
  }

  /** Appending `last` to an in-order selection from `init` keeps order and membership. */
  lemma SnocPart(s: seq<Rect>, init: seq<Rect>, last: Rect, part: seq<Rect>)
    requires s != [] && init == s[..|s| - 1] && last == s[|s| - 1]
    requires forall o :: o in part ==> o in init
    requires AscendingRight(init) ==> AscendingRight(part)
    ensures forall o :: o in s <==> o in init || o == last
    ensures forall o :: o in part + [last] <==> o in part || o == last
    ensures AscendingRight(s) ==> AscendingRight(part) && AscendingRight(part + [last])
  {
    assert s == init + [last];
    if AscendingRight(s) {
      assert forall o :: o in init ==> o.right < last.right;
      var r := part + [last];
      forall i, j | 0 <= i < j < |r|
        ensures r[i].right < r[j].right
      {
        if j == |r| - 1 {
          assert r[i] in part;
        }
      }
    }
  }

  /** Every member of `s` lands in exactly one of the two parts. */
  lemma {:induction false} LanePartSizes(d: Dims, s: seq<Rect>)
    ensures |LanePart(d, s, true)| + |LanePart(d, s, false)| == |s|
  {
    if s != [] {
      LanePartSizes(d, s[..|s| - 1]);
    }
  }

  /** Split `s` into its motor-lane and bike-lane members, each in order. */
  function Partition(d: Dims, s: seq<Rect>): (r: (seq<Rect>, seq<Rect>))
    ensures |r.0| + |r.1| == |s|
    ensures forall o :: o in r.0 <==> o in s && InMotorLane(d, o)
    ensures forall o :: o in r.1 <==> o in s && !InMotorLane(d, o)
    ensures AscendingRight(s) ==> AscendingRight(r.0) && AscendingRight(r.1)
  {
    LanePartSizes(d, s);
    (LanePart(d, s, true), LanePart(d, s, false))
  }

  /**
   * `y_prime_prime_motor_lane_blocking`: the bike-lane candidates if there are any, otherwise
   * the last motor-lane candidate alone. The source expects a candidate to exist.
   */
  function MotorLaneBlockingChoices(d: Dims, yp: seq<Rect>): (r: seq<Rect>)
    requires |yp| > 0
  {
    var (motor, bike) := Partition(d, yp);
    if |bike| == 0 then [motor[|motor| - 1]] else bike
  }

  lemma {:induction false} PartitionAllMotor(d: Dims, s: seq<Rect>)
    requires forall o :: o in s ==> InMotorLane(d, o)
    ensures LanePart(d, s, true) == s
  {
    if s != [] {
      var init, last := s[..|s| - 1], s[|s| - 1];
      assert s == init + [last];
      assert forall o :: o in init ==> o in s;
      PartitionAllMotor(d, init);
      assert InMotorLane(d, last);
    }
  }

  /**
   * The blocking-case choices are never empty and come from `yp`: the candidates off the motor
   * lane when there are some, otherwise only the last candidate; ascending order is kept.
   */
  lemma MotorLaneBlockingChoicesSpec(d: Dims, yp: seq<Rect>)
    requires |yp| > 0
    ensures |MotorLaneBlockingChoices(d, yp)| > 0
    ensures forall o :: o in MotorLaneBlockingChoices(d, yp) ==> o in yp
    ensures (exists o :: o in yp && !InMotorLane(d, o)) ==>
      forall o :: o in MotorLaneBlockingChoices(d, yp) <==> o in yp && !InMotorLane(d, o)
    ensures (forall o :: o in yp ==> InMotorLane(d, o)) ==> MotorLaneBlockingChoices(d, yp) == [yp[|yp| - 1]]
    ensures AscendingRight(yp) ==> AscendingRight(MotorLaneBlockingChoices(d, yp))
  {
    var (motor, bike) := Partition(d, yp);
    if forall o :: o in yp ==> InMotorLane(d, o) {
      PartitionAllMotor(d, yp);
    }
    if |bike| == 0 {
      assert motor[|motor| - 1] in motor;
    } else {
      assert bike[0] in yp && !InMotorLane(d, bike[0]);
    }
  }

  /** The loop of `y_prime_prime_motor_lane_blocking`: push each candidate onto one of two lists. */
  method MotorLaneBlockingLoop(d: Dims, yp: seq<Rect>) returns (r: seq<Rect>)
    requires |yp| > 0
    ensures r == MotorLaneBlockingChoices(d, yp)
  {
    var onMotorLane: seq<Rect> := [];
    var onBikeLane: seq<Rect> := [];
    for i := 0 to |yp|
      invariant onMotorLane == LanePart(d, yp[..i], true)
      invariant onBikeLane == LanePart(d, yp[..i], false)
    {
      assert yp[..i + 1][..i] == yp[..i];
      if InMotorLane(d, yp[i]) {
        onMotorLane := onMotorLane + [yp[i]];
      } else {
        onBikeLane := onBikeLane + [yp[i]];
      }
    }
    assert yp[..|yp|] == yp;
    if |onBikeLane| == 0 {
      r := [onMotorLane[|onMotorLane| - 1]];
    } else {
      r := onBikeLane;
    }
  }

  predicate Keeps(v: RoadView, o: Rect, boundary: int)
    requires ViewWf(v)
    requires IsWithin(OccupiedCells(o), boundary) ==> BackLeftSearchable(v, o)
  {
    !IsWithin(OccupiedCells(o), boundary) || !IsBlocking(v, BackLeft(o), None)
  }

  /**
   * `avoid_blocking_ypp_filter`: keep a candidate reaching left of `boundary` only when it is
   * not blocking at its back-left corner; keep every other candidate. Order is kept.
   */
  function AvoidBlockingFilter(v: RoadView, yp: seq<Rect>, boundary: int): (r: seq<Rect>)
    requires ViewWf(v) && BackLeftsSearchable(v, yp, boundary)
    ensures forall o :: o in r <==> o in yp && Keeps(v, o, boundary)
    ensures AscendingRight(yp) ==> AscendingRight(r)
  {
    if yp == [] then []
    else
      ConsMembers(yp);
      var rest := AvoidBlockingFilter(v, yp[1..], boundary);
      ConsPart(yp, rest);
      if Keeps(v, yp[0], boundary) then [yp[0]] + rest else rest
  }

  lemma ConsMembers(s: seq<Rect>)
    requires s != []
    ensures forall o :: o in s <==> o == s[0] || o in s[1..]
  {
    assert s == [s[0]] + s[1..];
  }

  /** Prepending the head of `s` to an in-order selection from its tail keeps order and membership. */
  lemma ConsPart(s: seq<Rect>, part: seq<Rect>)
    requires s != []
    requires forall o :: o in part ==> o in s[1..]
    requires AscendingRight(s[1..]) ==> AscendingRight(part)
    ensures forall o :: o in [s[0]] + part <==> o == s[0] || o in part
    ensures AscendingRight(s) ==> AscendingRight(part) && AscendingRight([s[0]] + part)
  {
    if AscendingRight(s) {
      assert AscendingRight(s[1..]);
      assert forall o :: o in s[1..] ==> s[0].right < o.right;
      var r := [s[0]] + part;
      forall i, j | 0 <= i < j < |r|
        ensures r[i].right < r[j].right
      {
        if i == 0 {
          assert r[j] in part;
        } else {
          assert r[i] == part[i - 1] && r[j] == part[j - 1];
        }
      }
    }
  }

  /** What `y_prime_prime_j_t_plus_1` needs of its inputs to finish without a panic. */
  predicate YPrimePrimeReady(v: RoadView, current: Rect, yp: seq<Rect>)
    requires ViewWf(v)
  {
    (MotorLaneContainsOccupier(v.dims, OccupiedCells(current)) ==> BackLeftSearchable(v, current)) &&
    (DetermineFilter(v, current) == MotorLaneBlocking ==> |yp| > 0) &&
    BackLeftsSearchable(v, yp, current.right)
  }

  /**
   * `y_prime_prime_j_t_plus_1`: the blocking case moves off the motor lane where it can; the
   * other two cases drop candidates left of the current right lane that would block.
   * The result is drawn from y' and keeps its order.
   */
  function YPrimePrime(v: RoadView, current: Rect, yp: seq<Rect>): (r: seq<Rect>)
    requires ViewWf(v) && YPrimePrimeReady(v, current, yp)
    ensures forall o :: o in r ==> o in yp
    ensures AscendingRight(yp) ==> AscendingRight(r)
    ensures DetermineFilter(v, current) != MotorLaneBlocking ==>
      forall o :: o in r <==> o in yp && Keeps(v, o, current.right)
    ensures DetermineFilter(v, current) == MotorLaneBlocking ==> |r| > 0
    ensures DetermineFilter(v, current) == MotorLaneBlocking && (exists o :: o in yp && !InMotorLane(v.dims, o)) ==>
      forall o :: o in r <==> o in yp && !InMotorLane(v.dims, o)
    ensures DetermineFilter(v, current) == MotorLaneBlocking && (forall o :: o in yp ==> InMotorLane(v.dims, o)) ==>
      r == [yp[|yp| - 1]]
  {
    match DetermineFilter(v, current)
    case MotorLaneBlocking =>
      MotorLaneBlockingChoicesSpec(v.dims, yp);
      MotorLaneBlockingChoices(v.dims, yp)
    case _ => AvoidBlockingFilter(v, yp, current.right)
  }

  // ---------------------------------------------------------------------------------
  // Lateral step: selecting y*

  /** The index of the last candidate with the largest right lane (`max_by_key` keeps the last). */
  function RightmostIndex(opts: seq<Rect>): (r: nat)
    requires |opts| > 0
    ensures r < |opts|
    ensures forall j :: 0 <= j < |opts| ==> opts[j].right <= opts[r].right
    ensures forall j :: r < j < |opts| ==> opts[j].right < opts[r].right
  {
    if |opts| == 1 then 0
    else
      var best := RightmostIndex(opts[..|opts| - 1]);
      if opts[best].right <= opts[|opts| - 1].right then |opts| - 1 else best
  }

  /** `rightmost_y_star_selector`: a candidate with the largest right lane, if any. */
  function RightmostSelector(opts: seq<Rect>): (r: Option<Rect>)
    ensures r.None? <==> |opts| == 0
    ensures r.Some? ==> r.value in opts && forall o :: o in opts ==> o.right <= r.value.right
  {
    if |opts| == 0 then None else Some(opts[RightmostIndex(opts)])
  }

  /** `uniform_y_star_selector`, with the random draw given as the index `pick` (taken modulo the count). */
  function UniformSelector(opts: seq<Rect>, pick: nat): (r: Option<Rect>)
    ensures r.None? <==> |opts| == 0
    ensures r.Some? ==> r.value in opts
  {
    if |opts| == 0 then None else Some(opts[pick % |opts|])
  }

  /** What `select_y_star` needs to finish without a panic. */
  predicate SelectReady(v: RoadView, b: Bike, id: nat)
  {
    ViewWf(v) &&
    (MotorLaneContainsOccupier(v.dims, OccupiedCells(b.occupation)) ==> BackLeftSearchable(v, b.occupation)) &&
    (DetermineFilter(v, b.occupation) == MotorLaneBlocking ==> |YPrime(v, b, id)| > 0)
  }

  /** The strategy's selector applied to the y'' candidates. */
  function Select(strategy: Strategy, ypp: seq<Rect>, pick: nat): (r: Option<Rect>)
    ensures r.None? <==> |ypp| == 0
    ensures r.Some? ==> r.value in ypp
    ensures strategy == Rightmost && r.Some? ==> forall o :: o in ypp ==> o.right <= r.value.right
  {
    match strategy
    case Rightmost => RightmostSelector(ypp)
    case UniformRandom => UniformSelector(ypp, pick)
  }

  /**
   * `select_y_star`: the selector's choice among y'', or the current occupation when y'' is
   * empty. The result is the current occupation or one of the available candidates, and
   * under the rightmost strategy no candidate of y'' lies further right.
   */
  function SelectYStar(v: RoadView, b: Bike, id: nat, pick: nat): (r: Rect)
    requires SelectReady(v, b, id)
    ensures r == b.occupation || r in YPrime(v, b, id)
    ensures |YPrimePrime(v, b.occupation, YPrime(v, b, id))| == 0 ==> r == b.occupation
    ensures |YPrimePrime(v, b.occupation, YPrime(v, b, id))| > 0 ==> r in YPrimePrime(v, b.occupation, YPrime(v, b, id))
    ensures b.strategy == Rightmost ==>
      forall o :: o in YPrimePrime(v, b.occupation, YPrime(v, b, id)) ==> o.right <= r.right
  {
    Select(b.strategy, YPrimePrime(v, b.occupation, YPrime(v, b, id)), pick).GetOr(b.occupation)
  }

  /** A well-formed bike whose position is admissible can always run `select_y_star`. */
  lemma StayingStillMakesSelectReady(v: RoadView, b: Bike, id: nat)
    requires ViewWf(v) && BikeValid(b) && Admissible(v.dims, v.cells, b.occupation, id)
    ensures SelectReady(v, b, id)
  {
    StayingStillIsCandidate(v, b, id);
    RectLanes(b.occupation, v.dims.motorLaneWidth);
    RoadContainsRect(v.dims, b.occupation);
  }

  /**
   * `lateral_update`: unless the bike ignores lateral movement this step, move it to the
   * selected y*; only the occupation changes.
   */
  function LateralUpdate(v: RoadView, b: Bike, id: nat, ignore: bool, pick: nat): (r: Bike)
    requires !ignore ==> SelectReady(v, b, id)
    ensures r == b.(occupation := r.occupation)
    ensures ignore ==> r == b
    ensures !ignore ==> r.occupation == SelectYStar(v, b, id, pick)
    ensures r.occupation == b.occupation || r.occupation in YPrime(v, b, id)
  {
    if ignore then b else b.(occupation := SelectYStar(v, b, id, pick))
  }

  /**
   * After a lateral step a well-formed bike is still well-formed and admissible, and it has
   * kept its front, width and length while moving its right lane by at most its rightward speed.
   */
  lemma LateralUpdateKeepsAdmissible(v: RoadView, b: Bike, id: nat, ignore: bool, pick: nat)
    requires ViewWf(v) && BikeValid(b) && Admissible(v.dims, v.cells, b.occupation, id)
    ensures SelectReady(v, b, id)
    ensures BikeValid(LateralUpdate(v, b, id, ignore, pick))
    ensures Admissible(v.dims, v.cells, LateralUpdate(v, b, id, ignore, pick).occupation, id)
    ensures LateralUpdate(v, b, id, ignore, pick).occupation ==
      b.occupation.(right := LateralUpdate(v, b, id, ignore, pick).occupation.right)
    ensures b.occupation.right - b.rightwardSpeedMax <= LateralUpdate(v, b, id, ignore, pick).occupation.right
      <= b.occupation.right + b.rightwardSpeedMax
  {
    StayingStillMakesSelectReady(v, b, id);
    YPrimeSpec(v, b, id);
  }

  // ---------------------------------------------------------------------------------
  // Builder

  /** The integer part of `BikeBuilder` (the two probabilities are not modelled). */
  datatype BikeBuilder = BikeBuilder(
    front: int,
    right: int,
    length: int,
    width: int,
    forwardSpeedMax: int,
    forwardSpeed: int,
    forwardAcceleration: int,
    rightwardSpeedMax: int,
    strategy: Strategy)

  datatype BuildError =
    | LengthNotPositive(length: int)
    | WidthNotPositive(width: int)
    | NegativeForwardSpeedMax(forwardSpeedMax: int)
    | NegativeForwardSpeed(forwardSpeed: int)
    | NegativeRightwardSpeedMax(rightwardSpeedMax: int)
    | AccelerationNotPositive(forwardAcceleration: int)
    | SpeedAboveMax(forwardSpeed: int, forwardSpeedMax: int)
    | NegativeDimension(value: int)

  /** `BikeBuilder::default`. */
  function DefaultBuilder(): BikeBuilder
  {
    BikeBuilder(2, 2, 2, 2, 6, 0, 1, 2, UniformRandom)
  }

  /** `BikeBuilder::deterministic_default`: the default with the rightmost selector. */
  function DeterministicDefault(): BikeBuilder
  {
    DefaultBuilder().(strategy := Rightmost)
  }

  function WithFrontAt(b: BikeBuilder, front: int): (r: BikeBuilder)
    ensures r.front == front && r == b.(front := r.front)
  {
    b.(front := front)
  }

  function WithRightAt(b: BikeBuilder, right: int): (r: BikeBuilder)
    ensures r.right == right && r == b.(right := r.right)
  {
    b.(right := right)
  }

  /** `with_front_right_at`: the coordinate's lane becomes the right lane, its longitude the front. */
  function WithFrontRightAt(b: BikeBuilder, frontRight: Coord): (r: BikeBuilder)
    ensures r == b.(front := frontRight.long, right := frontRight.lat)
  {
    WithRightAt(WithFrontAt(b, frontRight.long), frontRight.lat)
  }

  function WithLength(b: BikeBuilder, length: int): (r: Result<BikeBuilder, BuildError>)
    ensures r.Err? <==> length < 1
    ensures r.Ok? ==> r.value == b.(length := length)
  {
    if length < 1 then Err(LengthNotPositive(length)) else Ok(b.(length := length))
  }

  function WithWidth(b: BikeBuilder, width: int): (r: Result<BikeBuilder, BuildError>)
    ensures r.Err? <==> width < 1
    ensures r.Ok? ==> r.value == b.(width := width)
  {
    if width < 1 then Err(WidthNotPositive(width)) else Ok(b.(width := width))
  }

  /** `with_dimensions`: the width is checked (and reported) before the length. */
  function WithDimensions(b: BikeBuilder, width: int, length: int): (r: Result<BikeBuilder, BuildError>)
    ensures r.Err? <==> width < 1 || length < 1
    ensures r.Err? && width < 1 ==> r.error == WidthNotPositive(width)
    ensures r.Ok? ==> r.value == b.(width := width, length := length)
  {
    match WithWidth(b, width)
    case Err(e) => Err(e)
    case Ok(w) => WithLength(w, length)
  }

  function WithForwardMaxSpeed(b: BikeBuilder, forwardSpeedMax: int): (r: Result<BikeBuilder, BuildError>)
    ensures r.Err? <==> forwardSpeedMax < 0
    ensures r.Ok? ==> r.value == b.(forwardSpeedMax := forwardSpeedMax)
  {
    if forwardSpeedMax < 0 then Err(NegativeForwardSpeedMax(forwardSpeedMax))
    else Ok(b.(forwardSpeedMax := forwardSpeedMax))
  }

  function WithForwardSpeed(b: BikeBuilder, forwardSpeed: int): (r: Result<BikeBuilder, BuildError>)
    ensures r.Err? <==> forwardSpeed < 0
    ensures r.Ok? ==> r.value == b.(forwardSpeed := forwardSpeed)
  {
    if forwardSpeed < 0 then Err(NegativeForwardSpeed(forwardSpeed))
    else Ok(b.(forwardSpeed := forwardSpeed))
  }

  function WithRightwardSpeedMax(b: BikeBuilder, rightwardSpeedMax: int): (r: Result<BikeBuilder, BuildError>)
    ensures r.Err? <==> rightwardSpeedMax < 0
    ensures r.Ok? ==> r.value == b.(rightwardSpeedMax := rightwardSpeedMax)
  {
    if rightwardSpeedMax < 0 then Err(NegativeRightwardSpeedMax(rightwardSpeedMax))
    else Ok(b.(rightwardSpeedMax := rightwardSpeedMax))
  }

  function WithForwardAcceleration(b: BikeBuilder, forwardAcceleration: int): (r: Result<BikeBuilder, BuildError>)
    ensures r.Err? <==> forwardAcceleration < 1
    ensures r.Ok? ==> r.value == b.(forwardAcceleration := forwardAcceleration)
  {
    if forwardAcceleration < 1 then Err(AccelerationNotPositive(forwardAcceleration))
    else Ok(b.(forwardAcceleration := forwardAcceleration))
  }

  function WithYStarSelectionStrategy(b: BikeBuilder, strategy: Strategy): (r: BikeBuilder)
    ensures r.strategy == strategy && r == b.(strategy := r.strategy)
  {
    b.(strategy := strategy)
  }

  /**
   * `try_into` (and `build`): refuse a speed above the maximum, then a negative length or
   * width (their conversion to an unsigned size fails); otherwise copy every field.
   */
  function TryInto(b: BikeBuilder): (r: Result<Bike, BuildError>)
    ensures r.Err? <==> b.forwardSpeedMax < b.forwardSpeed || b.length < 0 || b.width < 0
    ensures r.Err? && b.forwardSpeedMax < b.forwardSpeed ==> r.error.SpeedAboveMax?
    ensures r.Ok? ==> r.value.occupation == Rect(b.front, b.right, b.width, b.length)
    ensures r.Ok? ==> (r.value.forwardSpeedMax == b.forwardSpeedMax && r.value.forwardSpeed == b.forwardSpeed &&
                       r.value.forwardAcceleration == b.forwardAcceleration &&
                       r.value.rightwardSpeedMax == b.rightwardSpeedMax && r.value.strategy == b.strategy)
  {
    if b.forwardSpeedMax < b.forwardSpeed then Err(SpeedAboveMax(b.forwardSpeed, b.forwardSpeedMax))
    else if b.length < 0 then Err(NegativeDimension(b.length))
    else if b.width < 0 then Err(NegativeDimension(b.width))
    else Ok(Bike.Bike(Rect(b.front, b.right, b.width, b.length), b.forwardSpeedMax, b.forwardSpeed,
                 b.forwardAcceleration, b.rightwardSpeedMax, b.strategy))
  }

  /** What every value reached from the default through the validating setters satisfies. */
  predicate BuilderValid(b: BikeBuilder)
  {
    b.length >= 1 && b.width >= 1 && b.forwardSpeedMax >= 0 && b.forwardSpeed >= 0 &&
    b.rightwardSpeedMax >= 0 && b.forwardAcceleration >= 1
  }

  /**
   * The defaults are valid, each accepted setter keeps a builder valid, and a valid builder
   * builds exactly when its speed does not exceed its maximum, giving a well-formed bike.
   */
  lemma BuilderValidity(b: BikeBuilder, x: int, c: Coord, s: Strategy)
    ensures BuilderValid(DefaultBuilder()) && BuilderValid(DeterministicDefault())
    ensures BuilderValid(b) ==> (BuilderValid(WithFrontAt(b, x)) && BuilderValid(WithRightAt(b, x)) &&
                                 BuilderValid(WithFrontRightAt(b, c)) && BuilderValid(WithYStarSelectionStrategy(b, s)))
    ensures BuilderValid(b) && WithLength(b, x).Ok? ==> BuilderValid(WithLength(b, x).value)
    ensures BuilderValid(b) && WithWidth(b, x).Ok? ==> BuilderValid(WithWidth(b, x).value)
    ensures BuilderValid(b) && WithForwardMaxSpeed(b, x).Ok? ==> BuilderValid(WithForwardMaxSpeed(b, x).value)
    ensures BuilderValid(b) && WithForwardSpeed(b, x).Ok? ==> BuilderValid(WithForwardSpeed(b, x).value)
    ensures BuilderValid(b) && WithRightwardSpeedMax(b, x).Ok? ==> BuilderValid(WithRightwardSpeedMax(b, x).value)
    ensures BuilderValid(b) && WithForwardAcceleration(b, x).Ok? ==> BuilderValid(WithForwardAcceleration(b, x).value)
    ensures BuilderValid(b) ==> (TryInto(b).Ok? <==> b.forwardSpeed <= b.forwardSpeedMax)
    ensures BuilderValid(b) && TryInto(b).Ok? ==> BikeValid(TryInto(b).value)
  {
  }

  /** `Bike::default`: the default builder's bike (the source expects the build to succeed). */
  function DefaultBike(): (r: Bike)
    ensures BikeValid(r) && r.strategy == UniformRandom
    ensures r.occupation == Rect(2, 2, 2, 2)
  {
    TryInto(DefaultBuilder()).value
  }
}
