/** `path_cost_and_time`: the cost of a path (handling at every port plus
    fuel along every leg, scaled by the vessel's capacity) and its travel
    time at the requested speed. Floating-point arithmetic is modelled by
    exact reals; `round(x, 2)` is the parameter `round2`. */
module Scoring {
  import opened Wrappers
  import opened Network
  import opened EdgeTable

  /** Handling costs that replace `BaseHandlingCost` at some ports. */
  type Overrides = map<Port, real>

  /** The dictionary `path_cost_and_time` returns. */
  datatype Score = Score(cost: real, timeH: real)

  /** `port_handling_overrides.get(node, BASE_HANDLING_COST)`. */
  function HandlingCost(overrides: Overrides, node: Port): real {
    if node in overrides then overrides[node] else BaseHandlingCost
  }

  /** The handling charged along `path`, every port counted, both ends
      included. */
  function HandlingTotal(overrides: Overrides, path: seq<Port>): real {
    if path == [] then 0.0
    else HandlingTotal(overrides, path[..|path| - 1]) + HandlingCost(overrides, path[|path| - 1])
  }

  /** The length of the leg from `a` to `b`: the entry of the edge table
      when there is one, the direct distance otherwise. */
  function LegDistance(edges: map<EdgeKey, EdgeInfo>, dist: (Port, Port) -> NonNeg, a: Port, b: Port): real {
    var key := SortedKey(a, b);
    if key in edges then edges[key].distanceKm else dist(a, b)
  }

  /** The scorer can measure the leg from `a` to `b`: the edge table has
      it, or both ends are in `PORTS`, where `compute_edge_info` looks up
      their coordinates. */
  predicate Measurable(edges: map<EdgeKey, EdgeInfo>, a: Port, b: Port) {
    SortedKey(a, b) in edges || (a in PortCodes && b in PortCodes)
  }

  /** Every leg of `path` can be measured. */
  predicate AllMeasurable(edges: map<EdgeKey, EdgeInfo>, path: seq<Port>) {
    forall i :: 0 <= i < |path| - 1 ==> Measurable(edges, path[i], path[i + 1])
  }

  /** The exception `path_cost_and_time` raises on `path`, if any, taking
      the legs in order: on each leg the lookup of its ends comes before
      the division by the speed. So it fails exactly when some leg cannot
      be measured or a leg is divided by a zero speed, and a zero speed
      gives `KeyError` only when the first leg cannot be measured. */
  function ScoreFault(edges: map<EdgeKey, EdgeInfo>, path: seq<Port>, speed: real): (f: Option<Fault>)
    ensures f.None? <==> |path| < 2 || (speed != 0.0 && AllMeasurable(edges, path))
    ensures f.Some? ==> |path| >= 2 && (f.value == UnknownPort <==> speed != 0.0 || !Measurable(edges, path[0], path[1]))
    ensures f.Some? ==> f.value == UnknownPort || f.value == DivisionByZero
  {
    if |path| < 2 then None
    else if !Measurable(edges, path[0], path[1]) then Some(UnknownPort)
    else if speed == 0.0 then Some(DivisionByZero)
    else
      var tail := path[1..];
      assert AllMeasurable(edges, path) <==> AllMeasurable(edges, tail) by {
        assert forall i :: 0 <= i < |tail| ==> tail[i] == path[i + 1];
        if AllMeasurable(edges, tail) {
          forall i | 0 <= i < |path| - 1
            ensures Measurable(edges, path[i], path[i + 1])
          {
            if i > 0 {
              assert tail[i - 1] == path[i];
            }
          }
        }
      }
      ScoreFault(edges, tail, speed)
  }

  /** The distance covered along `path`. */
  function DistanceTotal(edges: map<EdgeKey, EdgeInfo>, dist: (Port, Port) -> NonNeg, path: seq<Port>): real {
    if |path| < 2 then 0.0
    else DistanceTotal(edges, dist, path[..|path| - 1]) + LegDistance(edges, dist, path[|path| - 2], path[|path| - 1])
  }

  /** `max(0.5, vessel_capacity / 1000.0)`. */
  function CapacityFactor(capacity: real): (f: real)
    ensures f >= 0.5 && f >= capacity / 1000.0
    ensures f == 0.5 || f == capacity / 1000.0
  {
    if capacity / 1000.0 > 0.5 then capacity / 1000.0 else 0.5
  }

  /** The fuel cost of a leg `d` kilometres long. */
  function LegFuel(d: real, capacity: real, fuelPrice: real): real {
    d * fuelPrice * CapacityFactor(capacity)
  }

  /** The fuel cost of the legs of `path`, leg by leg. */
  function FuelTotal(edges: map<EdgeKey, EdgeInfo>, dist: (Port, Port) -> NonNeg, path: seq<Port>,
                     capacity: real, fuelPrice: real): real
  {
    if |path| < 2 then 0.0
    else
      FuelTotal(edges, dist, path[..|path| - 1], capacity, fuelPrice)
      + LegFuel(LegDistance(edges, dist, path[|path| - 2], path[|path| - 1]), capacity, fuelPrice)
  }

  /** The sailing time of a leg `d` kilometres long. */
  function LegTime(d: real, speed: real): real
    requires speed != 0.0
  {
    d / speed
  }

  /** The sailing time of the legs of `path`, leg by leg. */
  function TravelTime(edges: map<EdgeKey, EdgeInfo>, dist: (Port, Port) -> NonNeg, path: seq<Port>, speed: real): real
    requires speed != 0.0 || |path| < 2
  {
    if |path| < 2 then 0.0
    else TravelTime(edges, dist, path[..|path| - 1], speed) + LegTime(LegDistance(edges, dist, path[|path| - 2], path[|path| - 1]), speed)
  }

  /** The cost before rounding. */
  function PathCost(edges: map<EdgeKey, EdgeInfo>, dist: (Port, Port) -> NonNeg, path: seq<Port>,
                    capacity: real, overrides: Overrides, fuelPrice: real): real
  {
    HandlingTotal(overrides, path) + FuelTotal(edges, dist, path, capacity, fuelPrice)
  }

  /** `path_cost_and_time(path, vessel_capacity, port_handling_overrides,
      speed_kmh, fuel_price_per_km)` with the edge table, the direct
      distance and the rounding made explicit. It raises what `ScoreFault`
      says. */
  method PathCostAndTime(path: seq<Port>, capacity: real, overrides: Overrides, speed: real, fuelPrice: real,
                         edges: map<EdgeKey, EdgeInfo>, dist: (Port, Port) -> NonNeg, round2: real -> real)
    returns (r: Result<Score, Fault>)
    ensures r.Failure? <==> ScoreFault(edges, path, speed).Some?
    ensures r.Failure? ==> r.error == ScoreFault(edges, path, speed).value
    ensures r.Success? ==>
              r.value == Score(round2(PathCost(edges, dist, path, capacity, overrides, fuelPrice)),
                               round2(TravelTime(edges, dist, path, speed)))
  {
    var totalCost := 0.0;
    for i := 0 to |path|
      invariant totalCost == HandlingTotal(overrides, path[..i])
    {
      totalCost := totalCost + HandlingCost(overrides, path[i]);
      assert totalCost == HandlingTotal(overrides, path[..i + 1]) by {
        assert path[..i + 1][..i] == path[..i];
      }
    }
    assert path[..|path|] == path;
    var legs := LegTotals(path, capacity, speed, fuelPrice, edges, dist);
    if legs.Failure? {
      return Failure(legs.error);
    }
    var fuel, totalTime := legs.value.0, legs.value.1;
    totalCost := totalCost + fuel;
    assert totalCost == PathCost(edges, dist, path, capacity, overrides, fuelPrice);
    return Success(Score(round2(totalCost), round2(totalTime)));
  }

  /** The loop of `path_cost_and_time` over the legs: the fuel cost and
      the sailing time of `path`, or the exception `ScoreFault` names. */
  method LegTotals(path: seq<Port>, capacity: real, speed: real, fuelPrice: real,
                   edges: map<EdgeKey, EdgeInfo>, dist: (Port, Port) -> NonNeg)
    returns (r: Result<(real, real), Fault>)
    ensures r.Failure? <==> ScoreFault(edges, path, speed).Some?
    ensures r.Failure? ==> r.error == ScoreFault(edges, path, speed).value
    ensures r.Success? ==> r.value.0 == FuelTotal(edges, dist, path, capacity, fuelPrice)
                           && r.value.1 == TravelTime(edges, dist, path, speed)
  {
    if |path| < 2 {
      return Success((0.0, 0.0));
    }
    var totalCost := 0.0;
    var totalTime := 0.0;
    assert path[0..] == path;
    for i := 0 to |path| - 1
      invariant totalCost == FuelTotal(edges, dist, path[..i + 1], capacity, fuelPrice)
      invariant speed != 0.0 ==> totalTime == TravelTime(edges, dist, path[..i + 1], speed)
      invariant i > 0 ==> speed != 0.0
      invariant ScoreFault(edges, path, speed) == ScoreFault(edges, path[i..], speed)
    {
      ScoreFaultStep(edges, path, speed, i);
      var leg := MeasureLeg(edges, dist, path[i], path[i + 1]);
      if leg.None? {
        return Failure(UnknownPort);
      }
      var d := leg.value;
      totalCost := totalCost + LegFuel(d, capacity, fuelPrice);
      assert totalCost == FuelTotal(edges, dist, path[..i + 2], capacity, fuelPrice) by {
        FuelTotalStep(edges, dist, path, i, capacity, fuelPrice);
      }
      if speed == 0.0 {
        return Failure(DivisionByZero);
      }
      totalTime := totalTime + LegTime(d, speed);
      assert totalTime == TravelTime(edges, dist, path[..i + 2], speed) by {
        TravelTimeStep(edges, dist, path, i, speed);
      }
    }
    assert path[..|path| - 1 + 1] == path;
    assert ScoreFault(edges, path[|path| - 1..], speed) == None;
    return Success((totalCost, totalTime));
  }

  /** `EDGES.get(key)`, falling back on `compute_edge_info(a, b)`, which
      raises `KeyError` (here `None`) when `a` or `b` is not in `PORTS`. */
  method MeasureLeg(edges: map<EdgeKey, EdgeInfo>, dist: (Port, Port) -> NonNeg, a: Port, b: Port)
    returns (d: Option<real>)
    ensures d.None? <==> !Measurable(edges, a, b)
    ensures d.Some? ==> d.value == LegDistance(edges, dist, a, b)
  {
    var key := SortedKey(a, b);
    if key in edges {
      return Some(edges[key].distanceKm);
    }
    if a !in PortCodes || b !in PortCodes {
      return None;
    }
    return Some(dist(a, b));
  }

  /** What the scorer raises from leg `i` on: this leg's lookup, then its
      division, then the legs after it. */
  lemma ScoreFaultStep(edges: map<EdgeKey, EdgeInfo>, path: seq<Port>, speed: real, i: nat)
    requires i + 1 < |path|
    ensures ScoreFault(edges, path[i..], speed)
            == if !Measurable(edges, path[i], path[i + 1]) then Some(UnknownPort)
               else if speed == 0.0 then Some(DivisionByZero)
               else ScoreFault(edges, path[i + 1..], speed)
  {
    assert path[i..][0] == path[i] && path[i..][1] == path[i + 1] && path[i..][1..] == path[i + 1..];
  }

  /** One more leg adds its fuel cost. */
  lemma FuelTotalStep(edges: map<EdgeKey, EdgeInfo>, dist: (Port, Port) -> NonNeg, path: seq<Port>, i: nat,
                      capacity: real, fuelPrice: real)
    requires i + 1 < |path|
    ensures FuelTotal(edges, dist, path[..i + 2], capacity, fuelPrice)
            == FuelTotal(edges, dist, path[..i + 1], capacity, fuelPrice)
               + LegFuel(LegDistance(edges, dist, path[i], path[i + 1]), capacity, fuelPrice)
  {
    var p := path[..i + 2];
    assert p[..i + 1] == path[..i + 1];
    assert p[i] == path[i] && p[i + 1] == path[i + 1];
  }

  /** One more leg adds its sailing time. */
  lemma TravelTimeStep(edges: map<EdgeKey, EdgeInfo>, dist: (Port, Port) -> NonNeg, path: seq<Port>, i: nat,
                       speed: real)
    requires i + 1 < |path| && speed != 0.0
    ensures TravelTime(edges, dist, path[..i + 2], speed)
            == TravelTime(edges, dist, path[..i + 1], speed) + LegTime(LegDistance(edges, dist, path[i], path[i + 1]), speed)
  {
    var p := path[..i + 2];
    assert p[..i + 1] == path[..i + 1];
    assert p[i] == path[i] && p[i + 1] == path[i + 1];
  }

  // ---------------------------------------------------------------------
  // The cost and time in closed form.

  /** The fuel cost is the distance times the fuel price times the
      capacity factor. */
  lemma {:induction false} FuelTotalIsLinear(edges: map<EdgeKey, EdgeInfo>, dist: (Port, Port) -> NonNeg, path: seq<Port>,
                                             capacity: real, fuelPrice: real)
    ensures FuelTotal(edges, dist, path, capacity, fuelPrice)
            == DistanceTotal(edges, dist, path) * fuelPrice * CapacityFactor(capacity)
  {
    if |path| >= 2 {
      var init := path[..|path| - 1];
      FuelTotalIsLinear(edges, dist, init, capacity, fuelPrice);
      var d := LegDistance(edges, dist, path[|path| - 2], path[|path| - 1]);
      var rate := fuelPrice * CapacityFactor(capacity);
      var before := DistanceTotal(edges, dist, init);
      assert (before + d) * rate == before * rate + d * rate;
    }
  }

  /** The travel time is the distance over the speed. */
  lemma {:induction false} TravelTimeIsDistanceOverSpeed(edges: map<EdgeKey, EdgeInfo>, dist: (Port, Port) -> NonNeg,
                                                         path: seq<Port>, speed: real)
    requires speed != 0.0
    ensures TravelTime(edges, dist, path, speed) == DistanceTotal(edges, dist, path) / speed
  {
    if |path| >= 2 {
      var init := path[..|path| - 1];
      TravelTimeIsDistanceOverSpeed(edges, dist, init, speed);
      var d := LegDistance(edges, dist, path[|path| - 2], path[|path| - 1]);
      var before := DistanceTotal(edges, dist, init);
      DivideSum(before, d, speed);
    }
  }

  /** Division distributes over a sum. */
  lemma DivideSum(a: real, b: real, c: real)
    requires c != 0.0
    ensures (a + b) / c == a / c + b / c
  {
  }

  /** Every leg has a non-negative length when the table holds distances. */
  lemma {:induction false} DistanceTotalNonNegative(edges: map<EdgeKey, EdgeInfo>, dist: (Port, Port) -> NonNeg, path: seq<Port>)
    requires forall key :: key in edges ==> edges[key].distanceKm >= 0.0
    ensures DistanceTotal(edges, dist, path) >= 0.0
  {
    if |path| >= 2 {
      DistanceTotalNonNegative(edges, dist, path[..|path| - 1]);
    }
  }

  /** With no negative override, the handling along a path is not
      negative. */
  lemma {:induction false} HandlingTotalNonNegative(overrides: Overrides, path: seq<Port>)
    requires forall port :: port in overrides ==> overrides[port] >= 0.0
    ensures HandlingTotal(overrides, path) >= 0.0
  {
    if path != [] {
      HandlingTotalNonNegative(overrides, path[..|path| - 1]);
    }
  }

  /** With no negative distance in the table, no negative override and a
      fuel price that is not negative, a path costs nothing negative. */
  lemma PathCostNonNegative(edges: map<EdgeKey, EdgeInfo>, dist: (Port, Port) -> NonNeg, path: seq<Port>,
                            capacity: real, overrides: Overrides, fuelPrice: real)
    requires forall key :: key in edges ==> edges[key].distanceKm >= 0.0
    requires forall port :: port in overrides ==> overrides[port] >= 0.0
    requires fuelPrice >= 0.0
    ensures PathCost(edges, dist, path, capacity, overrides, fuelPrice) >= 0.0
  {
    HandlingTotalNonNegative(overrides, path);
    DistanceTotalNonNegative(edges, dist, path);
    CostDecomposition(edges, dist, path, capacity, overrides, fuelPrice);
    var perKm := DistanceTotal(edges, dist, path) * fuelPrice;
    assert perKm >= 0.0;
    assert perKm * CapacityFactor(capacity) >= 0.0;
  }

  /** At a positive speed, with no negative distance in the table, sailing
      a path takes no negative time. */
  lemma TravelTimeNonNegative(edges: map<EdgeKey, EdgeInfo>, dist: (Port, Port) -> NonNeg, path: seq<Port>, speed: real)
    requires forall key :: key in edges ==> edges[key].distanceKm >= 0.0
    requires speed > 0.0
    ensures TravelTime(edges, dist, path, speed) >= 0.0
  {
    DistanceTotalNonNegative(edges, dist, path);
    TravelTimeIsDistanceOverSpeed(edges, dist, path, speed);
  }

  /** The cost splits into the handling along the path and the fuel along
      its legs, the latter proportional to the distance. */
  lemma CostDecomposition(edges: map<EdgeKey, EdgeInfo>, dist: (Port, Port) -> NonNeg, path: seq<Port>,
                          capacity: real, overrides: Overrides, fuelPrice: real)
    ensures PathCost(edges, dist, path, capacity, overrides, fuelPrice)
            == HandlingTotal(overrides, path) + DistanceTotal(edges, dist, path) * fuelPrice * CapacityFactor(capacity)
  {
    FuelTotalIsLinear(edges, dist, path, capacity, fuelPrice);
  }

  /** Every capacity up to 500 tons costs the same as 500 tons. */
  lemma CapacityFloor(edges: map<EdgeKey, EdgeInfo>, dist: (Port, Port) -> NonNeg, path: seq<Port>,
                      capacity: real, overrides: Overrides, fuelPrice: real)
    requires capacity <= 500.0
    ensures PathCost(edges, dist, path, capacity, overrides, fuelPrice)
            == PathCost(edges, dist, path, 500.0, overrides, fuelPrice)
  {
    FuelTotalIsLinear(edges, dist, path, capacity, fuelPrice);
    FuelTotalIsLinear(edges, dist, path, 500.0, fuelPrice);
  }

  /** Above 500 tons, a larger vessel pays more on any path of positive
      length at a positive fuel price. */
  lemma CapacityRaisesCost(edges: map<EdgeKey, EdgeInfo>, dist: (Port, Port) -> NonNeg, path: seq<Port>,
                           small: real, large: real, overrides: Overrides, fuelPrice: real)
    requires 500.0 <= small < large && fuelPrice > 0.0
    requires DistanceTotal(edges, dist, path) > 0.0
    ensures PathCost(edges, dist, path, small, overrides, fuelPrice)
            < PathCost(edges, dist, path, large, overrides, fuelPrice)
  {
    FuelTotalIsLinear(edges, dist, path, small, fuelPrice);
    FuelTotalIsLinear(edges, dist, path, large, fuelPrice);
    var perKm := DistanceTotal(edges, dist, path) * fuelPrice;
    assert perKm > 0.0;
    assert CapacityFactor(small) < CapacityFactor(large);
    assert perKm * CapacityFactor(small) < perKm * CapacityFactor(large);
  }

  // ---------------------------------------------------------------------
  // Overrides.

  /** Changing the override of one port changes the handling of a path by
      the difference times the number of visits to that port, and leaves
      the rest of the cost alone. */
  lemma OverrideDelta(overrides: Overrides, port: Port, newCost: real, path: seq<Port>)
    ensures HandlingTotal(overrides[port := newCost], path)
            == HandlingTotal(overrides, path)
               + (newCost - HandlingCost(overrides, port)) * (multiset(path)[port] as real)
  {
    var updated := overrides[port := newCost];
    var delta := newCost - HandlingCost(overrides, port);
    assert forall x :: HandlingCost(updated, x) == if x == port then HandlingCost(overrides, x) + delta else HandlingCost(overrides, x);
    HandlingShift(overrides, updated, port, delta, path);
    VisitsIsMultiplicity(path, port);
    ScaleIsProduct(delta, Visits(path, port));
  }

  /** The number of visits to `port` along `path`. */
  function Visits(path: seq<Port>, port: Port): nat {
    if path == [] then 0
    else Visits(path[..|path| - 1], port) + (if path[|path| - 1] == port then 1 else 0)
  }

  lemma {:induction false} VisitsIsMultiplicity(path: seq<Port>, port: Port)
    ensures Visits(path, port) == multiset(path)[port]
  {
    if path != [] {
      var init, last := path[..|path| - 1], path[|path| - 1];
      VisitsIsMultiplicity(init, port);
      assert path == init + [last];
      assert multiset(path) == multiset(init) + multiset{last};
    }
  }

  /** k copies of x added up. */
  function Scale(x: real, k: nat): real {
    if k == 0 then 0.0 else Scale(x, k - 1) + x
  }

  lemma {:induction false} ScaleIsProduct(x: real, k: nat)
    ensures Scale(x, k) == x * (k as real)
  {
    if k > 0 {
      ScaleIsProduct(x, k - 1);
      assert x * (k as real) == x * ((k - 1) as real) + x;
    }
  }

  /** The induction behind `OverrideDelta`, for any table that differs
      from `overrides` at `port` only. */
  lemma {:induction false} HandlingShift(overrides: Overrides, updated: Overrides, port: Port, delta: real, path: seq<Port>)
    requires forall x :: HandlingCost(updated, x) == if x == port then HandlingCost(overrides, x) + delta else HandlingCost(overrides, x)
    ensures HandlingTotal(updated, path) == HandlingTotal(overrides, path) + Scale(delta, Visits(path, port))
  {
    if path != [] {
      HandlingShift(overrides, updated, port, delta, path[..|path| - 1]);
    }
  }

  /** The whole cost moves by the same amount, whatever the capacity and
      the fuel price. */
  lemma OverrideDeltaOnCost(edges: map<EdgeKey, EdgeInfo>, dist: (Port, Port) -> NonNeg, path: seq<Port>,
                            capacity: real, overrides: Overrides, fuelPrice: real, port: Port, newCost: real)
    ensures PathCost(edges, dist, path, capacity, overrides[port := newCost], fuelPrice)
            == PathCost(edges, dist, path, capacity, overrides, fuelPrice)
               + (newCost - HandlingCost(overrides, port)) * (multiset(path)[port] as real)
    ensures port !in path ==>
              PathCost(edges, dist, path, capacity, overrides[port := newCost], fuelPrice)
              == PathCost(edges, dist, path, capacity, overrides, fuelPrice)
  {
    OverrideDelta(overrides, port, newCost, path);
    if port !in path {
      assert multiset(path)[port] == 0;
    }
  }

  // ---------------------------------------------------------------------
  // Direction of travel.

  function Reverse<T>(s: seq<T>): (r: seq<T>)
    ensures |r| == |s|
    ensures forall i :: 0 <= i < |s| ==> r[i] == s[|s| - 1 - i]
  {
    if s == [] then [] else Reverse(s[1..]) + [s[0]]
  }

  /** Every leg of `path` has the same length both ways: it is in the
      table, or the direct distance is symmetric on it. */
  ghost predicate LegsSymmetric(edges: map<EdgeKey, EdgeInfo>, dist: (Port, Port) -> NonNeg, path: seq<Port>) {
    forall i :: 0 <= i < |path| - 1 ==>
      SortedKey(path[i], path[i + 1]) in edges || dist(path[i], path[i + 1]) == dist(path[i + 1], path[i])
  }

  lemma HandlingTotalCons(overrides: Overrides, x: Port, path: seq<Port>)
    ensures HandlingTotal(overrides, [x] + path) == HandlingCost(overrides, x) + HandlingTotal(overrides, path)
    decreases |path|
  {
    if path != [] {
      var init := path[..|path| - 1];
      assert ([x] + path)[..|path|] == [x] + init;
      HandlingTotalCons(overrides, x, init);
    }
  }

  lemma DistanceTotalCons(edges: map<EdgeKey, EdgeInfo>, dist: (Port, Port) -> NonNeg, x: Port, path: seq<Port>)
    requires path != []
    ensures DistanceTotal(edges, dist, [x] + path)
            == LegDistance(edges, dist, x, path[0]) + DistanceTotal(edges, dist, path)
    decreases |path|
  {
    if |path| >= 2 {
      var init := path[..|path| - 1];
      assert ([x] + path)[..|path|] == [x] + init;
      DistanceTotalCons(edges, dist, x, init);
    }
  }

  /** The handling total does not depend on the order of the ports. */
  lemma {:induction false} HandlingTotalReverse(overrides: Overrides, path: seq<Port>)
    ensures HandlingTotal(overrides, Reverse(path)) == HandlingTotal(overrides, path)
  {
    if path != [] {
      HandlingTotalReverse(overrides, path[1..]);
      var r := Reverse(path[1..]);
      assert Reverse(path) == r + [path[0]];
      assert (r + [path[0]])[..|r|] == r;
      HandlingTotalCons(overrides, path[0], path[1..]);
      assert [path[0]] + path[1..] == path;
    }
  }

  /** Sailing a path backwards covers the same distance. */
  lemma {:induction false} DistanceTotalReverse(edges: map<EdgeKey, EdgeInfo>, dist: (Port, Port) -> NonNeg, path: seq<Port>)
    requires LegsSymmetric(edges, dist, path)
    ensures DistanceTotal(edges, dist, Reverse(path)) == DistanceTotal(edges, dist, path)
  {
    if |path| >= 2 {
      var tail := path[1..];
      assert LegsSymmetric(edges, dist, tail) by {
        forall i | 0 <= i < |tail| - 1
          ensures SortedKey(tail[i], tail[i + 1]) in edges || dist(tail[i], tail[i + 1]) == dist(tail[i + 1], tail[i])
        {
          assert tail[i] == path[i + 1] && tail[i + 1] == path[i + 2];
        }
      }
      DistanceTotalReverse(edges, dist, tail);
      var r := Reverse(tail);
      assert Reverse(path) == r + [path[0]];
      assert (r + [path[0]])[..|r|] == r;
      assert r[|r| - 1] == path[1];
      SortedKeySymmetric(path[0], path[1]);
      assert LegDistance(edges, dist, path[1], path[0]) == LegDistance(edges, dist, path[0], path[1]);
      DistanceTotalCons(edges, dist, path[0], tail);
      assert [path[0]] + tail == path;
    }
  }

  /** A path and its reverse have the same unrounded cost. */
  lemma ReverseSameCost(edges: map<EdgeKey, EdgeInfo>, dist: (Port, Port) -> NonNeg, path: seq<Port>,
                        capacity: real, overrides: Overrides, fuelPrice: real)
    requires LegsSymmetric(edges, dist, path)
    ensures PathCost(edges, dist, Reverse(path), capacity, overrides, fuelPrice)
            == PathCost(edges, dist, path, capacity, overrides, fuelPrice)
  {
    var back := Reverse(path);
    HandlingTotalReverse(overrides, path);
    DistanceTotalReverse(edges, dist, path);
    CostDecomposition(edges, dist, path, capacity, overrides, fuelPrice);
    CostDecomposition(edges, dist, back, capacity, overrides, fuelPrice);
  }

  /** A path and its reverse take the same unrounded time. */
  lemma ReverseSameTime(edges: map<EdgeKey, EdgeInfo>, dist: (Port, Port) -> NonNeg, path: seq<Port>, speed: real)
    requires LegsSymmetric(edges, dist, path)
    requires speed != 0.0
    ensures TravelTime(edges, dist, Reverse(path), speed) == TravelTime(edges, dist, path, speed)
  {
    DistanceTotalReverse(edges, dist, path);
    TravelTimeIsDistanceOverSpeed(edges, dist, path, speed);
    TravelTimeIsDistanceOverSpeed(edges, dist, Reverse(path), speed);
  }
}
