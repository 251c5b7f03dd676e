/** The two request handlers, `/optimize` (a form) and `/api/optimize`
    (JSON): enumerate the simple routes of the sample network between two
    ports, score them, keep those within the deadline, and rank them by
    cost. The numeric primitives the handlers rely on (the great-circle
    distance, `round(x, 2)` and `float(text)`) are parameters. */
module Optimizer {
  import opened Wrappers
  import opened Network
  import opened PathEnumeration
  import opened EdgeTable
  import opened Scoring
  import opened Selection
  import opened OverrideParser

  /** The primitives left abstract: `haversine_km` on the ports'
      coordinates, `round(x, 2)`, and `float` applied to text. */
  datatype Numerics = Numerics(dist: (Port, Port) -> NonNeg, round2: real -> real,
                               parseNumber: string -> Option<real>)

  /** `EDGES` for the shipped adjacency table. */
  ghost function Edges(dist: (Port, Port) -> NonNeg): map<EdgeKey, EdgeInfo> {
    AdjacencyOrderIsKeys();
    Table(AdjPairs(Adjacency, AdjacencyOrder), dist)
  }

  /** The routes a request from `origin` to `destination` considers. */
  ghost predicate Route(origin: Port, destination: Port, p: seq<Port>) {
    IsRoute(Adjacency, origin, destination, MaxHops, p)
  }

  /** The routes from `origin` to `destination`, in the order the search
      yields them. */
  ghost function Routes(origin: Port, destination: Port): seq<seq<Port>> {
    Dfs(Adjacency, destination, MaxHops, [Frame(origin, [origin])])
  }

  /** What a handler answers for a request, given the overrides and the
      edge table it scores with. It fails, on a division by zero, exactly
      when the speed is zero and there is a route to score. Otherwise
      `all` holds the score of every route within the deadline and
      nothing else, ordered by cost, and `best` is absent exactly when
      `all` is empty and is otherwise a cheapest candidate. */
  ghost predicate Answers(origin: Port, destination: Port, req: Request, overrides: Overrides,
                          edges: map<EdgeKey, EdgeInfo>, dist: (Port, Port) -> NonNeg, round2: real -> real,
                          r: Result<Ranking, Fault>)
  {
    && (r.Failure? <==> req.speed == 0.0 && exists p :: Route(origin, destination, p))
    && (r.Failure? ==> r.error == DivisionByZero)
    && (r.Success? ==>
          (forall c :: c in r.value.all ==>
             Route(origin, destination, c.path) && req.speed != 0.0 && c.timeH <= req.deadline
             && c == Scored(c.path, req, overrides, edges, dist, round2))
          && (forall p :: Route(origin, destination, p) ==>
                req.speed != 0.0
                && (Scored(p, req, overrides, edges, dist, round2).timeH <= req.deadline ==>
                      Scored(p, req, overrides, edges, dist, round2) in r.value.all))
          && SortedByCost(r.value.all)
          && (r.value.best.None? <==> r.value.all == [])
          && (r.value.best.Some? ==>
                r.value.best.value == r.value.all[0]
                && forall c :: c in r.value.all ==> r.value.best.value.cost <= c.cost))
  }

  /** No adjacency list of the sample network repeats a neighbour. */
  lemma AdjacencyDuplicateFree()
    ensures NoDuplicateNeighbors(Adjacency)
  {
    forall n | n in Adjacency
      ensures Distinct(Adjacency[n])
    {
      assert n in PortCodes by {
        AdjacencyOrderIsKeys();
      }
    }
  }

  /** The loop over the enumerated routes and the ranking after it, which
      both handlers share. */
  method RankRoutes(origin: Port, destination: Port, req: Request, overrides: Overrides,
                    edges: map<EdgeKey, EdgeInfo>, dist: (Port, Port) -> NonNeg, round2: real -> real)
    returns (paths: seq<seq<Port>>, r: Result<Ranking, Fault>)
    ensures forall p :: p in paths ==> Route(origin, destination, p)
    ensures forall p :: Route(origin, destination, p) ==> multiset(paths)[p] == 1
    ensures paths == Routes(origin, destination)
    ensures r.Success? ==> Scorable(edges, paths, req.speed)
                           && r.value == Rank(Feasible(paths, req, overrides, edges, dist, round2))
    ensures Answers(origin, destination, req, overrides, edges, dist, round2, r)
  {
    AdjacencyDuplicateFree();
    paths := EnumerateSimplePaths(Adjacency, origin, destination, MaxHops);
    var cands := CollectCandidates(paths, req, overrides, edges, dist, round2);
    if cands.Failure? {
      ghost var i :| 0 <= i < |paths| && Scorable(edges, paths[..i], req.speed)
                     && ScoreFault(edges, paths[i], req.speed) == Some(cands.error);
      FailureAnswers(origin, destination, req, overrides, edges, dist, round2, paths, i);
      return paths, Failure(cands.error);
    }
    r := Success(Rank(cands.value));
    SuccessAnswers(origin, destination, req, overrides, edges, dist, round2, paths);
  }

  /** A route the scorer raises on makes the request fail, and what it
      raises is a division by zero: every leg of a route can be measured. */
  lemma FailureAnswers(origin: Port, destination: Port, req: Request, overrides: Overrides,
                       edges: map<EdgeKey, EdgeInfo>, dist: (Port, Port) -> NonNeg, round2: real -> real,
                       paths: seq<seq<Port>>, i: nat)
    requires forall p :: p in paths ==> Route(origin, destination, p)
    requires i < |paths| && ScoreFault(edges, paths[i], req.speed).Some?
    ensures ScoreFault(edges, paths[i], req.speed) == Some(DivisionByZero)
    ensures Answers(origin, destination, req, overrides, edges, dist, round2, Failure(DivisionByZero))
  {
    assert Route(origin, destination, paths[i]);
    RouteMeasurable(origin, destination, paths[i], edges);
  }

  /** Both ends of every leg of a route are ports of `PORTS`, so the scorer
      can measure the route whatever the edge table holds. */
  lemma RouteMeasurable(origin: Port, destination: Port, p: seq<Port>, edges: map<EdgeKey, EdgeInfo>)
    requires Route(origin, destination, p)
    ensures AllMeasurable(edges, p)
  {
    AdjacencyOrderIsKeys();
    forall u | u in Adjacency
      ensures forall v :: v in Adjacency[u] ==> v in PortCodes
    {
    }
    forall i | 0 <= i < |p| - 1
      ensures Measurable(edges, p[i], p[i + 1])
    {
      assert p[i + 1] in Neighbors(Adjacency, p[i]);
    }
  }

  /** Ranking the feasible candidates of all routes answers the request. */
  lemma SuccessAnswers(origin: Port, destination: Port, req: Request, overrides: Overrides,
                       edges: map<EdgeKey, EdgeInfo>, dist: (Port, Port) -> NonNeg, round2: real -> real,
                       paths: seq<seq<Port>>)
    requires forall p :: p in paths ==> Route(origin, destination, p)
    requires forall p :: Route(origin, destination, p) ==> multiset(paths)[p] == 1
    requires Scorable(edges, paths, req.speed)
    ensures Answers(origin, destination, req, overrides, edges, dist, round2,
                    Success(Rank(Feasible(paths, req, overrides, edges, dist, round2))))
  {
    var feasible := Feasible(paths, req, overrides, edges, dist, round2);
    var all := SortByCost(feasible);
    FeasibleSoundAndComplete(paths, req, overrides, edges, dist, round2);
    SortByCostSpec(feasible);
    BestIsEarliestCheapest(feasible);
    forall p | Route(origin, destination, p)
      ensures req.speed != 0.0
      ensures Scored(p, req, overrides, edges, dist, round2).timeH <= req.deadline ==>
                Scored(p, req, overrides, edges, dist, round2) in all
    {
      assert p in multiset(paths);
      var i :| 0 <= i < |paths| && paths[i] == p;
      if Scored(p, req, overrides, edges, dist, round2).timeH <= req.deadline {
        assert Scored(p, req, overrides, edges, dist, round2) in multiset(all);
      }
    }
    forall c | c in all
      ensures Route(origin, destination, c.path) && req.speed != 0.0 && c.timeH <= req.deadline
              && c == Scored(c.path, req, overrides, edges, dist, round2)
    {
      assert c in multiset(feasible);
    }
    if exists p :: Route(origin, destination, p) {
      var p :| Route(origin, destination, p);
      assert req.speed != 0.0;
    }
    if all != [] {
      forall c | c in all
        ensures all[0].cost <= c.cost
      {
        var k :| 0 <= k < |all| && all[k] == c;
        if k > 0 {
          assert all[0].cost <= all[k].cost;
        }
      }
    }
  }

  /** `POST /optimize`: reads the overrides from the form text, then ranks
      the routes. Unknown ports are not refused here; they just have no
      routes. The answer is the stable sort by cost of the feasible
      candidates, taken in the order the search yields the routes, and
      the search yields every route once. */
  method Optimize(origin: Port, destination: Port, req: Request, overridesRaw: string, num: Numerics)
    returns (r: Result<Ranking, Fault>)
    ensures forall p :: p in Routes(origin, destination) ==> Route(origin, destination, p)
    ensures forall p :: Route(origin, destination, p) ==> multiset(Routes(origin, destination))[p] == 1
    ensures r.Success? ==>
              Scorable(Edges(num.dist), Routes(origin, destination), req.speed)
              && r.value == Rank(Feasible(Routes(origin, destination), req, OverridesFrom(overridesRaw, num.parseNumber),
                                          Edges(num.dist), num.dist, num.round2))
    ensures Answers(origin, destination, req, OverridesFrom(overridesRaw, num.parseNumber),
                    Edges(num.dist), num.dist, num.round2, r)
  {
    AdjacencyOrderIsKeys();
    var edges := BuildEdges(Adjacency, AdjacencyOrder, num.dist);
    var overrides := ParseOverrides(overridesRaw, num.parseNumber);
    var paths;
    paths, r := RankRoutes(origin, destination, req, overrides, edges, num.dist, num.round2);
  }

  /** `POST /api/optimize`: a missing or unknown port is refused before any
      route is enumerated; the overrides arrive already as a mapping. */
  method ApiOptimize(origin: Option<Port>, destination: Option<Port>, req: Request, overrides: Overrides,
                     num: Numerics)
    returns (r: Result<Ranking, Fault>)
    ensures !(origin.Some? && origin.value in PortCodes && destination.Some? && destination.value in PortCodes)
            ==> r == Failure(InvalidPorts)
    ensures origin.Some? && origin.value in PortCodes && destination.Some? && destination.value in PortCodes
            ==> Answers(origin.value, destination.value, req, overrides, Edges(num.dist), num.dist, num.round2, r)
    ensures r.Success? ==>
              origin.Some? && destination.Some?
              && (forall p :: Route(origin.value, destination.value, p) ==>
                    multiset(Routes(origin.value, destination.value))[p] == 1)
              && Scorable(Edges(num.dist), Routes(origin.value, destination.value), req.speed)
              && r.value == Rank(Feasible(Routes(origin.value, destination.value), req, overrides,
                                          Edges(num.dist), num.dist, num.round2))
  {
    if origin.None? || origin.value !in PortCodes || destination.None? || destination.value !in PortCodes {
      return Failure(InvalidPorts);
    }
    AdjacencyOrderIsKeys();
    var edges := BuildEdges(Adjacency, AdjacencyOrder, num.dist);
    var paths;
    paths, r := RankRoutes(origin.value, destination.value, req, overrides, edges, num.dist, num.round2);
  }

  // ---------------------------------------------------------------------
  // Consequences for the sample network.

  /** Without a route the request succeeds with nothing to offer. */
  lemma NoRouteNoBest(origin: Port, destination: Port, req: Request, overrides: Overrides,
                      edges: map<EdgeKey, EdgeInfo>, dist: (Port, Port) -> NonNeg, round2: real -> real,
                      r: Result<Ranking, Fault>)
    requires forall p :: !Route(origin, destination, p)
    requires Answers(origin, destination, req, overrides, edges, dist, round2, r)
    ensures r == Success(Ranking(None, []))
  {
    assert forall c :: c !in r.value.all;
  }

  /** A port the adjacency table does not know has no routes, so on
      `/optimize` it gives an empty answer rather than an error. */
  lemma UnknownOriginHasNoRoute(origin: Port, destination: Port, p: seq<Port>)
    requires origin !in Adjacency
    ensures !Route(origin, destination, p)
  {
    if |p| >= 2 && p[0] == origin {
      assert p[1] !in Neighbors(Adjacency, p[0]);
    }
  }

  /** No adjacency list names CNS, so no route ends there. */
  lemma NoRouteIntoCNS(origin: Port, p: seq<Port>)
    ensures !Route(origin, "CNS", p)
  {
    AdjacencyOrderIsKeys();
    forall u | u in PortCodes
      ensures "CNS" !in Neighbors(Adjacency, u)
    {
    }
    if |p| >= 2 {
      assert "CNS" !in Neighbors(Adjacency, p[|p| - 2]);
    }
  }

  /** SIN-PTY-LAX is one of the routes from SIN to LAX. */
  lemma SinPtyLaxIsRoute()
    ensures Route("SIN", "LAX", ["SIN", "PTY", "LAX"])
  {
    var p := ["SIN", "PTY", "LAX"];
    assert p[1] in Adjacency["SIN"];
    assert p[2] in Adjacency["PTY"];
  }

  /** A route may have `max_hops + 1` legs: CNS to DXB through every other
      port. */
  lemma SevenLegRoute()
    ensures Route("CNS", "DXB", ["CNS", "HKG", "IDX", "SHA", "SIN", "PTY", "LAX", "DXB"])
  {
    var p := ["CNS", "HKG", "IDX", "SHA", "SIN", "PTY", "LAX", "DXB"];
    assert |p| - 1 == MaxHops + 1;
    assert p[1] in Adjacency[p[0]];
    assert p[2] in Adjacency[p[1]];
    assert p[3] in Adjacency[p[2]];
    assert p[4] in Adjacency[p[3]];
    assert p[5] in Adjacency[p[4]];
    assert p[6] in Adjacency[p[5]];
    assert p[7] in Adjacency[p[6]];
  }

  /** Every leg of a route has an entry in `EDGES`. */
  lemma RouteLegsInTable(origin: Port, destination: Port, p: seq<Port>, dist: (Port, Port) -> NonNeg)
    requires Route(origin, destination, p)
    ensures forall i :: 0 <= i < |p| - 1 ==> SortedKey(p[i], p[i + 1]) in Edges(dist)
  {
    AdjacencyOrderIsKeys();
    forall i | 0 <= i < |p| - 1
      ensures SortedKey(p[i], p[i + 1]) in Edges(dist)
    {
      assert p[i + 1] in Neighbors(Adjacency, p[i]);
      EdgesCoverAdjacency(Adjacency, AdjacencyOrder, dist, p[i], p[i + 1]);
    }
  }

  /** Scored against `EDGES`, with no negative override, a fuel price that
      is not negative and a positive speed, any path costs nothing negative
      and takes no negative time. */
  lemma ScoresNonNegative(p: seq<Port>, req: Request, overrides: Overrides, dist: (Port, Port) -> NonNeg)
    requires forall port :: port in overrides ==> overrides[port] >= 0.0
    requires req.fuelPrice >= 0.0 && req.speed > 0.0
    ensures PathCost(Edges(dist), dist, p, req.capacity, overrides, req.fuelPrice) >= 0.0
    ensures TravelTime(Edges(dist), dist, p, req.speed) >= 0.0
  {
    AdjacencyOrderIsKeys();
    TableDistancesNonNegative(AdjPairs(Adjacency, AdjacencyOrder), dist);
    PathCostNonNegative(Edges(dist), dist, p, req.capacity, overrides, req.fuelPrice);
    TravelTimeNonNegative(Edges(dist), dist, p, req.speed);
  }

  /** Travelling a route backwards costs the same and takes as long, since
      both directions of every leg read the same table entry. */
  lemma ReversedRouteScoresTheSame(origin: Port, destination: Port, p: seq<Port>, req: Request,
                                   overrides: Overrides, dist: (Port, Port) -> NonNeg)
    requires Route(origin, destination, p)
    requires req.speed != 0.0
    ensures PathCost(Edges(dist), dist, Reverse(p), req.capacity, overrides, req.fuelPrice)
            == PathCost(Edges(dist), dist, p, req.capacity, overrides, req.fuelPrice)
    ensures TravelTime(Edges(dist), dist, Reverse(p), req.speed) == TravelTime(Edges(dist), dist, p, req.speed)
  {
    RouteLegsInTable(origin, destination, p, dist);
    ReverseSameCost(Edges(dist), dist, p, req.capacity, overrides, req.fuelPrice);
    ReverseSameTime(Edges(dist), dist, p, req.speed);
  }

  /** An override only changes the cost of the routes through its port,
      by the difference from the base handling cost: a route visits a
      port at most once. */
  lemma OverrideOnRoute(origin: Port, destination: Port, p: seq<Port>, req: Request, port: Port, newCost: real,
                        edges: map<EdgeKey, EdgeInfo>, dist: (Port, Port) -> NonNeg)
    requires Route(origin, destination, p)
    ensures PathCost(edges, dist, p, req.capacity, map[port := newCost], req.fuelPrice)
            == PathCost(edges, dist, p, req.capacity, map[], req.fuelPrice)
               + (if port in p then newCost - BaseHandlingCost else 0.0)
  {
    OverrideDeltaOnCost(edges, dist, p, req.capacity, map[], req.fuelPrice, port, newCost);
    assert map[][port := newCost] == map[port := newCost];
    if port in p {
      var i :| 0 <= i < |p| && p[i] == port;
      DistinctCountsOnce(p, i);
    }
  }

  /** An element of a sequence without repetitions occurs once. */
  lemma {:induction false} DistinctCountsOnce(p: seq<Port>, i: nat)
    requires i < |p| && Distinct(p)
    ensures multiset(p)[p[i]] == 1
  {
    var init, last := p[..|p| - 1], p[|p| - 1];
    assert p == init + [last];
    assert Distinct(init) by {
      assert forall a :: 0 <= a < |init| ==> init[a] == p[a];
    }
    if i < |init| {
      assert init[i] == p[i];
      DistinctCountsOnce(init, i);
      assert last != p[i];
    } else {
      assert p[i] !in init by {
        forall a | 0 <= a < |init|
          ensures init[a] != p[i]
        {
          assert init[a] == p[a];
        }
      }
    }
  }
}
