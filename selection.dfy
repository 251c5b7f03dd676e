/** The candidate selection both handlers share: score every enumerated
    path, keep those whose rounded time meets the deadline, sort them by
    cost (stably), and take the first as the best. */
module Selection {
  import opened Wrappers
  import opened Network
  import opened EdgeTable
  import opened Scoring

  /** One entry of `candidates`: `{'path', 'cost', 'time_h'}`. */
  datatype Candidate = Candidate(path: seq<Port>, cost: real, timeH: real)

  /** The numeric fields of a request. */
  datatype Request = Request(capacity: real, speed: real, deadline: real, fuelPrice: real)

  /** What a handler answers: `best` and `all`. */
  datatype Ranking = Ranking(best: Option<Candidate>, all: seq<Candidate>)

  /** The scorer raises nothing on any of `paths`. */
  predicate Scorable(edges: map<EdgeKey, EdgeInfo>, paths: seq<seq<Port>>, speed: real) {
    forall i :: 0 <= i < |paths| ==> ScoreFault(edges, paths[i], speed).None?
  }

  /** The candidate `path_cost_and_time` makes of `path`. */
  function Scored(path: seq<Port>, req: Request, overrides: Overrides, edges: map<EdgeKey, EdgeInfo>,
                  dist: (Port, Port) -> NonNeg, round2: real -> real): Candidate
    requires req.speed != 0.0 || |path| < 2
  {
    Candidate(path, round2(PathCost(edges, dist, path, req.capacity, overrides, req.fuelPrice)),
              round2(TravelTime(edges, dist, path, req.speed)))
  }

  /** The candidates of `paths` in enumeration order: the scored paths
      whose rounded time is within the deadline. */
  function Feasible(paths: seq<seq<Port>>, req: Request, overrides: Overrides, edges: map<EdgeKey, EdgeInfo>,
                    dist: (Port, Port) -> NonNeg, round2: real -> real): seq<Candidate>
    requires Scorable(edges, paths, req.speed)
  {
    if paths == [] then []
    else
      var init := paths[..|paths| - 1];
      assert Scorable(edges, init, req.speed) by {
        assert forall i :: 0 <= i < |init| ==> init[i] == paths[i];
      }
      var c := Scored(paths[|paths| - 1], req, overrides, edges, dist, round2);
      Feasible(init, req, overrides, edges, dist, round2) + (if c.timeH <= req.deadline then [c] else [])
  }

  /** The loop that fills `candidates`. The first path the scorer raises
      on ends the request with that exception. */
  method CollectCandidates(paths: seq<seq<Port>>, req: Request, overrides: Overrides, edges: map<EdgeKey, EdgeInfo>,
                           dist: (Port, Port) -> NonNeg, round2: real -> real)
    returns (r: Result<seq<Candidate>, Fault>)
    ensures r.Failure? <==> !Scorable(edges, paths, req.speed)
    ensures r.Failure? ==> exists i :: 0 <= i < |paths| && Scorable(edges, paths[..i], req.speed)
                                       && ScoreFault(edges, paths[i], req.speed) == Some(r.error)
    ensures r.Success? ==> r.value == Feasible(paths, req, overrides, edges, dist, round2)
  {
    var candidates := [];
    for i := 0 to |paths|
      invariant Scorable(edges, paths[..i], req.speed)
      invariant candidates == Feasible(paths[..i], req, overrides, edges, dist, round2)
    {
      var path := paths[i];
      var info := PathCostAndTime(path, req.capacity, overrides, req.speed, req.fuelPrice, edges, dist, round2);
      if info.Failure? {
        assert !Scorable(edges, paths, req.speed) by {
          assert paths[i] == path;
        }
        assert ScoreFault(edges, paths[i], req.speed) == Some(info.error);
        return Failure(info.error);
      }
      if info.value.timeH <= req.deadline {
        candidates := candidates + [Candidate(path, info.value.cost, info.value.timeH)];
      }
      assert Scorable(edges, paths[..i + 1], req.speed) && candidates == Feasible(paths[..i + 1], req, overrides, edges, dist, round2) by {
        FeasibleSnoc(paths, i, req, overrides, edges, dist, round2);
      }
    }
    assert paths[..|paths|] == paths;
    return Success(candidates);
  }

  /** Scoring one more path appends its candidate when it meets the
      deadline. */
  lemma FeasibleSnoc(paths: seq<seq<Port>>, i: nat, req: Request, overrides: Overrides, edges: map<EdgeKey, EdgeInfo>,
                     dist: (Port, Port) -> NonNeg, round2: real -> real)
    requires i < |paths| && Scorable(edges, paths[..i], req.speed)
    requires ScoreFault(edges, paths[i], req.speed).None?
    ensures Scorable(edges, paths[..i + 1], req.speed)
    ensures Feasible(paths[..i + 1], req, overrides, edges, dist, round2)
            == Feasible(paths[..i], req, overrides, edges, dist, round2)
               + (var c := Scored(paths[i], req, overrides, edges, dist, round2);
                  if c.timeH <= req.deadline then [c] else [])
  {
    assert paths[..i + 1][..i] == paths[..i];
    assert paths[..i + 1][i] == paths[i];
  }

  /** Every candidate is the score of an enumerated path within the
      deadline, and every enumerated path within the deadline gives a
      candidate. */
  lemma {:induction false} FeasibleSoundAndComplete(paths: seq<seq<Port>>, req: Request, overrides: Overrides,
                                                    edges: map<EdgeKey, EdgeInfo>, dist: (Port, Port) -> NonNeg,
                                                    round2: real -> real)
    requires Scorable(edges, paths, req.speed)
    ensures forall c :: c in Feasible(paths, req, overrides, edges, dist, round2) ==>
              c.path in paths && c.timeH <= req.deadline && c == Scored(c.path, req, overrides, edges, dist, round2)
    ensures forall i :: 0 <= i < |paths| && Scored(paths[i], req, overrides, edges, dist, round2).timeH <= req.deadline ==>
              Scored(paths[i], req, overrides, edges, dist, round2) in Feasible(paths, req, overrides, edges, dist, round2)
  {
    if paths != [] {
      var init, last := paths[..|paths| - 1], paths[|paths| - 1];
      assert forall i :: 0 <= i < |init| ==> init[i] == paths[i];
      FeasibleSoundAndComplete(init, req, overrides, edges, dist, round2);
      var c := Scored(last, req, overrides, edges, dist, round2);
      var rest := Feasible(init, req, overrides, edges, dist, round2);
      assert Feasible(paths, req, overrides, edges, dist, round2) == rest + (if c.timeH <= req.deadline then [c] else []);
      forall i | 0 <= i < |paths| && Scored(paths[i], req, overrides, edges, dist, round2).timeH <= req.deadline
        ensures Scored(paths[i], req, overrides, edges, dist, round2) in Feasible(paths, req, overrides, edges, dist, round2)
      {
        if i < |init| {
          assert paths[i] == init[i];
        }
      }
    }
  }

  // ---------------------------------------------------------------------
  // `sorted(candidates, key=lambda x: x['cost'])`, a stable sort.

  /** Places `x` before the first element that costs no less. */
  function Insert(x: Candidate, s: seq<Candidate>): seq<Candidate> {
    if s == [] then [x]
    else if x.cost <= s[0].cost then [x] + s
    else [s[0]] + Insert(x, s[1..])
  }

  /** Insertion sort from the back, so that of two candidates of equal
      cost the earlier stays in front. */
  function SortByCost(cands: seq<Candidate>): seq<Candidate> {
    if cands == [] then [] else Insert(cands[0], SortByCost(cands[1..]))
  }

  ghost predicate SortedByCost(s: seq<Candidate>) {
    forall i, j :: 0 <= i < j < |s| ==> s[i].cost <= s[j].cost
  }

  /** The candidates of cost `c`, in order. */
  function WithCost(s: seq<Candidate>, c: real): seq<Candidate> {
    if s == [] then []
    else (if s[0].cost == c then [s[0]] else []) + WithCost(s[1..], c)
  }

  lemma {:induction false} InsertPermutes(x: Candidate, s: seq<Candidate>)
    ensures multiset(Insert(x, s)) == multiset(s) + multiset{x}
  {
    if s != [] && x.cost > s[0].cost {
      InsertPermutes(x, s[1..]);
      assert s == [s[0]] + s[1..];
    }
  }

  lemma {:induction false} InsertSorted(x: Candidate, s: seq<Candidate>)
    requires SortedByCost(s)
    ensures SortedByCost(Insert(x, s))
  {
    if s != [] && x.cost > s[0].cost {
      var t := s[1..];
      InsertSorted(x, t);
      InsertPermutes(x, t);
      var r := Insert(x, t);
      forall i | 0 <= i < |r|
        ensures s[0].cost <= r[i].cost
      {
        assert r[i] in multiset(r);
        if r[i] != x {
          assert r[i] in t;
        }
      }
      assert Insert(x, s) == [s[0]] + r;
    }
  }

  lemma {:induction false} InsertStable(x: Candidate, s: seq<Candidate>, c: real)
    ensures WithCost(Insert(x, s), c) == (if x.cost == c then [x] else []) + WithCost(s, c)
  {
    if s != [] && x.cost > s[0].cost {
      var t := s[1..];
      InsertStable(x, t, c);
      var r := Insert(x, t);
      assert Insert(x, s) == [s[0]] + r;
      assert ([s[0]] + r)[1..] == r;
    } else if s != [] {
      assert ([x] + s)[1..] == s;
    }
  }

  /** The sort orders by cost, keeps every candidate, and keeps the order
      of candidates of equal cost. */
  lemma {:induction false} SortByCostSpec(cands: seq<Candidate>)
    ensures SortedByCost(SortByCost(cands))
    ensures multiset(SortByCost(cands)) == multiset(cands)
    ensures forall c :: WithCost(SortByCost(cands), c) == WithCost(cands, c)
  {
    if cands != [] {
      SortByCostSpec(cands[1..]);
      InsertSorted(cands[0], SortByCost(cands[1..]));
      InsertPermutes(cands[0], SortByCost(cands[1..]));
      forall c
        ensures WithCost(SortByCost(cands), c) == WithCost(cands, c)
      {
        InsertStable(cands[0], SortByCost(cands[1..]), c);
      }
      assert cands == [cands[0]] + cands[1..];
    }
  }

  /** `candidates_sorted[0] if candidates_sorted else None`. */
  function Best(sorted: seq<Candidate>): Option<Candidate> {
    if sorted == [] then None else Some(sorted[0])
  }

  /** The answer a handler builds from its candidates. */
  function Rank(cands: seq<Candidate>): Ranking {
    var sorted := SortByCost(cands);
    Ranking(Best(sorted), sorted)
  }

  /** The first candidate of cost `c` comes before every other of that
      cost. */
  lemma {:induction false} WithCostHead(s: seq<Candidate>, c: real)
    requires WithCost(s, c) != []
    ensures exists j :: 0 <= j < |s| && s[j] == WithCost(s, c)[0] && s[j].cost == c
                        && forall i :: 0 <= i < j ==> s[i].cost != c
  {
    if s[0].cost != c {
      WithCostHead(s[1..], c);
      var j :| 0 <= j < |s[1..]| && s[1..][j] == WithCost(s[1..], c)[0] && s[1..][j].cost == c
               && forall i :: 0 <= i < j ==> s[1..][i].cost != c;
      assert s[j + 1] == s[1..][j];
      forall i | 0 <= i < j + 1
        ensures s[i].cost != c
      {
        if i > 0 {
          assert s[i] == s[1..][i - 1];
        }
      }
    }
  }

  /** There is no best candidate exactly when there are no candidates;
      otherwise the best costs no more than any, and it is the first of
      the cheapest in enumeration order. */
  lemma BestIsEarliestCheapest(cands: seq<Candidate>)
    ensures Rank(cands).best.None? <==> cands == []
    ensures Rank(cands).best.Some? ==>
              var b := Rank(cands).best.value;
              b in cands
              && (forall c :: c in cands ==> b.cost <= c.cost)
              && exists j :: 0 <= j < |cands| && cands[j] == b && forall i :: 0 <= i < j ==> cands[i].cost > b.cost
  {
    var sorted := SortByCost(cands);
    SortByCostSpec(cands);
    if cands == [] {
      assert sorted == [];
    } else {
      assert |sorted| == |cands| by {
        assert |multiset(sorted)| == |multiset(cands)|;
      }
      var b := sorted[0];
      assert b in multiset(cands) by {
        assert b in multiset(sorted);
      }
      forall c | c in cands
        ensures b.cost <= c.cost
      {
        assert c in multiset(sorted);
        var k :| 0 <= k < |sorted| && sorted[k] == c;
        if k > 0 {
          assert sorted[0].cost <= sorted[k].cost;
        }
      }
      assert WithCost(sorted, b.cost) == [b] + WithCost(sorted[1..], b.cost);
      WithCostHead(cands, b.cost);
      var j :| 0 <= j < |cands| && cands[j] == WithCost(cands, b.cost)[0] && cands[j].cost == b.cost
               && forall i :: 0 <= i < j ==> cands[i].cost != b.cost;
      forall i | 0 <= i < j
        ensures cands[i].cost > b.cost
      {
        assert cands[i] in cands;
      }
    }
  }
}
