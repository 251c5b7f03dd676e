/** The precomputed edge table `EDGES`: one entry per unordered pair of
    adjacent ports, keyed by the pair in sorted order, holding the
    distance and the travel time at the default speed. */
module EdgeTable {
  import opened Text
  import opened Network

  /** A distance in kilometres. */
  type NonNeg = r: real | r >= 0.0

  /** `tuple(sorted((a, b)))`: the two ports, smaller first. */
  datatype EdgeKey = EdgeKey(lo: Port, hi: Port)

  function SortedKey(a: Port, b: Port): (k: EdgeKey)
    ensures (k.lo == a && k.hi == b) || (k.lo == b && k.hi == a)
    ensures LexLe(k.lo, k.hi)
  {
    if LexLe(a, b) then EdgeKey(a, b) else LexLeTotal(a, b); EdgeKey(b, a)
  }

  /** The key does not depend on the direction of travel. */
  lemma SortedKeySymmetric(a: Port, b: Port)
    ensures SortedKey(a, b) == SortedKey(b, a)
  {
    LexLeTotal(a, b);
    if LexLe(a, b) && LexLe(b, a) {
      LexLeAntisymmetric(a, b);
    }
  }

  /** The value `compute_edge_info` returns. */
  datatype EdgeInfo = EdgeInfo(distanceKm: real, timeH: real)

  /** `compute_edge_info(a, b)`, with the great-circle distance given as
      `dist`. */
  function EdgeInfoOf(a: Port, b: Port, dist: (Port, Port) -> NonNeg): EdgeInfo {
    EdgeInfo(dist(a, b), dist(a, b) / DefaultVesselSpeedKmh)
  }

  /** The pairs `(u, v)` for `v` in `nbrs`, in order. */
  function RowPairs(u: Port, nbrs: seq<Port>): (r: seq<(Port, Port)>)
    ensures |r| == |nbrs|
    ensures forall i :: 0 <= i < |r| ==> r[i] == (u, nbrs[i])
  {
    if nbrs == [] then [] else RowPairs(u, nbrs[..|nbrs| - 1]) + [(u, nbrs[|nbrs| - 1])]
  }

  /** The pairs the nested loop over `ADJ.items()` visits, in order. */
  function AdjPairs(adj: map<Port, seq<Port>>, order: seq<Port>): seq<(Port, Port)>
    requires forall u :: u in order ==> u in adj
  {
    if order == [] then []
    else
      var u := order[|order| - 1];
      AdjPairs(adj, order[..|order| - 1]) + RowPairs(u, adj[u])
  }

  /** The table after visiting `pairs`: a key gets the information of the
      first pair that produces it, and later pairs with the same key are
      skipped. */
  function Table(pairs: seq<(Port, Port)>, dist: (Port, Port) -> NonNeg): map<EdgeKey, EdgeInfo> {
    if pairs == [] then map[]
    else Visit(Table(pairs[..|pairs| - 1], dist), pairs[|pairs| - 1], dist)
  }

  /** One step of the loop: the pair's key is added unless it is there. */
  function Visit(t: map<EdgeKey, EdgeInfo>, p: (Port, Port), dist: (Port, Port) -> NonNeg): map<EdgeKey, EdgeInfo> {
    var key := SortedKey(p.0, p.1);
    if key in t then t else t[key := EdgeInfoOf(p.0, p.1, dist)]
  }

  /** Every entry of the table holds a distance, which is never negative. */
  lemma {:induction false} TableDistancesNonNegative(pairs: seq<(Port, Port)>, dist: (Port, Port) -> NonNeg)
    ensures forall key :: key in Table(pairs, dist) ==> Table(pairs, dist)[key].distanceKm >= 0.0
  {
    if pairs != [] {
      TableDistancesNonNegative(pairs[..|pairs| - 1], dist);
    }
  }

  /** Visiting one more neighbour of `u` visits one more pair. */
  lemma RowStep(before: seq<(Port, Port)>, u: Port, nbrs: seq<Port>, j: nat, dist: (Port, Port) -> NonNeg)
    requires j < |nbrs|
    ensures Table(before + RowPairs(u, nbrs[..j + 1]), dist)
            == Visit(Table(before + RowPairs(u, nbrs[..j]), dist), (u, nbrs[j]), dist)
  {
    var done := before + RowPairs(u, nbrs[..j]);
    assert nbrs[..j + 1][..j] == nbrs[..j];
    assert before + RowPairs(u, nbrs[..j + 1]) == done + [(u, nbrs[j])];
    assert (done + [(u, nbrs[j])])[..|done|] == done;
  }

  lemma AdjPairsSnoc(adj: map<Port, seq<Port>>, order: seq<Port>, i: nat)
    requires forall u :: u in order ==> u in adj
    requires i < |order|
    ensures AdjPairs(adj, order[..i + 1]) == AdjPairs(adj, order[..i]) + RowPairs(order[i], adj[order[i]])
  {
    assert order[..i + 1][..i] == order[..i];
  }

  /** The loop that fills `EDGES` at module load. */
  method BuildEdges(adj: map<Port, seq<Port>>, order: seq<Port>, dist: (Port, Port) -> NonNeg)
    returns (edges: map<EdgeKey, EdgeInfo>)
    requires forall u :: u in order ==> u in adj
    ensures edges == Table(AdjPairs(adj, order), dist)
  {
    edges := map[];
    for i := 0 to |order|
      invariant edges == Table(AdjPairs(adj, order[..i]), dist)
    {
      var u := order[i];
      var nbrs := adj[u];
      ghost var before := AdjPairs(adj, order[..i]);
      assert edges == Table(before + RowPairs(u, nbrs[..0]), dist) by {
        assert before + RowPairs(u, nbrs[..0]) == before;
      }
      for j := 0 to |nbrs|
        invariant edges == Table(before + RowPairs(u, nbrs[..j]), dist)
      {
        var v := nbrs[j];
        ghost var prev := edges;
        var key := SortedKey(u, v);
        if key !in edges {
          edges := edges[key := EdgeInfoOf(u, v, dist)];
        }
        assert edges == Visit(prev, (u, v), dist);
        RowStep(before, u, nbrs, j, dist);
      }
      assert edges == Table(AdjPairs(adj, order[..i + 1]), dist) by {
        assert nbrs[..|nbrs|] == nbrs;
        AdjPairsSnoc(adj, order, i);
      }
    }
    assert order[..|order|] == order;
  }

  /** A key is in the table exactly when some visited pair produces it. */
  lemma {:induction false} TableKeys(pairs: seq<(Port, Port)>, dist: (Port, Port) -> NonNeg, key: EdgeKey)
    ensures key in Table(pairs, dist) <==> exists i :: 0 <= i < |pairs| && SortedKey(pairs[i].0, pairs[i].1) == key
  {
    if pairs != [] {
      var init := pairs[..|pairs| - 1];
      TableKeys(init, dist, key);
      if exists i :: 0 <= i < |init| && SortedKey(init[i].0, init[i].1) == key {
        var i :| 0 <= i < |init| && SortedKey(init[i].0, init[i].1) == key;
        assert pairs[i] == init[i];
      }
      if exists i :: 0 <= i < |pairs| && SortedKey(pairs[i].0, pairs[i].1) == key {
        var i :| 0 <= i < |pairs| && SortedKey(pairs[i].0, pairs[i].1) == key;
        if i < |init| {
          assert init[i] == pairs[i];
        }
      }
    }
  }

  /** The entry for a key is the information of the first pair that
      produces it (`if key not in EDGES`). */
  lemma {:induction false} TableFirstWins(pairs: seq<(Port, Port)>, dist: (Port, Port) -> NonNeg, j: nat)
    requires j < |pairs|
    requires forall i :: 0 <= i < j ==> SortedKey(pairs[i].0, pairs[i].1) != SortedKey(pairs[j].0, pairs[j].1)
    ensures SortedKey(pairs[j].0, pairs[j].1) in Table(pairs, dist)
    ensures Table(pairs, dist)[SortedKey(pairs[j].0, pairs[j].1)] == EdgeInfoOf(pairs[j].0, pairs[j].1, dist)
  {
    var init := pairs[..|pairs| - 1];
    var key := SortedKey(pairs[j].0, pairs[j].1);
    if j < |init| {
      assert init[j] == pairs[j];
      forall i | 0 <= i < j
        ensures SortedKey(init[i].0, init[i].1) != key
      {
        assert init[i] == pairs[i];
      }
      TableFirstWins(init, dist, j);
    } else {
      TableKeys(init, dist, key);
      assert forall i :: 0 <= i < |init| ==> init[i] == pairs[i];
    }
  }

  /** The visited pairs are exactly the adjacent pairs. */
  lemma {:induction false} AdjPairsMember(adj: map<Port, seq<Port>>, order: seq<Port>, u: Port, v: Port)
    requires forall w :: w in order ==> w in adj
    ensures (u, v) in AdjPairs(adj, order) <==> u in order && v in adj[u]
  {
    if order != [] {
      var init, last := order[..|order| - 1], order[|order| - 1];
      AdjPairsMember(adj, init, u, v);
      var row := RowPairs(last, adj[last]);
      assert (u, v) in row <==> u == last && v in adj[last] by {
        if (u, v) in row {
          var i :| 0 <= i < |row| && row[i] == (u, v);
          assert adj[last][i] == v;
        }
        if u == last && v in adj[last] {
          var i :| 0 <= i < |adj[last]| && adj[last][i] == v;
          assert row[i] == (u, v);
        }
      }
      assert order == init + [last];
    }
  }

  /** Every pair of adjacent ports has an entry, whichever direction the
      adjacency lists it in. */
  lemma EdgesCoverAdjacency(adj: map<Port, seq<Port>>, order: seq<Port>, dist: (Port, Port) -> NonNeg, u: Port, v: Port)
    requires forall w :: w in order ==> w in adj
    requires u in order && v in adj[u]
    ensures SortedKey(u, v) in Table(AdjPairs(adj, order), dist)
    ensures SortedKey(v, u) in Table(AdjPairs(adj, order), dist)
  {
    var pairs := AdjPairs(adj, order);
    AdjPairsMember(adj, order, u, v);
    var i :| 0 <= i < |pairs| && pairs[i] == (u, v);
    TableKeys(pairs, dist, SortedKey(u, v));
    SortedKeySymmetric(u, v);
  }
}
