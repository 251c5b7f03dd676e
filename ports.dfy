/** The sample network the optimizer ships with: the port codes, the
    sea-route adjacency lists, and the constants of the cost model. */
module Network {

  /** A port code such as "SIN". */
  type Port = string

  /** The keys of `PORTS`; the names and coordinates stored with them are
      not part of this model. */
  const PortCodes: set<Port> := {"IDX", "HKG", "SIN", "CNS", "SHA", "PTY", "LAX", "DXB"}

  /** `ADJ`: for each port, its neighbours in the order listed. No port
      lists CNS, so CNS can start a route but never end one. */
  const Adjacency: map<Port, seq<Port>> := map[
    "IDX" := ["HKG", "SHA"],
    "HKG" := ["IDX", "SIN", "SHA", "DXB"],
    "SIN" := ["HKG", "SHA", "PTY"],
    "SHA" := ["IDX", "HKG", "SIN", "DXB"],
    "PTY" := ["SIN", "LAX"],
    "LAX" := ["PTY", "DXB"],
    "DXB" := ["HKG", "SHA", "LAX"],
    "CNS" := ["HKG", "SHA"]
  ]

  /** The order in which `ADJ.items()` visits the keys (a Python dict
      keeps insertion order). */
  const AdjacencyOrder: seq<Port> := ["IDX", "HKG", "SIN", "SHA", "PTY", "LAX", "DXB", "CNS"]

  /** `BASE_HANDLING_COST`, charged at every port without an override. */
  const BaseHandlingCost: real := 500.0

  /** `DEFAULT_VESSEL_SPEED_KMH`, the speed behind the `time_h` of the
      precomputed edges. */
  const DefaultVesselSpeedKmh: real := 20.0

  /** The `max_hops` both handlers pass to the enumerator. */
  const MaxHops: nat := 6

  /** How a request can fail: a zero speed makes the scorer divide by
      zero; a leg missing from the edge table whose end is not in `PORTS`
      makes `compute_edge_info` raise `KeyError`; and the JSON handler
      refuses ports it does not know. */
  datatype Fault = DivisionByZero | UnknownPort | InvalidPorts

  /** The iteration order lists exactly the ports of the adjacency table,
      and those are exactly the port codes. */
  lemma AdjacencyOrderIsKeys()
    ensures forall u :: u in AdjacencyOrder <==> u in Adjacency
    ensures Adjacency.Keys == PortCodes
  {
  }
}
