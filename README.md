# Shipping route optimizer: a verified model of its core

`SIH/flask_shipping_optimizer.py` is a small web application that picks the
cheapest sea route between two ports of a fixed eight-port network. Each
request goes through five steps:

1. Enumerate every simple path from the origin to the destination, using an
   iterative depth-first search over an explicit stack, with a hop limit of 6.
2. Score each path:
   - the cost is the handling charged at every port plus the fuel used on every
     leg, scaled by the vessel's capacity;
   - the time is the distance sailed divided by the speed.
3. Keep the paths whose rounded time meets the deadline.
4. Sort the survivors by cost, with a stable sort.
5. Return the first one as the best.

Leg lengths come from a table `EDGES` that is built once, with one entry per
unordered pair of adjacent ports. The form handler reads per-port handling
costs from text such as `"HKG:900, sin:450"`. The JSON handler gets them
already as a mapping, and it refuses ports it does not know before it
enumerates any route.

The Dafny model keeps the shape of the Python code:
- the enumerator, the edge-table loop, the scorer, the candidate loop and the
  override parser are methods with the same loops;
- each of those methods is proved equal to a specification function of its
  inputs. For the enumerator that function is `PathEnumeration.Dfs`, which
  fixes the order in which routes are yielded. The enumerator is also proved
  to yield every route exactly once;
- the properties the application relies on are proved as lemmas about those
  functions.

| file | module | what it holds |
|---|---|---|
| wrappers.dfy | `Wrappers` | `Option` and `Result` |
| text.dfy | `Text` | `str.strip`, `str.upper`, `str.split` on one character, and string order |
| ports.dfy | `Network` | the port codes, `ADJ` with its iteration order, the constants, how a request fails |
| paths.dfy | `PathEnumeration` | `enumerate_simple_paths`, generic in the node type |
| edges.dfy | `EdgeTable` | the sorted edge key and the `EDGES` build loop |
| scoring.dfy | `Scoring` | `path_cost_and_time` and the cost algebra |
| selection.dfy | `Selection` | the deadline filter, the stable sort by cost, the best candidate |
| overrides.dfy | `OverrideParser` | the override-text parser of `/optimize` |
| optimizer.dfy | `Optimizer` | both handlers, and facts about the shipped network |

Some primitives are parameters rather than definitions:
- the great-circle distance, as `dist`;
- `round(x, 2)`, as `round2`;
- `float(text)`, as `parseNumber`, which returns `None` where Python raises.

Floating-point arithmetic is modelled with exact reals.

Both handlers are proved to answer with exactly
`Rank(Feasible(Routes(origin, destination), ...))`. Here `Routes` is the
sequence of routes in the order the search yields them, each route once.
The stable sort by cost therefore puts, of two candidates of equal cost,
the earlier-yielded one first. `Optimizer.Answers` sums up what follows
from that:
- the request fails, by division by zero, exactly when the speed is zero and
  some route exists;
- otherwise, `all` holds the score of every route within the deadline and
  nothing else, in cost order;
- `best` is absent exactly when `all` is empty, and is otherwise its first
  element, which costs no more than any other candidate.

### Behaviour worth knowing

- **Hop bound.** The comment at line 100 says paths of up to `max_hops`
  edges. The test at line 104 is made on the popped path *before* it is
  extended, so a path of `max_hops` edges is still expanded, and routes of
  `max_hops + 1` edges are yielded. `PathEnumeration.IsRoute` allows
  `maxHops + 1` edges. `Optimizer.SevenLegRoute` shows a seven-leg route
  of the shipped network (CNS to DXB). The model follows the code.
- **Malformed override tokens.** One `try` wraps the whole parsing loop
  (lines 220-225). So the first token that does not parse ends parsing, and
  only the entries read before it are kept (`OverrideParser.StopsAtFirstBad`).
- **Legs missing from `EDGES`.** The scorer falls back on
  `compute_edge_info` (line 130), which looks both ends up in `PORTS`
  (lines 82-83) and raises `KeyError` for an unknown code. It does so
  before the leg's division by the speed, so such a path raises `KeyError`
  even at speed zero when its first leg is the missing one
  (`Scoring.ScoreFault`). Every leg of a route joins two known ports
  (`Optimizer.RouteMeasurable`), so neither handler meets this case.
- **Unknown ports.** Only `/api/optimize` checks the ports (line 258).
  `/optimize` enumerates from any origin, and an unknown port simply has no
  routes (`Optimizer.UnknownOriginHasNoRoute`, `Optimizer.NoRouteNoBest`).

## Model

| member | source | states |
|---|---|---|
| Network.AdjacencyOrderIsKeys | SIH/flask_shipping_optimizer.py:39-61 | the order in which `ADJ.items()` runs lists exactly the keys of `ADJ`, and those are exactly the keys of `PORTS` |
| PathEnumeration.EnumerateSimplePaths | SIH/flask_shipping_optimizer.py:99-113 | the sequence yielded is exactly `Dfs` of the initial stack, which fixes its order; every yielded path starts at `source`, ends at `dest`, repeats no node, follows listed edges and has 1 to `max_hops + 1` edges; `dest` occurs only at its end; nothing is yielded when `source == dest` or `source` has no adjacency entry; when no adjacency list repeats a neighbour, every such route is yielded exactly once |
| PathEnumeration.SearchStep | SIH/flask_shipping_optimizer.py:102-113 | one pop of the stack keeps every entry a valid partial path and every output a route, keeps every route counted exactly once, keeps the output plus what `Dfs` yields from the stack equal to the whole enumeration, and lowers the stack's weight |
| PathEnumeration.PushedWeight | SIH/flask_shipping_optimizer.py:112-113 | the entries pushed while expanding a path weigh at most one unit of the next length per neighbour |
| PathEnumeration.VisitNeighbors | SIH/flask_shipping_optimizer.py:106-113 | the neighbour loop appends to the output the extensions that reach `dest`, and to the stack the frames of the other new neighbours, in neighbour order; neighbours already on the path are skipped |
| PathEnumeration.Extend | SIH/flask_shipping_optimizer.py:107-113 | extending an expandable stack entry by a neighbour not on its path gives a route when the neighbour is `dest`, and otherwise another valid stack entry |
| PathEnumeration.WeightDrops | SIH/flask_shipping_optimizer.py:102-113 | replacing the popped entry by fewer than `b` entries one node longer lowers the stack's weight, the sum over its entries of b to the power k minus the entry's length; this is why the search terminates |
| PathEnumeration.WeightDropsOnDiscard | SIH/flask_shipping_optimizer.py:104-105 | dropping an entry that is over the hop limit lowers the stack's weight |
| PathEnumeration.AccountedEmit | SIH/flask_shipping_optimizer.py:110-111 | yielding `path + [dest]` keeps every route counted exactly once: yielded already, extending one stack entry, or still waiting for a neighbour |
| PathEnumeration.AccountedPush | SIH/flask_shipping_optimizer.py:112-113 | pushing a new entry keeps every route counted exactly once |
| PathEnumeration.AccountedAfterDiscard | SIH/flask_shipping_optimizer.py:104-105 | an entry over the hop limit is the prefix of no route, so dropping it loses none |
| EdgeTable.SortedKey | SIH/flask_shipping_optimizer.py:93 | `tuple(sorted((a, b)))` holds the two ports, smaller first |
| EdgeTable.SortedKeySymmetric | SIH/flask_shipping_optimizer.py:93 | both directions of a pair give the same key |
| EdgeTable.RowPairs | SIH/flask_shipping_optimizer.py:92 | the inner loop visits `(u, v)` for each listed neighbour `v`, in order |
| EdgeTable.BuildEdges | SIH/flask_shipping_optimizer.py:89-95 | the nested loop builds exactly the table of the visited pairs in which the first pair for a key wins |
| EdgeTable.TableKeys | SIH/flask_shipping_optimizer.py:89-95 | a key is in `EDGES` exactly when a visited pair produces it |
| EdgeTable.TableDistancesNonNegative | SIH/flask_shipping_optimizer.py:81-95 | every entry of `EDGES` holds a distance that is not negative |
| EdgeTable.TableFirstWins | SIH/flask_shipping_optimizer.py:94-95 | the entry for a key is `compute_edge_info` of the first pair producing that key (`if key not in EDGES`) |
| EdgeTable.AdjPairsMember | SIH/flask_shipping_optimizer.py:91-92 | the visited pairs are exactly the pairs of a port and one of its listed neighbours |
| EdgeTable.EdgesCoverAdjacency | SIH/flask_shipping_optimizer.py:89-95 | every adjacent pair has an entry, looked up in either direction |
| Scoring.CapacityFactor | SIH/flask_shipping_optimizer.py:133 | the factor is the larger of 0.5 and `capacity / 1000` |
| Scoring.ScoreFault | SIH/flask_shipping_optimizer.py:124-137 | the scorer raises nothing exactly when the path has no leg, or the speed is not zero and every leg is in the table or joins two codes of `PORTS`; a zero speed raises `KeyError` rather than division by zero only when the first leg cannot be measured |
| Scoring.PathCostAndTime | SIH/flask_shipping_optimizer.py:116-139 | raises what `ScoreFault` says; otherwise returns the rounded handling-plus-fuel cost and the rounded travel time, with the handling loop proved against its sum |
| Scoring.LegTotals | SIH/flask_shipping_optimizer.py:124-138 | the loop over the legs raises what `ScoreFault` says, and otherwise returns the fuel cost and the sailing time of the path |
| Scoring.MeasureLeg | SIH/flask_shipping_optimizer.py:126-131 | a leg's length is its table entry, or the direct distance when both ends are in `PORTS`; otherwise the lookup raises `KeyError` |
| Scoring.ScoreFaultStep | SIH/flask_shipping_optimizer.py:124-137 | on each leg, the lookup of its ends comes before the division by the speed, and then the next leg follows |
| Scoring.FuelTotalIsLinear | SIH/flask_shipping_optimizer.py:124-135 | the fuel cost of a path is its distance times the fuel price times the capacity factor |
| Scoring.TravelTimeIsDistanceOverSpeed | SIH/flask_shipping_optimizer.py:124-138 | the travel time is the distance sailed over the speed, so it depends on neither the overrides, the capacity nor the fuel price |
| Scoring.DistanceTotalNonNegative | SIH/flask_shipping_optimizer.py:124-131 | the distance of a path is not negative when the table holds distances |
| Scoring.HandlingTotalNonNegative | SIH/flask_shipping_optimizer.py:120-122 | with no negative override, the handling along a path is not negative |
| Scoring.PathCostNonNegative | SIH/flask_shipping_optimizer.py:116-139 | with no negative table distance, no negative override and a fuel price that is not negative, the cost is not negative |
| Scoring.TravelTimeNonNegative | SIH/flask_shipping_optimizer.py:135-137 | at a positive speed, with no negative table distance, the time is not negative |
| Scoring.CostDecomposition | SIH/flask_shipping_optimizer.py:116-135 | the cost is the handling at every port, both ends included, plus distance times fuel price times capacity factor |
| Scoring.CapacityFloor | SIH/flask_shipping_optimizer.py:133 | any capacity up to 500 costs the same as 500 |
| Scoring.CapacityRaisesCost | SIH/flask_shipping_optimizer.py:133-135 | above 500, a larger capacity costs strictly more on a path of positive length at a positive fuel price |
| Scoring.OverrideDelta | SIH/flask_shipping_optimizer.py:120-122 | changing one port's override moves the handling of a path by the difference times the number of visits to that port |
| Scoring.OverrideDeltaOnCost | SIH/flask_shipping_optimizer.py:120-135 | the same shift applies to the whole cost; a path not visiting the port keeps its cost |
| Scoring.HandlingTotalReverse | SIH/flask_shipping_optimizer.py:120-122 | the handling of a path does not depend on its direction |
| Scoring.DistanceTotalReverse | SIH/flask_shipping_optimizer.py:124-131 | a path and its reverse cover the same distance when every leg is in the table or its direct distance is symmetric |
| Scoring.ReverseSameCost | SIH/flask_shipping_optimizer.py:116-135 | under that condition a path and its reverse cost the same |
| Scoring.ReverseSameTime | SIH/flask_shipping_optimizer.py:124-138 | under that condition a path and its reverse take the same time |
| Selection.CollectCandidates | SIH/flask_shipping_optimizer.py:228-233 | the candidate loop fails exactly when the scorer raises on some path, and then with what it raises on the first such path; otherwise it returns the scored paths whose rounded time meets the deadline, in enumeration order |
| Selection.FeasibleSoundAndComplete | SIH/flask_shipping_optimizer.py:229-233 | every candidate is the score of an enumerated path within the deadline, and every enumerated path within the deadline gives a candidate |
| Selection.InsertStable | SIH/flask_shipping_optimizer.py:236 | inserting a candidate puts it ahead of the candidates of equal cost already placed |
| Selection.SortByCostSpec | SIH/flask_shipping_optimizer.py:236 | `sorted(candidates, key=cost)` is ordered by cost, is a permutation of the candidates, and keeps candidates of equal cost in their original order |
| Selection.BestIsEarliestCheapest | SIH/flask_shipping_optimizer.py:236-237 | `best` is None exactly when there are no candidates; otherwise it is a candidate, costs no more than any other, and is the earliest-enumerated candidate of that cost |
| Text.TrimStart | SIH/flask_shipping_optimizer.py:217 | the left strip is a suffix, everything removed is whitespace, and it starts with no whitespace |
| Text.TrimEnd | SIH/flask_shipping_optimizer.py:217 | the right strip is a prefix, everything removed is whitespace, and it ends with no whitespace |
| Text.StripEmptyIffAllSpace | SIH/flask_shipping_optimizer.py:217-219 | stripping leaves nothing exactly when the text is all whitespace |
| Text.StripOfStripped | SIH/flask_shipping_optimizer.py:217 | text with no whitespace at either end is its own strip |
| Text.Upper | SIH/flask_shipping_optimizer.py:223 | upper-casing keeps the length and upper-cases each character |
| Text.UpperChar | SIH/flask_shipping_optimizer.py:223 | an ASCII lower-case letter becomes its capital, the dotless i becomes `I` and the long s becomes `S`, and every other character is kept; the result is an ASCII capital exactly when the character was one or was one of those letters |
| Text.StripAppendNonSpace | SIH/flask_shipping_optimizer.py:217 | appending a non-space character to text that ends in one appends it to the strip |
| Text.UpperIdempotent | SIH/flask_shipping_optimizer.py:223 | upper-casing twice is upper-casing once |
| Text.Split | SIH/flask_shipping_optimizer.py:221-222 | a split has at least one piece and no piece holds the separator |
| Text.SplitJoin | SIH/flask_shipping_optimizer.py:221-222 | joining the pieces with the separator gives back the text |
| Text.SplitCount | SIH/flask_shipping_optimizer.py:222 | there is one piece more than there are separators |
| Text.SplitAppendSeparator | SIH/flask_shipping_optimizer.py:221 | a trailing separator adds one empty piece and changes no other |
| Text.SplitAtSeparator | SIH/flask_shipping_optimizer.py:222 | the first piece is everything before the first separator |
| Text.SplitWithoutSeparator | SIH/flask_shipping_optimizer.py:222 | text without the separator is a single piece |
| Text.LexLeTotal | SIH/flask_shipping_optimizer.py:93 | any two port codes are ordered one way or the other |
| Text.LexLeAntisymmetric | SIH/flask_shipping_optimizer.py:93 | two port codes ordered both ways are equal |
| OverrideParser.GoodCount | SIH/flask_shipping_optimizer.py:220-225 | the count of entries read is the length of the longest run of parsing pieces at the front; the piece after that run does not parse |
| OverrideParser.ParseOverrides | SIH/flask_shipping_optimizer.py:217-225 | the parsing block gives exactly the overrides of the stripped field: none when it is blank, and otherwise those of its comma-separated pieces |
| OverrideParser.ParseParts | SIH/flask_shipping_optimizer.py:220-225 | the `try`-guarded loop stores the entries of the pieces before the first that does not parse, in order |
| OverrideParser.BlankGivesNothing | SIH/flask_shipping_optimizer.py:217-219 | an empty or whitespace-only field gives no overrides |
| OverrideParser.AssignKeys | SIH/flask_shipping_optimizer.py:223 | a port is stored exactly when it was there already or some entry names it |
| OverrideParser.AssignLastWins | SIH/flask_shipping_optimizer.py:223 | the value stored for a port is that of the last entry naming it |
| OverrideParser.KeyCodeOfBareKey | SIH/flask_shipping_optimizer.py:223 | a key with no whitespace at either end names the port its upper-cased text spells |
| OverrideParser.EntryKeyIsUpperCase | SIH/flask_shipping_optimizer.py:223 | a stored port code has no ASCII lower-case letter |
| OverrideParser.EntryOfPair | SIH/flask_shipping_optimizer.py:222-223 | a piece `k:v` with one colon gives the stripped, upper-cased `k` with the number `v` reads as, and nothing when `v` is not a number |
| OverrideParser.EntryNeedsOneColon | SIH/flask_shipping_optimizer.py:222 | a piece without exactly one colon does not unpack into a key and a value |
| OverrideParser.EmptyPieceFails | SIH/flask_shipping_optimizer.py:222 | an empty piece does not parse |
| OverrideParser.FromPartsKeys | SIH/flask_shipping_optimizer.py:220-225 | a port has an override exactly when a piece before the first bad one names it |
| OverrideParser.FromPartsLastWins | SIH/flask_shipping_optimizer.py:221-223 | a port's override is the value of the last piece naming it before the first bad one |
| OverrideParser.StopsAtFirstBad | SIH/flask_shipping_optimizer.py:220-225 | nothing after a piece that does not parse has any effect |
| OverrideParser.TrailingCommaKeepsEntries | SIH/flask_shipping_optimizer.py:217-225 | a trailing comma after a field that ends in a non-space character leaves the overrides as they are without it |
| Optimizer.AdjacencyDuplicateFree | SIH/flask_shipping_optimizer.py:52-61 | no adjacency list of the shipped network names a neighbour twice |
| Optimizer.RankRoutes | SIH/flask_shipping_optimizer.py:228-237 | the enumeration is `Routes`, every route exactly once; the ranking is exactly the stable sort by cost of the feasible candidates in that order, and it answers the request as `Answers` describes |
| Optimizer.FailureAnswers | SIH/flask_shipping_optimizer.py:229-230 | a route the scorer raises on makes the whole request fail, and what it raises is division by zero |
| Optimizer.RouteMeasurable | SIH/flask_shipping_optimizer.py:126-131 | every leg of a route joins two codes of `PORTS`, so the scorer never raises `KeyError` on a route, whatever the edge table |
| Optimizer.SuccessAnswers | SIH/flask_shipping_optimizer.py:228-237 | ranking the feasible candidates of a duplicate-free enumeration of all routes answers the request |
| Optimizer.Optimize | SIH/flask_shipping_optimizer.py:209-237 | `/optimize` answers with exactly the ranking of the feasible candidates of `Routes`, listed once each in enumeration order, scored with the overrides its field parses to and `EDGES` of the shipped network |
| Optimizer.ApiOptimize | SIH/flask_shipping_optimizer.py:248-268 | `/api/optimize` refuses a missing or unknown origin or destination before enumerating, and otherwise answers with exactly the ranking of the feasible candidates of `Routes` under the given overrides |
| Optimizer.NoRouteNoBest | SIH/flask_shipping_optimizer.py:236-237 | without a route the answer is an empty list and no best |
| Optimizer.UnknownOriginHasNoRoute | SIH/flask_shipping_optimizer.py:106 | a port without an adjacency entry starts no route |
| Optimizer.NoRouteIntoCNS | SIH/flask_shipping_optimizer.py:52-61 | no adjacency list names CNS, so no route ends there |
| Optimizer.SinPtyLaxIsRoute | SIH/flask_shipping_optimizer.py:55-57 | SIN-PTY-LAX is a route from SIN to LAX, and so is yielded |
| Optimizer.SevenLegRoute | SIH/flask_shipping_optimizer.py:104 | CNS-HKG-IDX-SHA-SIN-PTY-LAX-DXB, with seven legs, is a route at the hop limit of six |
| Optimizer.ScoresNonNegative | SIH/flask_shipping_optimizer.py:116-139 | scored against `EDGES`, with no negative override, a fuel price that is not negative and a positive speed, every path costs nothing negative and takes no negative time |
| Optimizer.RouteLegsInTable | SIH/flask_shipping_optimizer.py:126-131 | every leg of a route is found in `EDGES`, so the direct-distance fallback is never used on one |
| Optimizer.ReversedRouteScoresTheSame | SIH/flask_shipping_optimizer.py:126 | a route travelled backwards costs the same and takes as long before rounding |
| Optimizer.OverrideOnRoute | SIH/flask_shipping_optimizer.py:120-122 | an override for one port moves a route's cost by the new cost minus 500 when the route visits that port, and leaves it unchanged otherwise |

## Left out

- Flask routing, reading `request.form` and `request.json`, the HTML and map template, `json.dumps`, `jsonify` and the HTTP status codes are not modelled. A handler's answer is a `Result` of a `Ranking`.
- Reading the numeric form or JSON fields with `float(...)`, and their defaults, are not modelled. `FUEL_PRICE_PER_KM` is used only as such a default, so it is not modelled either, and `DEFAULT_VESSEL_SPEED_KMH` appears only in the time stored in `EDGES`. Neither is the `KeyError` raised when `origin` or `destination` is missing from the form. The numbers arrive as a `Request`.
- `haversine_km` and the port coordinates are not modelled, because they are floating-point trigonometry. The distance is the parameter `dist`, assumed non-negative.
- Floating-point rounding is not modelled: sums and products are exact reals. `round(x, 2)` is an uninterpreted parameter.
- The behaviour of `float(text)` is not modelled. It is a parameter that may fail.
- Text.Upper, Text.UpperChar: map only the characters that Python's `upper()` turns into one ASCII capital: the ASCII lower-case letters, the dotless i and the long s. Every other character is kept. Python also changes other letters, for example `é` to `É`, and it lengthens some, for example `ß` to `SS` and `ﬁ` to `FI`. None of those results is a port code: a port code is three ASCII capitals, and none holds SS, FF, FI, FL or ST. So an entry names a port in the model exactly when it does in Python. The spelling of keys that name no port can differ from Python's.
- JSON overrides whose values are not numbers are not modelled. So are JSON ports that are not strings: `/api/optimize` receives an `Option<Port>` and a map from port to real.
- The generator is not interleaved with scoring. The model enumerates all routes and then scores them. Python scores each route as it is yielded, but scoring has no effect on the enumeration, so the answer is the same, including when it fails.
- `EDGES` is built once at module load in Python. The model builds the same table with `BuildEdges` inside each handler.
- `max_hops` defaults to 6 in Python, and both handlers pass 6 (`Network.MaxHops`).
- The unused `permutations` and `islice` imports and `app.run` are not modelled.
