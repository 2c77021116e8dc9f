# Network technologies labs: a verified model

This project is a Dafny model of three sequential components of a set of
computer-networks laboratory exercises.

- **Reliability simulation** (`lab2/lab2.py`, class `NetworkSimulation`).
  - The network is an undirected graph on the nodes 1..20. Every edge has a capacity `c`.
  - A demand matrix N gives the traffic between each ordered pair of nodes.
  - The load matrix adds each pair's demand to every edge of that pair's
    fewest-hop route, in both directions.
  - An edge is overloaded when `2·load·m > c`.
  - The mean packet delay T is the sum of `a / (c/m - a)` over the edges, divided by the total demand.
    Here `a = 2·load`. T is infinite as soon as one edge is saturated.
  - Reliability is the share of 100 random trials in which the damaged graph
    is connected, has no overloaded edge and has `T < 0.1`. A trial damages the
    graph by removing each edge whose random draw exceeds `p`.
  - The topology mutators raise or reset capacities, add random edges and average the capacities.
- **CRC-32 and HDLC-style framing** (`lab3/asciinema/zadanie1.py`).
  - The CRC is the table-driven reflected CRC-32 (polynomial `0xEDB88320`, initial and final XOR `0xFFFFFFFF`).
  - Bit stuffing inserts a `0` after every five `1`s of a string of binary digits; unstuffing removes it.
  - A frame is the flag `01111110`, the stuffed chunk, the 32-digit binary CRC of the chunk, and the flag again.
  - The component also covers frame verification, single-bit corruption and the tally of good and damaged frames.
- **CSMA/CD bus** (`lab3/Zadanie2.2/zadanie2.py`).
  - The bus is a list of cells. Each cell is idle, holds a transmitter's mark, or holds the collision marker X.
  - On each step, a transmitter first counts down its start delay and then its backoff.
  - When neither is running, it writes its own mark at its own position, without looking at that cell, and sweeps its present reach on each side.
    - A cell in reach that is neither idle nor its own mark (another transmitter's mark, or X) becomes X.
    - An idle cell in reach, or one already holding its own mark, gets its own mark.
    - It reports a collision if any such foreign cell was found in reach.
    - Without a collision, the reach grows by one cell on each side, up to the signal length.
  - The network can clear the bus (every X stays), spread a collision (every cell becomes X) and reset everything.

Modules:
- `Options`: the `Option` datatype.
- `Powers`: powers of two, used for the CRC field width and the backoff window.
- `Crc32`:
  - a bitwise reference definition of the CRC;
  - the table-driven `Calculator` class;
  - the proof that the table and the bitwise definition agree.
- `Framing`:
  - Python's `str.replace` and slicing;
  - stuffing and unstuffing;
  - UTF-8 encoding and `int(s, 2)`;
  - frame assembly, verification, corruption and tallying.
- `Traffic`:
  - the 20 × 20 matrices;
  - the load matrix built step by step as in the loops (`Loads`);
  - an independent entry-wise sum (`TotalLoad`).
- `Graphs`:
  - edges as a sequence in iteration order, and the mutable `Graph` class;
  - the shortest-path and connectivity oracle;
  - removal, scaling, restoring and growing of edge lists.
- `Simulation`:
  - the `NetworkSimulation` class;
  - the delay figure;
  - the per-trial predicate and the trial count.
- `Csma`:
  - the `Cell` datatype;
  - the sweep function that specifies `propagate`;
  - the `Transmitter` and `Network` classes.

Inputs that the model does not compute itself:
- **Random draws.**
  - Every call to `random.randint`, `random.random` or `np.random.randint` is a parameter.
  - Sequences of draws are indexed by pair, edge or trial.
- **networkx.** Connectivity and shortest paths come from an `Oracle` value.
  - Its `Sound` contract says the graph is connected exactly when fewest-hop routes exist for all pairs.
  - `paths` returns such routes. Edges carry no weight, so Dijkstra counts hops.
  - Ties between routes of equal length are left open.

## Model

| member | source | states |
|---|---|---|
| Crc32.GenerateCrcTable | lab3/asciinema/zadanie1.py:9-23 | the table has 256 entries; entry i is i after eight conditional shift-and-XOR steps with 0xEDB88320; entry 0 is 0; entries are 32-bit words |
| Crc32.ShiftByte | lab3/asciinema/zadanie1.py:14-21 | the inner eight-step loop yields the reference entry for i |
| Crc32.Calculator.constructor | lab3/asciinema/zadanie1.py:5-7 | the calculator holds a valid CRC table |
| Crc32.Calculator.CalculateCrc | lab3/asciinema/zadanie1.py:25-32 | the table loop returns the bitwise CRC-32 of the bytes (init and final XOR 0xFFFFFFFF); the result is a 32-bit word, and 0 for empty input |
| Crc32.TableFeedIsBitwise | lab3/asciinema/zadanie1.py:30 | one table step `table[(crc ^ b) & 0xFF] ^ (crc >> 8)` equals feeding the byte's eight bits one by one |
| Crc32.TableRegisterIsRegister | lab3/asciinema/zadanie1.py:27-31 | the table loop over a whole byte string equals the bitwise register |
| Framing.Slice | lab3/asciinema/zadanie1.py:65-67 | Python slicing with negative and out-of-range bounds clamped: the result is the cut of the string between the normalised bounds |
| Framing.ReplaceAll | lab3/asciinema/zadanie1.py:34-40 | left-to-right `str.replace`: the string is unchanged when the pattern does not occur; a longer replacement never shortens it and a shorter one never lengthens it |
| Framing.Stuff | lab3/asciinema/zadanie1.py:34-36 | `bit_stuffing`: the stuffed string is never shorter than the data; StuffRoundTrip, StuffNoSixOnes and StuffBinary state what it guarantees |
| Framing.Unstuff | lab3/asciinema/zadanie1.py:38-40 | `unbit_stuffing`: the result is never longer than its input; StuffRoundTrip states that it undoes `Stuff` |
| Framing.StuffRoundTrip | lab3/asciinema/zadanie1.py:34-40 | unstuffing a stuffed string gives the original string back, for every string |
| Framing.StuffNoSixOnes | lab3/asciinema/zadanie1.py:34-36 | the stuffed form of a binary string never holds six consecutive 1s, so the flag cannot occur inside it |
| Framing.StuffBinary | lab3/asciinema/zadanie1.py:34-36 | stuffing keeps a binary string binary |
| Framing.Utf8 | lab3/asciinema/zadanie1.py:48 | one character encodes to one to four bytes; it takes a single byte exactly when it is ASCII, and that byte is its own code |
| Framing.Encode | lab3/asciinema/zadanie1.py:48 | `str.encode('utf-8')`: the encoding is at least as long as the string and at most four times as long |
| Framing.EncodeBinary | lab3/asciinema/zadanie1.py:48 | a string of '0' and '1' encodes to the bytes 48 and 49, one per character |
| Framing.ParseBinary | lab3/asciinema/zadanie1.py:67 | `int(s, 2)`: None (ValueError) exactly for an empty or non-binary field; otherwise the value is below 2^len |
| Framing.CrcField | lab3/asciinema/zadanie1.py:49 | `f"{crc:032b}"` is exactly 32 characters, each '0' or '1' |
| Framing.DigitsRoundTrip | lab3/asciinema/zadanie1.py:49-67 | parsing the fixed-width binary digits of n gives n back |
| Framing.CrcFieldRoundTrip | lab3/asciinema/zadanie1.py:49-67 | the 32-digit field `format(crc, '032b')` parses back to the same CRC |
| Framing.FrameOf | lab3/asciinema/zadanie1.py:47-51 | a frame has length 48 plus the stuffed chunk length, and starts and ends with the flag |
| Framing.VerifyFrame | lab3/asciinema/zadanie1.py:62-73 | a frame lacking a flag at either end gives (False, frame); a verdict of True carries the unstuffed data whose CRC equals the received field |
| Framing.FrameParts | lab3/asciinema/zadanie1.py:47-67 | the slices taken by verification are exactly the stuffed chunk and the CRC field that assembly wrote |
| Framing.FrameRoundTrip | lab3/asciinema/zadanie1.py:43-73 | an untouched frame of any chunk verifies as (True, chunk) |
| Framing.CorruptFrame | lab3/asciinema/zadanie1.py:54-60 | without corruption the frame is returned unchanged; with it exactly the bit at the drawn index in [8, len-41] is flipped; a frame too short for that range is None (ValueError) |
| Framing.Flip | lab3/asciinema/zadanie1.py:58 | the replacement character differs from the original and is '0' or '1' |
| Framing.CorruptKeepsFrame | lab3/asciinema/zadanie1.py:54-60 | corruption keeps the length, both flags and the CRC field |
| Framing.ChunksShape | lab3/asciinema/zadanie1.py:46-47 | slicing by a positive size gives ceil(n/size) chunks, each non-empty and at most size long |
| Framing.ChunksConcat | lab3/asciinema/zadanie1.py:46-47 | the chunks concatenate back to the data |
| Framing.ChunksStep | lab3/asciinema/zadanie1.py:46-47 | at an offset i inside the data, the next chunk is `data[i:i+size]` and the chunks after it are those from offset i + size |
| Framing.BuildFrame | lab3/asciinema/zadanie1.py:47-51 | the frame built with the table CRC is the frame of the chunk |
| Framing.FrameData | lab3/asciinema/zadanie1.py:43-52 | a zero frame size is None (ValueError from `range`); a negative size gives no frames; otherwise one frame per chunk, in order |
| Framing.FrameChunks | lab3/asciinema/zadanie1.py:45-52 | the loop appends the frame of every chunk in order |
| Framing.TallyOf | lab3/asciinema/zadanie1.py:75-86 | repaired data plus damaged count equals the number of frames |
| Framing.ProcessFrames | lab3/asciinema/zadanie1.py:75-86 | the loop computes the tally of the frames |
| Framing.TallyStops | lab3/asciinema/zadanie1.py:75-86 | a ValueError raised on some frame escapes: once a prefix of the frames fails, the whole list fails |
| Framing.FramesRecovered | lab3/asciinema/zadanie1.py:43-86 | untouched frames of any chunks are all repaired, in input order, with no damaged frame |
| Framing.DataRecovered | lab3/asciinema/zadanie1.py:43-86 | framing data and processing the untouched frames gives back the chunks, in order, which concatenate to the data |
| Traffic.AddHop | lab2/lab2.py:42-45 | one hop adds the flow to entries (u-1, v-1) and (v-1, u-1) and changes nothing else |
| Traffic.AddPathEntry | lab2/lab2.py:42-45 | after the hops of a route, each entry has grown by the flow times the number of times the route crosses it |
| Traffic.AddRowEntry | lab2/lab2.py:38-45 | the loop over destinations adds, per entry, the demand-weighted crossings of the routes from the source |
| Traffic.AddRowsEntry | lab2/lab2.py:37-45 | the full double loop, entry by entry, equals the reference sum |
| Traffic.Loads | lab2/lab2.py:34-45 | the load matrix that `compute_a_values` leaves is a 20 × 20 matrix; LoadsAsSum, LoadsSymmetric and LoadsNonNegative state its entries |
| Traffic.LoadsAsSum | lab2/lab2.py:34-45 | entry (x, y) of the load matrix is the sum over ordered pairs i≠j of N[i][j] times the crossings of x-y by the route from i to j |
| Traffic.LoadsSymmetric | lab2/lab2.py:34-45 | the load matrix is symmetric |
| Traffic.LoadsNonNegative | lab2/lab2.py:37-45 | a non-negative demand matrix gives a non-negative load matrix |
| Graphs.Graph.Copy | lab2/lab2.py:51 | `graph.copy()`: a fresh graph with the same edges |
| Graphs.HasEdgeSome | lab2/lab2.py:109 | `graph.has_edge(u, v)` holds exactly when some edge of the list joins u and v, in either direction |
| Graphs.CapacityOfLink | lab2/lab2.py:58 | in a simple graph, `graph[u][v]['c']` at the ends of an edge is that edge's capacity |
| Graphs.Survivors | lab2/lab2.py:69-74 | removal never adds edges |
| Graphs.SurvivorsWithin | lab2/lab2.py:69-74 | every surviving edge was an edge before |
| Graphs.SurvivorsExact | lab2/lab2.py:71-74 | edge k survives exactly when its draw does not exceed the probability |
| Graphs.SurvivorsAll | lab2/lab2.py:71-74 | with probability at least 1 and draws in [0, 1), nothing is removed |
| Graphs.SurvivorsSimple | lab2/lab2.py:69-74 | a simple graph stays simple |
| Graphs.Raised | lab2/lab2.py:100-101 | raising a capacity by a percentage keeps the edge's ends; a non-negative percentage never lowers a non-negative capacity, and a non-positive one never raises it |
| Graphs.Scaled | lab2/lab2.py:99-101 | every edge, in order, is raised by the percentage |
| Graphs.ScaledKeepsTopology | lab2/lab2.py:97-102 | scaling keeps the edge list's ends and simplicity, and a non-negative percentage does not lower any non-negative capacity |
| Graphs.ScaledStep | lab2/lab2.py:99-101 | raising edge k of a partly scaled list gives the list scaled one edge further |
| Graphs.SetCapacity | lab2/lab2.py:116 | `graph[u][v]['c'] = capacity` changes the capacity of the edge u-v, whichever way round it is stored, and nothing else |
| Graphs.Restore | lab2/lab2.py:113-116 | resetting capacities keeps the edges and their order |
| Graphs.RestorePrefix | lab2/lab2.py:113-116 | after the first k saved items, the first k edges carry their saved capacities |
| Graphs.RestoreUndoesScaling | lab2/lab2.py:97-116 | resetting to a snapshot taken before a capacity increase restores the snapshot exactly |
| Graphs.TotalCapacityBounds | lab2/lab2.py:120 | with every capacity in [lo, hi], the total lies between n·lo and n·hi |
| Graphs.Grow | lab2/lab2.py:104-111 | the existing edges are kept as a prefix, and no more than the requested number are added |
| Graphs.GrowSimple | lab2/lab2.py:106-111 | added edges are never self-loops or duplicates, and every added edge has the mean capacity |
| Graphs.GrowStops | lab2/lab2.py:106-107 | once the requested number has been added, further draws change nothing |
| Simulation.PopulatedShape | lab2/lab2.py:24-28 | the filled matrix is symmetric, has a zero diagonal and every off-diagonal entry in 1..10 |
| Simulation.NetworkSimulation.constructor | lab2/lab2.py:16-20 | N and the load matrix start as all-zero 20 × 20 matrices |
| Simulation.NetworkSimulation.PopulateNMatrix | lab2/lab2.py:22-28 | each draw is written to (x, y) and (y, x) for x < y, and the diagonal is untouched |
| Simulation.Bumped | lab2/lab2.py:94-95 | the increment is added to exactly the nonzero entries; zero entries stay zero |
| Simulation.BumpedShape | lab2/lab2.py:94-95 | the increase keeps symmetry, a zero diagonal and, for a non-negative increment, non-negativity |
| Simulation.NetworkSimulation.IncreaseNValues | lab2/lab2.py:92-95 | N becomes its bumped form, and the loads are unchanged |
| Simulation.NetworkSimulation.ComputeAValues | lab2/lab2.py:31-45 | the load matrix is recomputed from zero as the loads of N over the oracle's routes; it is independent of the previous loads, so two calls agree |
| Simulation.NetworkSimulation.AddSourceFlows | lab2/lab2.py:38-45 | the loop over destinations adds the routes from one source |
| Simulation.NetworkSimulation.AddPathFlow | lab2/lab2.py:42-45 | the hop loop adds the flow along one route |
| Simulation.NetworkSimulation.RandomlyRemoveEdges | lab2/lab2.py:69-74 | the graph keeps exactly the edges whose draw does not exceed the probability, in order |
| Simulation.NetworkSimulation.RemovalStep | lab2/lab2.py:71-74 | removing edge k from the list in place matches the survivors of one more draw |
| Simulation.NetworkSimulation.NotOverloaded | lab2/lab2.py:55-60 | the result is true exactly when no edge of the damaged graph has 2·load·m above its capacity in the undamaged graph |
| Simulation.DelaySumNonNegative | lab2/lab2.py:83-89 | with non-negative loads and no saturated edge, the running delay sum is non-negative |
| Simulation.Quotient | lab2/lab2.py:90 | `total_delay / G_value` is a number exactly when the divisor is nonzero, and non-negative for a non-negative sum and positive divisor; a zero divisor gives nan exactly for a zero sum |
| Simulation.DelayOf | lab2/lab2.py:77-90 | T is inf when some edge is saturated; otherwise it is a number exactly when the total demand is nonzero |
| Simulation.Acceptable | lab2/lab2.py:63 | `T < T_max` on a float: inf and nan never pass, -inf always passes, and a number passes exactly when it is below 0.1 |
| Simulation.DelayFinite | lab2/lab2.py:77-90 | T is infinite exactly when some edge has c/m - 2·load ≤ 0; otherwise, for a positive total demand, T is a finite non-negative number |
| Simulation.NetworkSimulation.CalculateT | lab2/lab2.py:77-90 | the loads are recomputed over the graph, and T is the delay figure of those loads divided by the total of N |
| Simulation.NetworkSimulation.MeanDelay | lab2/lab2.py:83-90 | the edge loop returns infinity at the first saturated edge, and otherwise the delay sum divided by the total demand |
| Simulation.Reliable | lab2/lab2.py:49-64 | the number of successful trials never exceeds the number of trials |
| Simulation.ReliableAllOrNone | lab2/lab2.py:47-67 | with probability at least 1 and draws in [0, 1), every trial damages nothing, so either all trials succeed or none does |
| Simulation.Trial | lab2/lab2.py:51-64 | a successful trial leaves a connected damaged graph |
| Simulation.NetworkSimulation.RunTrial | lab2/lab2.py:51-64 | a trial succeeds exactly when the damaged graph is connected, no edge is overloaded and T < T_max; the loads are those of the damaged graph when it is connected |
| Simulation.NetworkSimulation.SimulateReliability | lab2/lab2.py:47-67 | the result is the number of successful trials divided by 100, and lies in [0, 1] |
| Simulation.NetworkSimulation.IncreaseCapacities | lab2/lab2.py:97-102 | every capacity is raised by the percentage, in edge order; the loads are recomputed over the unchanged topology |
| Simulation.NetworkSimulation.ResetCapacities | lab2/lab2.py:113-116 | each saved capacity is written back to its edge |
| Simulation.NetworkSimulation.AddRandomEdges | lab2/lab2.py:104-111 | the graph grows by the draws that form new edges between distinct nodes, until the requested number has been added |
| Simulation.NetworkSimulation.AverageCapacity | lab2/lab2.py:118-122 | the average times the number of edges is the total capacity; an edgeless graph gives 0 |
| Simulation.NetworkSimulation.AverageWithin | lab2/lab2.py:118-122 | when every capacity lies in [lo, hi], so does the average |
| Csma.Sweep | lab3/Zadanie2.2/zadanie2.py:49-75 | the transmitter's own mark is at its position; cells out of reach are unchanged; a cell in reach becomes X if it held something other than idle or the own mark, and the own mark otherwise |
| Csma.SweepCollision | lab3/Zadanie2.2/zadanie2.py:59-78 | a collision was seen on either side exactly when the swept reach holds an X afterwards |
| Csma.SweepIdempotent | lab3/Zadanie2.2/zadanie2.py:59-75 | sweeping the same reach twice changes nothing the second time |
| Csma.Cleared | lab3/Zadanie2.2/zadanie2.py:174-180 | clearing keeps exactly the X cells and makes every other cell idle, at the same length |
| Csma.ClearedIdempotent | lab3/Zadanie2.2/zadanie2.py:174-180 | clearing twice is clearing once |
| Csma.ClearAfterCleanSweep | lab3/Zadanie2.2/zadanie2.py:59-180 | a sweep that meets no foreign cell leaves nothing behind once the bus is cleared |
| Csma.Transmitter.constructor | lab3/Zadanie2.2/zadanie2.py:5-30 | a new transmitter has zero reach, zero backoff and collision count, is not transmitting, and has its start delay in 0..10 |
| Csma.Transmitter.Propagate | lab3/Zadanie2.2/zadanie2.py:32-87 | a running start delay or backoff only counts down, returns False and leaves the bus alone; otherwise the bus becomes the sweep of the old bus, the result is true exactly when a foreign cell was in reach, and only a collision-free step grows each reach by one, up to the signal length, and sets transmitting |
| Csma.Transmitter.CollectUpdates | lab3/Zadanie2.2/zadanie2.py:49-71 | the update list names the position, then the left cells, then the right cells, each paired with its swept value; the flag is set exactly when a foreign cell was seen |
| Csma.Transmitter.ApplyUpdates | lab3/Zadanie2.2/zadanie2.py:74-75 | writing the updates turns the bus into the sweep |
| Csma.Transmitter.HandleCollision | lab3/Zadanie2.2/zadanie2.py:89-99 | the collision count rises by one; the backoff is the draw in [1, 2^min(count, 10)]; both reaches are zero and transmitting is cleared |
| Csma.BackoffWindow | lab3/Zadanie2.2/zadanie2.py:96 | the backoff window doubles with each collision up to the tenth and then stays at 1024 |
| Csma.Transmitter.Reset | lab3/Zadanie2.2/zadanie2.py:101-109 | both reaches are zero, the start delay becomes the backoff time, and transmitting is cleared |
| Csma.Network.constructor | lab3/Zadanie2.2/zadanie2.py:112-118 | the bus has the given length with every cell idle, and no collision is recorded |
| Csma.Network.SpreadCollision | lab3/Zadanie2.2/zadanie2.py:167-172 | every cell becomes X, at the same length |
| Csma.Network.ClearNetwork | lab3/Zadanie2.2/zadanie2.py:174-180 | the bus becomes its cleared form |
| Csma.Network.ResetNetwork | lab3/Zadanie2.2/zadanie2.py:182-189 | the bus is all idle at the same length, the collision flag is cleared, and every transmitter is reset |

## Left out

- `write_frames`, the source generation and the driver at `lab3/asciinema/zadanie1.py:88-116` are not modelled: they do file I/O and console output.
- The `print` in `verify_frame` and in `handle_collision` is not modelled.
- `Network.display` and `Network.simulate` are not modelled: the latter is an endless loop with `time.sleep` and console output.
- The module-level topology construction, plots and experiment drivers of `lab2/lab2.py:125-215` are not modelled.
- `lab3/Zadanie2/zadanie2.py`, the threaded variant of the bus, is not part of this model.
- Randomness is not modelled. Every random draw is a parameter.
  - `Framing.CorruptFrame` takes the outcome of `random.random() < p` as a boolean and the drawn index as a number.
  - `Csma.Transmitter.constructor` takes the start-delay draw as a parameter.
- networkx is not modelled. `is_connected` and `all_pairs_dijkstra_path` are the `Oracle` contract.
  - The contract does not pin down which of several equally short routes is chosen.
  - The edge iteration order is modelled as the order of the edge sequence. networkx iterates edges node by node over its adjacency lists, so its order can differ; no proved result depends on it.
  - A new edge is modelled as appended at the end of the edge sequence.
- Floating point is modelled as Dafny `real`, without rounding.
  - The capacity increase, the delay sum and the average capacity are exact.
  - `float('inf')` is a datatype value.
  - numpy's division of the delay sum by a zero total demand is the `Quotient` case split (`inf`, `-inf` or `nan`).
- numpy `int` matrices are unbounded integers: 64-bit overflow is not modelled.
- The in-place numpy and list updates are modelled as `seq` fields that are reassigned whole.
- Simulation.NetworkSimulation.CalculateT: requires `m > 0`. With `m == 0`, `c / m` raises ZeroDivisionError, and that error path is not modelled.
- Simulation.NetworkSimulation.MeanDelay: requires `m > 0`, for the same reason as `CalculateT`.
- Simulation.NetworkSimulation.SimulateReliability: requires `m > 0` (for the delay); takes exactly 100 trial draws.
- Simulation.NetworkSimulation.ComputeAValues: requires the oracle to report the graph connected.
  - On a disconnected graph, `paths[i][j]` raises KeyError.
  - The source calls it only after a connectivity test, or on the connected base graph.
- Simulation.NetworkSimulation.IncreaseCapacities: requires a connected graph when there are edges, for the same reason as `ComputeAValues`.
- Simulation.NetworkSimulation.ResetCapacities: requires every saved edge to exist in the graph. A missing edge raises KeyError, and that error path is not modelled.
- Simulation.NetworkSimulation.AddRandomEdges: stops when the given draws run out, so it adds at most the requested number.
  - The Python loop draws until it has added exactly that many, and never ends when no new pair exists.
  - "Exactly the requested number" holds only for draw sequences that offer enough new pairs. `Graphs.GrowStops` states that case, but no statement derives it from the draws.
- The graph is assumed simple, which is how networkx stores an undirected `Graph`: no duplicate edges, and the base topology has no self-loops.
- Framing.ParseBinary: it accepts exactly the non-empty strings of '0' and '1'.
  - Python's `int(s, 2)` also accepts surrounding whitespace, a sign, a `0b` prefix and underscores.
  - Frames built by `frame_data` and corrupted by `corrupt_frame` never carry these in the CRC field, because corruption flips only data positions.
- Csma: the ANSI-coloured cell strings are abstracted to `Idle`, `Mark(color + name)` and `Jam`.
  - A colour and name whose concatenation equals `'0'` or the X string is not modelled.
- Csma.Transmitter.Propagate: requires `0 <= position < len(network)`. Python's IndexError and negative indexing are not modelled.
- Csma.Transmitter.HandleCollision: the backoff draw is required to lie in the window that `random.randint` would draw from.
