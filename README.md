# Graph colouring by backtracking, and byte-vector arithmetic, in Dafny

This project models the core of the `418project` repository.

- **Graph colouring** (`graph_coloring/`):
  - the node record and its three methods;
  - the two conflict checks `all_consistent` and `new_assign_valid`;
  - the single-threaded exhaustive backtracking search;
  - single-threaded Asynchronous Backtracking (ABT) with its helpers `update_color` and `get_last_and_next_color`;
  - the graph reader `read_graph`;
  - the arithmetic that splits the nodes among threads;
  - the three colour enums.
- **Little-endian byte vectors** (`src/`):
  - `mult_u8` and `add_u8`;
  - `add_vecu8`, with the final carry (`src/manual_vec.rs`) and without it (`src/main.rs`);
  - the conversions between a `u64` and a byte vector.

Shape of the model:

- A graph is an `array<Node>`, where `Node` is a datatype value, as in the source's `Vec<Node>`. The algorithms that update the graph in place are methods on that array:
  - `ExhaustiveSearch.ExhaustiveSearch`;
  - `AbtSolver.AbtSequential` and its per-pass and per-visit steps.
- Every method is proved against a specification:
  - `ExhaustiveSearch` is proved against the predicate `Settled` and, when every stack starts full, against `Colourable`: it succeeds exactly when a proper colouring exists;
  - the ABT methods end in the state that the functions `AbtSolver.Visit`, `AbtSolver.PassFrom` and `AbtSolver.Abt` compute, and the properties of the algorithm are lemmas about those functions.
- Rust's `usize`, `u8`, `u16` and `u64` are `nat` or subset types of `nat`. Where the source's bytes wrap or its arithmetic can overflow, the model says so explicitly.

Where the code differs from what its names and comments suggest, the model follows the code:

- `all_consistent` counts two uncoloured neighbours as a clash.
- A node that switches to a new colour in ABT does not tell its neighbours about it (graph_coloring/main.rs:188).
- `read_graph` adds every edge in both directions. It rejects neither repeated edges nor self-loops.

## Model

| member | source | states |
|---|---|---|
| SevenColoring.NumColors | graph_coloring/seven_coloring.rs:14-16 | the domain has seven colours, the length of `vector_of_colors()` |
| SevenColoring.VectorOfColors | graph_coloring/seven_coloring.rs:18-21 | lists each of the seven colours exactly once, in declaration order, starting with Red |
| FourColoring.NumColors | graph_coloring/four_coloring.rs:10-12 | the domain has four colours, the length of `vector_of_colors()` |
| FourColoring.VectorOfColors | graph_coloring/four_coloring.rs:14-16 | lists each of the four colours exactly once, in declaration order, starting with Red |
| ThreeColoring.NumColors | graph_coloring/three_coloring.rs:9-11 | the domain has three colours, the length of `vector_of_colors()` |
| ThreeColoring.VectorOfColors | graph_coloring/three_coloring.rs:13-15 | lists each of the three colours exactly once, in declaration order, starting with Red |
| GraphColoring.NewNode | graph_coloring/main.rs:33-43 | a new node is uncoloured, untouched, has no neighbours and empty views, and has every colour left to try |
| GraphColoring.Node.AddNeighbor | graph_coloring/main.rs:45-47 | appends exactly one index to the adjacency list; every other field is unchanged |
| GraphColoring.Node.AssignColor | graph_coloring/main.rs:49-51 | the node holds the given colour; every other field is unchanged |
| GraphColoring.NewAssignValid | graph_coloring/main.rs:72-81 | true if and only if no neighbour below the bound holds the same colour option as the node |
| GraphColoring.NoClashAmong | graph_coloring/main.rs:73-80 | the scan over the adjacency list, stopping at the first clash: true if and only if no listed index below the bound clashes |
| GraphColoring.AllConsistent | graph_coloring/main.rs:56-67 | true if and only if no node has an in-range neighbour with the same colour option (two uncoloured nodes clash) |
| GraphColoring.NodesConsistentFrom | graph_coloring/main.rs:57-65 | the outer loop from a given node on: true if and only if no node from there on clashes with an in-range neighbour |
| GraphColoring.UpdateColor | graph_coloring/main.rs:113-158 | keeps the current colour when it is absent from the agent view and the nogoods; otherwise returns an allowed colour from `remaining`, and returns None exactly when no colour there is allowed |
| GraphColoring.UpdateColorTakesFirst | graph_coloring/main.rs:134-157 | a new colour is the first allowed entry of `remaining`: every earlier entry is forbidden |
| GraphColoring.FirstAllowedFrom | graph_coloring/main.rs:134-157 | the scan of `remaining` from position i: None exactly when no entry from i on is allowed, otherwise an allowed colour |
| GraphColoring.FirstAllowedIsFirst | graph_coloring/main.rs:134-157 | the colour found sits at a position before which no entry is allowed |
| GraphColoring.LastAndNextColor | graph_coloring/main.rs:257-268 | the last colour is the node's own; an untouched coloured node keeps its colour; an uncoloured or touched node gets exactly `update_color`'s choice, which is allowed, and None only when nothing in `remaining` is allowed |
| ExhaustiveSearch.ExhaustiveSearch | graph_coloring/main.rs:83-109 | changes only colours and candidate stacks; on success every node is coloured and differs from each lower-indexed neighbour; on failure node 0 has exhausted its candidates; started with every stack full, it returns true if and only if the graph has a proper colouring (the search is complete); the search terminates |
| ExhaustiveSearch.SearchStep | graph_coloring/main.rs:86-106 | one round of the outer loop keeps nodes below the next index settled and decreases the odometer measure, or gives up only at node 0; it keeps the invariant that no proper colouring has been skipped, and gives up only when none exists |
| ExhaustiveSearch.PopUntilValid | graph_coloring/main.rs:88-95 | pops candidates until the assigned colour fits the lower neighbours, touching only that node's colour and stack; the stack left is a prefix of the old one and, on success, the colour is the candidate popped last, just past that prefix; on failure the stack is empty; every candidate popped and given up on has the colour of a lower-indexed neighbour |
| ExhaustiveSearch.StepBack | graph_coloring/main.rs:96-100 | refilling the stack and stepping back keeps the lower nodes settled, does not increase the measure and keeps the no-colouring-skipped invariant |
| ExhaustiveSearch.StepForward | graph_coloring/main.rs:104-105 | stepping forward after a valid pop settles one more node, strictly decreases the measure and keeps the no-colouring-skipped invariant |
| ExhaustiveSearch.GiveUp | graph_coloring/main.rs:101-102 | giving up at node 0 with nothing skipped and every candidate clashing means no proper colouring exists |
| ExhaustiveSearch.SettledColourable | graph_coloring/main.rs:108 | a fully settled graph's own colours are a proper colouring |
| ExhaustiveSearch.TrackedStart | graph_coloring/main.rs:33-43 | nodes fresh from `Node::new`, with full stacks, have skipped no colouring at index 0 |
| ExhaustiveSearch.Exhausted | graph_coloring/main.rs:87-95 | when every remaining candidate of a node clashes, no proper colouring agrees with the search below that node |
| ExhaustiveSearch.TrackedForward | graph_coloring/main.rs:87-105 | a successful pop and a step forward skip no proper colouring |
| ExhaustiveSearch.ForwardShape | graph_coloring/main.rs:87-105 | after a successful pop the stacks stay prefixes of `vector_of_colors()` and the node holds the colour just above its stack |
| ExhaustiveSearch.ForwardSurvives | graph_coloring/main.rs:88-95 | a proper colouring agreeing below the node cannot use a colour given up on, because it clashed |
| ExhaustiveSearch.TrackedBack | graph_coloring/main.rs:96-100 | refilling an exhausted node and stepping back skip no proper colouring |
| ExhaustiveSearch.BackSurvives | graph_coloring/main.rs:96-100 | a colouring not yet skipped does not use the current colour of the node stepped back to |
| ExhaustiveSearch.SmallGraphColourable | graph_coloring/main.rs:391-404 | a graph with at most seven nodes has a proper colouring, so the search on the triangle of `simple_c3` succeeds |
| ExhaustiveSearch.CompleteGraphNotColourable | graph_coloring/main.rs:407-422 | `num_colors() + 1` mutually adjacent nodes, the graph the test `simple_invalid` builds without searching it, have no proper colouring, so the search on them fails |
| ExhaustiveSearch.OdometerAdvance | graph_coloring/main.rs:89 | popping a candidate at a node strictly decreases the odometer that reads the stack sizes as digits |
| ExhaustiveSearch.SettledIsConsistent | graph_coloring/main.rs:56-67 | on a symmetric graph without self-loops, a fully settled colouring passes `all_consistent` |
| AbtSolver.IndexOfSender | graph_coloring/main.rs:192-200 | finds the first agent-view entry sent by node k, or reports that none is |
| AbtSolver.Record | graph_coloring/main.rs:192-203 | after recording (k, c) the view holds (k, c), keeps every entry of other senders, and holds nothing else new |
| AbtSolver.RecordKeepsSendersUnique | graph_coloring/main.rs:192-203 | a view with at most one entry per sender keeps that property, and k's only entry is c |
| AbtSolver.RemoveAtKeepsUnique | graph_coloring/main.rs:230 | removing the blamed entry keeps a view free of repeated senders |
| AbtSolver.PropagateKeepsUnique | graph_coloring/main.rs:188-207 | telling the neighbours about a colour keeps every view free of repeated senders |
| AbtSolver.BacktrackKeepsUnique | graph_coloring/main.rs:211-231 | backtracking keeps every view free of repeated senders |
| AbtSolver.VisitKeepsUnique | graph_coloring/main.rs:171-233 | a visit keeps every view free of repeated senders |
| AbtSolver.AbtKeepsUnique | graph_coloring/main.rs:161-238 | a whole run keeps every view free of repeated senders |
| AbtSolver.RecordIdempotent | graph_coloring/main.rs:192-203 | telling a node the same (k, c) twice leaves the same view as telling it once |
| AbtSolver.Inform | graph_coloring/main.rs:191-204 | a told neighbour holds (k, c) in its view and is marked as touched; nothing else of it changes |
| AbtSolver.Propagate | graph_coloring/main.rs:188-207 | exactly the neighbours of k with a higher name are informed of k's colour; all other nodes are unchanged |
| AbtSolver.PropagateTo | graph_coloring/main.rs:189-207 | over a list of neighbours: each listed node with a higher name than k is informed; all others are unchanged |
| AbtSolver.Blame | graph_coloring/main.rs:215-225 | picks the view entry with the highest sender, the last one among equals |
| AbtSolver.Backtrack | graph_coloring/main.rs:211-231 | the blamed sender gets the blamed colour as a nogood and is marked; node k loses that view entry and is marked; no other view and no other nogood list changes, and no colour or candidate list changes |
| AbtSolver.RemoveAt | graph_coloring/main.rs:230 | removes exactly the entry at position j and keeps the order of the others |
| AbtSolver.Visit | graph_coloring/main.rs:171-233 | one visit keeps the graph's shape and keeps every index in range |
| AbtSolver.Marked | graph_coloring/main.rs:171-182 | the visited node takes its next colour, if any, and is marked; every other node is unchanged |
| AbtSolver.VisitEffect | graph_coloring/main.rs:171-233 | the three outcomes of a visit: a first or unchanged colour is told to the higher neighbours; a switched colour is kept without telling anyone; no colour left backtracks, or stops the run when the view is empty |
| AbtSolver.VisitOutcome | graph_coloring/main.rs:171-213 | a visit stops the run exactly when no colour is left and the view is empty; it counts as a change unless the node kept its colour; only node k's colour moves |
| AbtSolver.VisitMarks | graph_coloring/main.rs:182-229 | the visited node is marked, marks are never cleared, and no candidate list changes |
| AbtSolver.VisitQuiet | graph_coloring/main.rs:171-207 | a visit that changes nothing kept an allowed colour and only told its higher neighbours about it |
| AbtSolver.PassFrom | graph_coloring/main.rs:167-235 | a pass keeps the graph's shape, never forgets an earlier change, marks every node it visited, and keeps every agent view free of repeated senders |
| AbtSolver.Abt | graph_coloring/main.rs:164-238 | a run of passes keeps the graph's shape and keeps indices in range |
| AbtSolver.QuietStep | graph_coloring/main.rs:167-207 | each quiet visit keeps colours and extends the prefix of nodes coloured apart from their lower neighbours |
| AbtSolver.QuietPass | graph_coloring/main.rs:167-235 | after a pass with no change, every node is coloured as before and differs from each lower neighbour |
| AbtSolver.QuietPassStep | graph_coloring/main.rs:167-207 | a quiet visit does not stop the pass, extends the prefix of nodes coloured apart, and leaves the rest of the pass quiet |
| AbtSolver.QuietPassIsConsistent | graph_coloring/main.rs:164-166 | on a prepared graph, a pass with no change ends in a proper colouring |
| AbtSolver.ApartIsProper | graph_coloring/main.rs:56-67 | on a symmetric graph without self-loops, differing from every lower neighbour is a proper colouring |
| AbtSolver.PassKeepsPrepared | graph_coloring/main.rs:167-235 | a pass that does not stop leaves a graph the next pass can start from |
| AbtSolver.AbtSolvedIsConsistent | graph_coloring/main.rs:161-238 | whenever `abt_sequential` reports success, the final colouring is proper |
| AbtSolver.AbtAfterQuietPass | graph_coloring/main.rs:165-238 | a run whose first pass is quiet and proper succeeds with a proper colouring |
| AbtSolver.AbtAfterPass | graph_coloring/main.rs:165-166 | a proper success of the run after the first pass is a proper success of the whole run |
| AbtSolver.PassFromStep | graph_coloring/main.rs:167-235 | a pass is a visit of its next node followed by the rest of the pass, unless the visit stops the run |
| AbtSolver.PassFromEnd | graph_coloring/main.rs:167 | a pass past the last node returns the flags it gathered, without a stop |
| AbtSolver.AbtStopsAfter | graph_coloring/main.rs:212-213 | a pass that stops ends the run with failure |
| AbtSolver.AbtSettlesAfter | graph_coloring/main.rs:165-238 | a pass with no change ends the run with success |
| AbtSolver.AbtContinuesAfter | graph_coloring/main.rs:165-166 | a pass with a change is followed by the rest of the run |
| AbtSolver.AbtSequential | graph_coloring/main.rs:161-238 | the in-place run ends with the outcome and graph that `Abt` describes |
| AbtSolver.RunPass | graph_coloring/main.rs:165-237 | one round of the outer loop: failure, success, or the rest of the run from the new graph |
| AbtSolver.OnePass | graph_coloring/main.rs:166-235 | the in-place pass produces the flags and graph that `PassFrom` describes |
| AbtSolver.PassStep | graph_coloring/main.rs:167-235 | one iteration of the pass loop agrees with `PassFrom` |
| AbtSolver.VisitNode | graph_coloring/main.rs:171-233 | the in-place visit produces the graph and flags that `Visit` describes |
| AbtSolver.InformNeighbors | graph_coloring/main.rs:189-207 | the in-place loop over the neighbour list leaves the graph that `Propagate` describes |
| AbtSolver.InformAt | graph_coloring/main.rs:190-205 | telling one neighbour leaves the graph that `InformOne` describes |
| AbtSolver.PropagateToSnoc | graph_coloring/main.rs:189-207 | telling one more neighbour extends the pass over the list |
| AbtSolver.RecordInView | graph_coloring/main.rs:191-203 | the in-place scan of a neighbour's view leaves the view that `Record` describes, and nothing else changes |
| AbtSolver.BacktrackAt | graph_coloring/main.rs:214-231 | the in-place backtrack leaves the graph that `Backtrack` describes |
| AbtSolver.FindBlame | graph_coloring/main.rs:215-225 | the scan returns the position `Blame` picks and the sender and colour stored there |
| ReadGraph.Fresh | graph_coloring/main.rs:366-370 | a `p` line pushes `Node::new(i)` for i from 0 to n-1 |
| ReadGraph.Connect | graph_coloring/main.rs:372-375 | an `e` line appends b to a's neighbours and a to b's, and changes nothing else |
| ReadGraph.Apply | graph_coloring/main.rs:365-377 | one line panics exactly when it is an edge naming node 0 or a node not yet declared |
| ReadGraph.ReadLines | graph_coloring/main.rs:357-384 | the line loop builds the graph that `Load` describes, or panics where `Load` does |
| ReadGraph.PushFresh | graph_coloring/main.rs:368-370 | the inner loop appends exactly the fresh nodes 0..n-1 |
| ReadGraph.FailureSticks | graph_coloring/main.rs:363-380 | a panic on a prefix of the file is a panic of the whole read |
| ReadGraph.LoadedSize | graph_coloring/main.rs:366-370 | a successful read has as many nodes as the `p` lines declare |
| ReadGraph.LoadFailsIff | graph_coloring/main.rs:371-375 | a read panics if and only if some `e` line names node 0 or a node beyond those declared before it |
| ReadGraph.ApplyKeepsBuilt | graph_coloring/main.rs:365-377 | each line keeps adjacency in range and symmetric, and leaves the nodes otherwise fresh |
| ReadGraph.LoadedIsBuilt | graph_coloring/main.rs:357-384 | every successful read gives a symmetric graph with indices in range and otherwise fresh nodes |
| ReadGraph.LoadedHasNoSelfLoops | graph_coloring/main.rs:374-375 | without an `e u u` line, no node lists itself |
| ReadGraph.LoadedNamesAreIndices | graph_coloring/main.rs:368-369 | when every `p` line comes before any node exists, node i is named i |
| ReadGraph.LoadedIsPrepared | graph_coloring/main.rs:357-384 | such a file reads into a graph that satisfies the preconditions of the ABT correctness lemmas |
| ReadGraph.LoadedHasUniqueViews | graph_coloring/main.rs:357-384 | a freshly read graph has empty views, so it starts free of repeated senders |
| ReadGraph.LoadedIsUnstarted | graph_coloring/main.rs:357-384 | a freshly read graph has every candidate stack full, so the exhaustive search on it is complete |
| Partition.BlockSizes | graph_coloring/main.rs:500-506 | upper is the ceiling of n/k and lower is the floor; `lower_start` is k when k divides n, otherwise n % k |
| Partition.StartIndexClosedForm | graph_coloring/main.rs:522-526 | thread i starts at i·⌊n/k⌋ plus min(i, n % k), or plus 0 when k divides n |
| Partition.BlockOfThread | graph_coloring/main.rs:522-532 | thread i takes ⌊n/k⌋+1 nodes when i < n % k, and ⌊n/k⌋ otherwise |
| Partition.Contiguous | graph_coloring/main.rs:522-532 | each thread's block ends where the next thread's block starts |
| Partition.Bounds | graph_coloring/main.rs:522-532 | the first block starts at 0 and the last ends at n |
| Partition.StartsAscend | graph_coloring/main.rs:522-526 | block starts never decrease with the thread index |
| Partition.Covers | graph_coloring/main.rs:516-532 | every node lies in the block of some thread |
| Partition.Disjoint | graph_coloring/main.rs:516-532 | no node lies in the blocks of two different threads |
| LittleEndian.MultU8 | src/manual_vec.rs:24-31 | the two bytes are the low and high digits of the 16-bit product |
| LittleEndian.AddU8 | src/manual_vec.rs:33-40 | the two bytes are the low digit of the sum and its carry, which is at most 1 |
| LittleEndian.ValLittleEndian | src/manual_vec.rs:89-96 | a byte vector's value is its first byte plus 256 times the value of the rest |
| LittleEndian.ValBound | src/manual_vec.rs:89-96 | a vector of n bytes is worth less than 256^n |
| LittleEndian.ValInjective | src/manual_vec.rs:89-96 | two vectors of the same length with the same value are equal |
| LittleEndian.AddDigits | src/manual_vec.rs:71-82 | both digit loops give a vector as long as the longer operand plus a carry of at most 1, together worth the sum |
| LittleEndian.AddOverlap | src/manual_vec.rs:73-77 | the first loop sums the common prefix digit by digit with a carry of at most 1 |
| LittleEndian.CarryThrough | src/manual_vec.rs:78-82 | the second loop carries through the rest of the longer operand, completing the sum |
| ManualVec.AddVecU8 | src/manual_vec.rs:59-87 | the result is worth the sum; it has the longer operand's length, plus one byte (a 1) exactly when the sum does not fit |
| ManualVec.FinalCarry | src/manual_vec.rs:83-85 | pushing a nonzero final carry, which is 1, completes the sum |
| ManualVec.AddVecU8Commutes | src/manual_vec.rs:59-87 | the result does not depend on the order of the operands |
| ManualVec.VecToU64 | src/manual_vec.rs:89-97 | corrected: returns the value of any vector of at most eight bytes |
| ManualVec.VecToU64AsWrittenOverflows | src/manual_vec.rs:89-97 | as written, the function returns the value for up to seven bytes and overflows on eight or more |
| ManualVec.RoundTripPanicsAsWritten | src/manual_vec.rs:89-97 | as written, the eight-byte vector of 2^56 makes the function overflow |
| ManualVec.U64ToVec | src/manual_vec.rs:99-111 | the bytes are worth n; there are one to eight of them; 0 becomes [0]; otherwise the last byte is nonzero |
| ManualVec.RoundTrip | src/manual_vec.rs:89-111 | reading back the bytes of any u64 returns it unchanged |
| ManualVec.AddRoundTrip | src/manual_vec.rs:113-123 | converting two u64s, adding the vectors and reading back gives their sum whenever it fits in a u64 |
| WrappingVec.AddVecU8 | src/main.rs:59-80 | the result has the longer operand's length and is worth the sum modulo 256^length: the final carry is lost |
| WrappingVec.AddVecU8Commutes | src/main.rs:59-80 | the result does not depend on the order of the operands |
| WrappingVec.CarryIsDropped | src/main.rs:59-80 | adding [255] and [1] gives [0] |

## Left out

- The threaded colouring in `ciel_parallel` is not modelled: its worker loop, mutexes, barrier, stop flag and idle counter. Only its partition arithmetic is, in the Partition module.
- These parts of graph_coloring/main.rs are not modelled: `thread_test`, `abt_alg`, `print_graph`, `main` and the timing tests. They print, measure time or drive threads.
- The I/O of `read_graph` is not modelled: opening the file, splitting lines and parsing numbers. `ReadGraph.ReadLines` takes the lines already classified and parsed. A missing file, which the source reads as an empty graph, is not represented. A line too short to index, or a number that does not parse, makes the source panic and is not represented.
- src/mont.rs is not part of this model: an unfinished Montgomery reduction `reduce`, outside the colouring and vector code, that does not compile as written (it applies `&&` to `u8` operands and reads the undefined `n_prime_modr`).
- The commented-out `add_vecu8_u8` is not modelled.
- `main` in src/manual_vec.rs is not modelled: it only prints a greeting.
- `main` in src/main.rs (lines 83-92) is not modelled. It builds two two-byte vectors, adds them with `add_vecu8` and prints all three. As written it does not compile: it pushes to the immutable `v1` and `v2` and prints them after they have been moved. The addition it exercises is `WrappingVec.AddVecU8`.
- src/main.rs repeats `mult_u8` and `add_u8` verbatim. Each pair is modelled once, in LittleEndian.
- Nodes are values stored in an array, not shared objects. This matches the source's `Vec<Node>`, which owns its nodes, so no aliasing is lost.
- AbtSolver.AbtSequential: runs at most `fuel` passes and reports `OutOfFuel` when they run out. The source loops until a pass changes nothing and has no termination argument.
- AbtSolver.AbtSequential: requires a well-formed graph, with every neighbour index below the node count. On an out-of-range neighbour or blamed sender the source panics at `graph[neighbor]` (graph_coloring/main.rs:189-190); that panic is not represented. Graphs built by `read_graph` are well-formed (ReadGraph.LoadedIsBuilt).
- The source's loop bodies are split into helper methods, each proved against the same specification function:
  - `RunPass`, `OnePass`, `PassStep`, `VisitNode`, `InformAt` and `FindBlame`;
  - `SearchStep` and `PopUntilValid`;
  - `AddOverlap` and `CarryThrough`;
  - `PushFresh`.
- `usize` arithmetic is unbounded. Overflow of node indices, nogood lists and partition products is not modelled.
- WrappingVec.AddVecU8: `add_vecu8` in src/main.rs moves its arguments before reading their lengths, so it does not compile. The model takes the evident intent, which chooses the longer vector.
- ExhaustiveSearch.ExhaustiveSearch: success guarantees that each node differs from its lower-indexed neighbours. It becomes `all_consistent` only through `SettledIsConsistent`, on a symmetric graph without self-loops. Failure is proved to mean that no proper colouring exists only when every stack starts full, as `Node::new` leaves it; from a partly used stack the search never tries the colours already popped.
- AbtSolver.AbtSolvedIsConsistent: proved for graphs in which node i is named i, adjacency is symmetric without self-loops, and every coloured node is marked. `read_graph` gives such graphs (ReadGraph.LoadedIsPrepared).

## Findings

| source | as written | input that shows it | evidently intended | confidence | as-written member | corrected member |
|---|---|---|---|---|---|---|
| src/manual_vec.rs:89-97 | `pow` is multiplied by 256 after every byte, including the last, so an eight-byte vector takes `pow` to 256^8, which does not fit in a u64; a debug build panics with a multiplication overflow | `[0, 0, 0, 0, 0, 0, 0, 1]`, the bytes `u64_vecu8` produces for 2^56 | multiply `pow` only when another byte follows, so every vector of at most eight bytes converts and `vecu8_u64(u64_vecu8(n)) == n` holds for every u64 | not executed | ManualVec.VecToU64AsWrittenOverflows | ManualVec.VecToU64 |
