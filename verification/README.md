# lambda-llama ICFPC 2018 nanobot core, modelled in Dafny

lambda-llama's entry to the ICFP Programming Contest 2018 builds 3-D voxel
models with a swarm of nanobots. Each bot issues one command per time step
(halt, wait, flip, s-move, l-move, fill, fission, fusion). A strategy plans
these commands, the simulation state applies them and keeps track of energy,
and a trace writer encodes each round into the contest's binary trace. This
project models that core:

- `Voxels`: the bit-packed occupancy `Matrix`, its `get`/`set`/`equals`/`isWellFormed`, and `Model.parse`.
- `Bytes`: the byte arithmetic the matrix relies on.
- `Bots` and `Commands`: `Bot`, `BotView` and the command classes.
- `Simulation`: the `State` transitions `loadFrom`, `halt`, `wait`, `flip`, `sMove`, `lMove`, `fill`, `fission`, `fusion` and `step`. It also covers the energy accounting and the partition of the ids 1..20 into bot ids and seeds.
- `Trace`: the trace writer's `onStep` encoding and the reader's `readAllCommands`.
- `Baseline`: `LList.reversed`, `heuristic`, and the `multiSLMove` best-first search.
- `Layered`: the layered strategy's `estimateCost`, its `goto` A* search with path reconstruction, `move` and `testDeltaReachability`.
- `Grounded`: the grounded strategy's `fillableFrom` and its frontier loop.
- `Sculptor`: the sculptor comb's `normalMove`, `normalZMove`, `lateralMove`, `fill`, `void` and `resize`.
- `Strategies`: `multiSMove`.

Modelling choices:

- Every operation is a pure function, or a method over immutable values. The mutable Kotlin objects become values.
- The JVM `assert`s that guard each state command become `requires`. Kotlin's `require`, `error` and `throw` become the `Err` side of a `Result`.
- Listeners, coroutine `yield`s and files are not modelled. The neighbourhood tables of the `Matrix` companion (`sNeighborhood`, `lNeighborhood`) are passed in as parameters.
- The file that defines `Coord`, `DeltaCoord` and those tables is not part of this model. `Geometry` defines the coordinate arithmetic and delta classifications it needs, following the contest's task description: linear, short-linear (Manhattan length at most 5), long-linear (at most 15), and near.
- `State` here carries the voxel `matrix`, because the strategies read and write `state.matrix`. Bounds and volume are taken from `matrix.R`.

## Model

| member | source | states |
|---|---|---|
| Voxels.Get | src/main/kotlin/Types.kt:12-16 | a voxel is Full exactly when `(b ushr (offset % 8)) and 1` is 1 for its byte b: the intended bit test of `get` (see Findings) |
| Voxels.Set | src/main/kotlin/Types.kt:18-27 | storing `v` at an in-bounds voxel makes it read back `v`, leaves every other voxel unchanged, and keeps the byte array's size (the corrected `set`, see Findings) |
| Voxels.Zeros | src/main/kotlin/Types.kt:69-70 | a fresh array of ceil(R^3/8) bytes is well sized and reads every voxel as empty |
| Voxels.SetAllReadsBack | src/test/kotlin/TypesTests.kt:10-22 | after setting a list of voxels one by one, a voxel reads Full exactly when it was Full before or was in the list, as the set/get test expects |
| Voxels.WellFormedEmpty | src/test/kotlin/TypesTests.kt:24-28 | the empty matrix of resolution 2 is well-formed |
| Voxels.IsWellFormed | src/main/kotlin/Types.kt:39-61 | reading voxels with the corrected bit test, the triple scan answers true exactly when every Full voxel lies in 1..R-2 on x and z and 0..R-2 on y |
| Voxels.ScanAsWrittenAcceptsIllFormed | src/main/kotlin/Types.kt:43 | the scan read through the literal `get` accepts a matrix of resolution 3 whose Full voxel (0,2,2) lies outside the bounds, because (1,0,1) sets a higher bit of the same byte |
| Voxels.WellFormedSingle | src/test/kotlin/TypesTests.kt:30-35 | a 3-cube with only (1,0,1) Full is well formed |
| Voxels.WellFormedStacked | src/test/kotlin/TypesTests.kt:37-43 | a 3-cube with (1,0,1) and (1,1,1) Full is well formed |
| Voxels.OffsetInjective | src/main/kotlin/Types.kt:13 | the flattened offset x*R*R + y*R + z is different for different in-bounds voxels, so `get` and `set` never alias two voxels |
| Voxels.EqualsIsValueEquality | src/main/kotlin/Types.kt:29-35 | the corrected `equals` holds exactly for matrices with the same resolution and the same bytes |
| Voxels.Parse | src/main/kotlin/Types.kt:66-76 | parsing succeeds exactly when the buffer holds the resolution byte and ceil(R^3/8) more bytes, with R read unsigned. The result is well sized and its bytes are the ones after the first; a short buffer is a buffer underflow |
| Voxels.ParseSerialize | src/main/kotlin/Types.kt:66-76 | a model file written from a well-sized matrix with R < 256 parses back to that matrix, whatever trailing bytes follow |
| Voxels.GetAsWrittenMissesLowerVoxel | src/main/kotlin/Types.kt:15 | for every R >= 2, with (0,0,0) and (0,0,1) Full, the literal `get` reports (0,0,0) empty |
| Voxels.GetAsWrittenIsStricter | src/main/kotlin/Types.kt:12-16 | the literal `get` agrees with the bit test exactly when the higher bits of the same byte are all clear |
| Voxels.GetAsWritten | src/main/kotlin/Types.kt:15 | the literal `ushr == 1` test reads Full only voxels that the bit test reads Full |
| Voxels.SetAsWritten | src/main/kotlin/Types.kt:18-27 | the literal `set` keeps the resolution and the byte count; what a clear does to the rest of the byte is `ClearAsWrittenFillsByte` |
| Voxels.EqualsAsWritten | src/main/kotlin/Types.kt:29-35 | as written, two distinct objects compare equal only when they differ as values (different resolution) |
| Voxels.ClearAsWrittenFillsByte | src/main/kotlin/Types.kt:24-26 | the literal clear flips the addressed voxel and makes every other voxel of the same byte Full |
| Voxels.SetAsWrittenFillsNeighbour | src/main/kotlin/Types.kt:25 | for every R >= 2, clearing (0,0,0) in an empty grid with the literal `set` makes (0,0,1) Full |
| Voxels.ParseAsWritten | src/main/kotlin/Types.kt:68 | the literal parse agrees with the corrected one whenever the resolution byte is below 128 |
| Voxels.ParseAsWrittenRejectsResolution200 | src/main/kotlin/Types.kt:68-70 | a well-sized R = 200 matrix round-trips through the corrected parse, but the literal parse fails with a negative array size |
| Bytes.UshrIsOne | src/main/kotlin/Types.kt:15 | `b ushr k == 1` holds exactly when bit k is set and every higher bit is clear |
| Bots.View | src/main/kotlin/Bot.kt:5-21 | the view keeps id and position and lists the sorted seed set as a strictly increasing sequence with the same members |
| Bots.ViewInjective | src/main/kotlin/Bot.kt:12-21 | two bots with the same view are the same bot |
| Simulation.LoadFrom | src/main/kotlin/State.kt:26-37 | the loaded state has Low harmonics and zero energy, and bot 1 at the origin holding seeds 2..20 in order. It expects one action and the ids are partitioned |
| Simulation.Halt | src/main/kotlin/State.kt:52-65 | halting the last bot, at the origin in Low harmonics, removes it and records the halt; nothing else changes |
| Simulation.Wait | src/main/kotlin/State.kt:67-75 | waiting only records the bot as acted |
| Simulation.Flip | src/main/kotlin/State.kt:77-86 | flipping changes the harmonics and records the bot as acted |
| Simulation.MoveBotBack | src/main/kotlin/State.kt:97 | moving a bot back to its old position restores the bot map |
| Simulation.SMove | src/main/kotlin/State.kt:88-104 | a long-linear move to an in-bounds cell moves only that bot, costs 2 per unit of length, and records the command |
| Simulation.LMove | src/main/kotlin/State.kt:106-125 | an L move over two short-linear legs with both corners in bounds moves only that bot, costs 2*(len0 + 2 + len1), and records the command |
| Simulation.SMoveThereAndBack | src/main/kotlin/State.kt:88-104 | an s-move and its negation restore every bot and cost 4 per unit of length |
| Simulation.LMoveThereAndBack | src/main/kotlin/State.kt:106-125 | an L move retraced in reverse is a legal L move that restores every bot |
| Simulation.Fill | src/main/kotlin/State.kt:127-142 | a near, in-bounds fill costs 12 and records the command. It changes neither bots nor voxels, as the source leaves the voxel update undone |
| Simulation.SplitSeeds | src/main/kotlin/State.kt:154-158 | fission's `headSet`/`tailSet` split divides the seeds into the new id (the least seed), m child seeds, and the parent's rest. The three parts are disjoint and every child seed is below every seed the parent keeps |
| Simulation.SplitSeedsSlices | src/main/kotlin/State.kt:154-158 | enumerated, the three parts are consecutive runs of the ascending seeds: the new id first, then the m child seeds, then the rest |
| Simulation.Fission | src/main/kotlin/State.kt:144-168 | the new bot appears at pos+d with the child seeds, the parent keeps the rest, other bots are unchanged, the cost is 24, and only the parent is recorded as acted |
| Simulation.FissionDividesSeeds | src/main/kotlin/State.kt:154-160 | after fission the new bot's sorted seeds are the m seeds after the least, and the parent's are the remainder |
| Simulation.Fusion | src/main/kotlin/State.kt:170-188 | the secondary bot disappears and the primary gains its id and seeds, 24 energy is recovered, and both are recorded with their FusionP/FusionS commands |
| Simulation.Step | src/main/kotlin/State.kt:190-200 | when every expected bot has acted, the round is handed over and cleared. The next round expects one action per bot, and the step costs 30 (High) or 3 (Low) per voxel |
| Simulation.FissionKeepsPartition | src/main/kotlin/State.kt:144-168 | fission keeps every id 1..20 owned by exactly one bot |
| Simulation.FusionKeepsPartition | src/main/kotlin/State.kt:170-188 | fusion keeps every id 1..20 owned by exactly one bot |
| Simulation.MovesKeepPartition | src/main/kotlin/State.kt:88-125 | moves keep the partition |
| Simulation.FissionThenFusion | src/main/kotlin/State.kt:144-188 | fusing the new bot back into its parent right after fission restores every bot and the energy |
| Simulation.FissionHandsOverAll | src/main/kotlin/State.kt:152-158 | with m one less than the seed count the parent keeps no seeds and the new bot takes all but its own id |
| Trace.LinearAxis | src/main/kotlin/TraceWriter.kt:18-23 | the axis code is 1, 2 or 3 for a linear delta along x, y or z |
| Trace.ShortDelta | src/main/kotlin/TraceReader.kt:6-13 | `shortLinear` fails exactly for axis codes outside 1..3 (`LinearRoundTrip` shows it inverts the writer's code) |
| Trace.LongDelta | src/main/kotlin/TraceReader.kt:15-22 | `longLinear` fails exactly for axis codes outside 1..3 (`LinearRoundTrip` shows it inverts the writer's code) |
| Trace.NearDelta | src/main/kotlin/TraceReader.kt:24-31 | `near` decodes to a delta with dy and dz in -1..1 and dx at least -1 |
| Trace.LinearRoundTrip | src/main/kotlin/TraceReader.kt:6-22 | the reader's short and long decoders invert the writer's axis and length codes for every linear delta within their length |
| Trace.EncodeAll | src/main/kotlin/TraceWriter.kt:45-81 | the writer emits one or two bytes per command |
| Trace.EncodeRound | src/main/kotlin/TraceWriter.kt:45-81 | `onStep` emits one or two bytes per bot of the round |
| Trace.ReadAllWith | src/main/kotlin/TraceReader.kt:33-76 | the reader never yields more commands than bytes |
| Trace.ReadAll | src/main/kotlin/TraceReader.kt:33-76 | the reader with masked l-move fields never yields more commands than bytes |
| Trace.Encode | src/main/kotlin/TraceWriter.kt:45-81 | a command is written in two bytes when it is an s-move, l-move or fission and in one byte otherwise. The halt, wait and flip bytes are used by those commands only |
| Trace.InIdOrder | src/main/kotlin/TraceWriter.kt:45-47 | a round's commands are listed in ascending bot-id order, one per bot |
| Trace.ReadCommand | src/main/kotlin/TraceReader.kt:36-72 | the special bytes decode to halt, wait and flip, and one or two bytes are consumed |
| Trace.ReadOperation | src/main/kotlin/TraceReader.kt:44-72 | opcodes 0-2 are errors, and a command takes a second byte exactly when the opcode is SMove/LMove or Fission |
| Trace.NearRoundTrip | src/main/kotlin/TraceReader.kt:24-31 | decoding the writer's near code gives back the near delta, for all 18 near deltas |
| Trace.LMoveRoundTrip | src/main/kotlin/TraceReader.kt:50-57 | with the l-move fields masked, the l-move branch recovers both legs |
| Trace.ReadEncoded | src/main/kotlin/TraceReader.kt:33-76 | with the l-move fields masked, reading a command's encoding, whatever follows, gives back the command and consumes exactly its bytes |
| Trace.ReadAllEncodeAll | src/main/kotlin/TraceReader.kt:33-76 | with the l-move fields masked, reading the concatenated encodings of encodable commands gives back the same commands in order |
| Trace.ReadEncodedAsWritten | src/main/kotlin/TraceReader.kt:33-75 | the reader as written decodes every encoding but an l-move's, consuming exactly its bytes |
| Trace.ReadAllAsWrittenEncodeAll | src/main/kotlin/TraceReader.kt:33-75 | the reader as written gives back every stream of encodable commands that contains no l-move |
| Trace.ReadRound | src/main/kotlin/TraceWriter.kt:45-81 | with the l-move fields masked, one round written by `onStep` reads back as its commands in ascending bot-id order |
| Trace.FissionArgumentWraps | src/main/kotlin/TraceWriter.kt:70-74 | a fission's m reads back modulo 256, because `writeByte` keeps only the low byte |
| Trace.TruncatedSecondByte | src/main/kotlin/TraceReader.kt:46-64 | when a two-byte command is cut off, the -1 from `read()` decodes without error: an s-move of length 16, or a fission with m = -1 |
| Trace.UnmaskedLMoveNeverReads | src/main/kotlin/TraceReader.kt:51-55 | the reader as written rejects every l-move the writer emits |
| Baseline.ElementsInjective | src/main/kotlin/BaselineStrategy.kt:9-32 | two linked lists with the same elements are the same list |
| Baseline.Reversed | src/main/kotlin/BaselineStrategy.kt:13-28 | reversing a list gives its elements in reverse order |
| Baseline.ReversedTwice | src/main/kotlin/BaselineStrategy.kt:13-28 | reversing twice gives back the list, and reversal keeps the length |
| Baseline.Heuristic | src/main/kotlin/BaselineStrategy.kt:34-37 | the heuristic is zero exactly at the target |
| Baseline.MinIndex | src/main/kotlin/BaselineStrategy.kt:52-56 | the entry polled has the least heuristic of the queue (the model takes the earliest such entry) |
| Baseline.Poll | src/main/kotlin/BaselineStrategy.kt:56 | polling returns that least entry and leaves the queue without it, the other entries in their order. Every remaining entry still lies in the cube and leads there from the start |
| Baseline.Expand | src/main/kotlin/BaselineStrategy.kt:63-76 | the neighbour loop only appends entries for cells that were not recorded before, keeps each entry leading to its cell, and lowers the sum of recorded heuristics or leaves the queue unchanged |
| Baseline.RankSumDecreases | src/main/kotlin/BaselineStrategy.kt:70-74 | recording a better heuristic for a cube cell lowers the termination measure |
| Baseline.LeadsSnoc | src/main/kotlin/BaselineStrategy.kt:64-76 | a path that leads to a cell, extended by one neighbour step, leads to that neighbour |
| Baseline.MultiSLMove | src/main/kotlin/BaselineStrategy.kt:44-93 | an out-of-bounds target is exactly the `require` error. Otherwise the replayed commands step from neighbour to neighbour from the start to the target, and there are none when the bot is already there |
| Layered.AxisCost | src/main/kotlin/LayeredStrategy.kt:19-23 | `(n + 14) / 15` is the least number of 15-cell moves covering a distance n |
| Layered.EstimateCost | src/main/kotlin/LayeredStrategy.kt:19-23 | the estimate is zero exactly at the target. It is at least the Chebyshev distance divided by 15 and at most the Manhattan distance |
| Layered.EstimateCostSymmetric | src/main/kotlin/LayeredStrategy.kt:19-23 | the estimate is symmetric |
| Layered.Chain | src/main/kotlin/LayeredStrategy.kt:37-45 | following the `cameFrom` links back from a cell reaches an unlinked root, each link joining consecutive cells |
| Layered.Reconstruct | src/main/kotlin/LayeredStrategy.kt:37-45 | the reconstruction loop yields the link chain from the root down to the target, without the root |
| Layered.ChainWalk | src/main/kotlin/LayeredStrategy.kt:37-45 | a chain rooted at the start whose links are moves is a walk to the target |
| Layered.FirstMin | src/main/kotlin/LayeredStrategy.kt:36 | `minBy` picks an open cell of least f-score (the model takes the earliest such cell) |
| Layered.Goto | src/main/kotlin/LayeredStrategy.kt:25-71 | a returned path is a walk of single moves from the start to the target, and it is empty when the bot is already there |
| Layered.Begin | src/main/kotlin/LayeredStrategy.kt:26-33 | the initial open list, links and scores satisfy the search invariant |
| Layered.Finish | src/main/kotlin/LayeredStrategy.kt:37-45 | a target taken off the open list yields a walk to it |
| Layered.Expand | src/main/kotlin/LayeredStrategy.kt:48-67 | one expansion keeps the search invariant and closes the polled cell |
| Layered.Close | src/main/kotlin/LayeredStrategy.kt:48-49 | moving the polled cell from open to closed keeps the invariant |
| Layered.CloseMoves | src/main/kotlin/LayeredStrategy.kt:48 | removing an entry from a repeat-free open list removes exactly that cell |
| Layered.Discover | src/main/kotlin/LayeredStrategy.kt:51-67 | opening an undiscovered neighbour, linked to the closed cell it was reached from, keeps the invariant |
| Layered.Steps | src/main/kotlin/LayeredStrategy.kt:181-191 | for a single-axis delta, that many unit steps add up to the delta |
| Layered.ClearUpTo | src/main/kotlin/LayeredStrategy.kt:192 | the test holds exactly when the cells 1..n unit steps away are all empty |
| Layered.TestDeltaReachability | src/main/kotlin/LayeredStrategy.kt:181-193 | the test holds exactly when the cells 1..n unit steps along the first nonzero axis are all empty |
| Layered.ReachabilityIsClear | src/main/kotlin/LayeredStrategy.kt:181-193 | for a single-axis leg, `testDeltaReachability` holds exactly when every cell the leg passes through after the base is empty |
| Layered.TestedCellsAreInBox | src/main/kotlin/LayeredStrategy.kt:181-191 | each cell tested lies on the leg |
| Layered.BoxCellIsTested | src/main/kotlin/LayeredStrategy.kt:181-191 | each cell on the leg is tested |
| Layered.Legs | src/main/kotlin/LayeredStrategy.kt:153-168 | the two legs are single-axis and add up to the delta when it spans at most two axes. With three axes they drop dz |
| Layered.Move | src/main/kotlin/LayeredStrategy.kt:148-179 | a long-linear delta is one s-move. Otherwise it is an L move along the legs, first leg first when both legs are clear in that order, else the other order, else an invalid-move error. Its displacement reaches the target whenever the delta spans at most two axes |
| Grounded.Target | src/main/kotlin/GroundedStrategy.kt:59 | the target cells are exactly the in-bounds Full voxels of the model |
| Grounded.FirstFillable | src/main/kotlin/GroundedStrategy.kt:14-20 | scanning the near deltas from index i returns a fillable one, or none exactly when no remaining delta is fillable |
| Grounded.FillableFrom | src/main/kotlin/GroundedStrategy.kt:13-21 | the position returned is near the cell, in bounds and empty. No position is returned exactly when every near neighbour is out of bounds or filled |
| Grounded.ScanCoversNear | src/main/kotlin/GroundedStrategy.kt:13-21 | scanning the eighteen near deltas in order is the same as asking whether any near neighbour is fillable |
| Grounded.Candidates | src/main/kotlin/GroundedStrategy.kt:37 | `mapNotNull` pairs each frontier cell that has a fill position with that position |
| Grounded.FirstExists | src/main/kotlin/GroundedStrategy.kt:38 | a nonempty candidate set has a first element in the (height, distance) sort order |
| Grounded.PickFill | src/main/kotlin/GroundedStrategy.kt:37-39 | no pick exactly when no frontier cell is fillable. Otherwise the pick is a candidate, and no fillable frontier cell lies lower |
| Grounded.Admit | src/main/kotlin/GroundedStrategy.kt:47-56 | after a fill, the frontier gains exactly the face neighbours of the filled cell that are in bounds, in the model, and not yet filled |
| Grounded.Cells | src/main/kotlin/GroundedStrategy.kt:41-43 | the filled cells are exactly the cells of the fill order |
| Grounded.OrderKeeps | src/main/kotlin/GroundedStrategy.kt:41-44 | appending a fill keeps the order grounded and fills each cell once, from a near empty in-bounds position |
| Grounded.GroundedSnoc | src/main/kotlin/GroundedStrategy.kt:26-56 | a floor cell, or a cell face-adjacent to an earlier fill, keeps the fill order grounded |
| Grounded.FrontierStaysAdjacent | src/main/kotlin/GroundedStrategy.kt:47-56 | after the admission loop every frontier cell is on the floor or touches a filled cell |
| Grounded.ClosureKeeps | src/main/kotlin/GroundedStrategy.kt:26-56 | every Full floor cell, and every Full face neighbour of a filled cell, stays filled or on the frontier |
| Grounded.FillKeeps | src/main/kotlin/GroundedStrategy.kt:36-57 | one iteration keeps the loop invariant |
| Grounded.GroundedFill | src/main/kotlin/GroundedStrategy.kt:23-59 | on success, every fill touches the floor or an earlier fill, no cell is filled twice, each fill comes from a near empty in-bounds position, and the filled cells are exactly the model's Full voxels. Given a fill that sets its voxel and value equality of matrices, the final check fails only when some Full voxel is not connected to the floor |
| Sculptor.Chunks | src/main/kotlin/SculptorStrategy.kt:256-262 | the shifts are nonzero, at most 15 long and of the delta's sign, add up to the delta, and are as few as the 15 limit allows |
| Sculptor.NormalMove | src/main/kotlin/SculptorStrategy.kt:254-272 | long-linear rounds in the xy plane, all x rounds before any y round, carrying the comb by (dx, dy, 0) |
| Sculptor.NormalZMove | src/main/kotlin/SculptorStrategy.kt:274-283 | long-linear z rounds carrying the comb by (0, 0, dz) |
| Sculptor.RunShiftsAll | src/main/kotlin/SculptorStrategy.kt:258-260 | uniform rounds shift every bot by the total and keep the distances between bots |
| Sculptor.NormalMoveArrives | src/main/kotlin/SculptorStrategy.kt:254-272 | after a normal move every comb bot is displaced by (dx, dy, 0) |
| Sculptor.BlowOut | src/main/kotlin/SculptorStrategy.kt:297-306 | bot i waits exactly when i % 16 == 0 and otherwise s-moves by (i % 16) * dir.dx along x |
| Sculptor.BlowIn | src/main/kotlin/SculptorStrategy.kt:321-330 | each bot moves back by its blow-out shift |
| Sculptor.LateralMove | src/main/kotlin/SculptorStrategy.kt:285-331 | nothing happens when dz is 0. Otherwise the move blows out, makes z shifts that total dz, and blows in |
| Sculptor.LateralMoveArrives | src/main/kotlin/SculptorStrategy.kt:285-331 | a lateral move carries every comb bot by (0, 0, dz) |
| Sculptor.CombFill | src/main/kotlin/SculptorStrategy.kt:205-213 | there is no round exactly when every target is Full. Otherwise each bot fills an empty target and waits at a Full one |
| Sculptor.CombVoid | src/main/kotlin/SculptorStrategy.kt:215-223 | there is no round exactly when every target is empty. Otherwise each bot voids a Full target and waits at an empty one |
| Sculptor.FillThenNothing | src/main/kotlin/SculptorStrategy.kt:205-213 | under a fill that sets its target voxel, a comb fill makes every target Full, so a second fill issues nothing |
| Sculptor.VoidThenNothing | src/main/kotlin/SculptorStrategy.kt:215-223 | under a void that clears its target voxel, a comb void makes every target empty, so a second void issues nothing |
| Sculptor.HandOverAll | src/main/kotlin/SculptorStrategy.kt:176 | resize's fission hands the new bot every seed but its own id |
| Sculptor.Grow | src/main/kotlin/SculptorStrategy.kt:174-180 | growing by k keeps the comb's ids as its prefix and appends the k least seeds of the last bot in ascending order. The last bot keeps exactly the other seeds, each above every id handed out |
| Sculptor.Shrink | src/main/kotlin/SculptorStrategy.kt:181-187 | shrinking by k leaves the first n - k ids. The new last bot holds its old seeds plus the ids of the k bots removed |
| Sculptor.ShrinkUndoesGrow | src/main/kotlin/SculptorStrategy.kt:173-187 | shrinking a comb of at least one bot by as many bots as it was grown by gives back its ids and its last bot's seeds |
| Sculptor.UndoGrown | src/main/kotlin/SculptorStrategy.kt:173-187 | for any comb and seeds that growing by k leaves (the k least seeds appended, the rest kept), shrinking by k gives back the original ids and seeds |
| Sculptor.ResizeLinesUp | src/main/kotlin/SculptorStrategy.kt:168-180 | resizing the initial bot to n bots gives the comb ids 1..n, and the last bot holds the seeds above n |
| Strategies.Leg | src/main/kotlin/Strategies.kt:9-13 | each move is along the axis, 1 to 5 long, and short-linear, and there are as few moves as the limit allows |
| Strategies.LegTotal | src/main/kotlin/Strategies.kt:9-13 | a leg carries the bot up to the target coordinate, or not at all when it is not below it |
| Strategies.Approach | src/main/kotlin/Strategies.kt:9-13 | the loop makes exactly the leg's moves and stops at max(s, t) |
| Strategies.MultiSMove | src/main/kotlin/Strategies.kt:6-25 | the x, y and z legs run in that order, and the bot ends at the per-axis maximum of start and target |
| Strategies.MultiSMoveReaches | src/main/kotlin/Strategies.kt:6-25 | the moves add up to the end position, which is the target exactly when the start is at or below it on every axis |

## Left out

- I/O is not modelled: files, `DataInputStream`/`DataOutputStream` and the trace listeners. The reader and writer work on byte sequences.
- Coroutine `yield`s and the intermediate states yielded to the visualiser are not modelled. Strategies produce commands or rounds.
- `State.resolution` is never assigned in the source. The model takes bounds and volume from the matrix's R, so a state always has the resolution its matrix has.
- The JVM `assert`s in `State` are preconditions here. The source runs them only when assertions are enabled.
- `loadFrom` takes no arguments in the source; the model passes the matrix in.
- The bots' seeds are Kotlin `SortedSet` views (`headSet`/`tailSet`). They are plain sets here, so a later `add` outside a view's range is not modelled.
- The matrix companion's neighbourhood tables (s- and l-neighbourhoods, `NEAR_COORD_DIFFERENCE`, `DXDYDZ_MLEN1`) live in a file that is not part of this model. The search neighbourhoods are parameters; the near and face deltas are listed in x-major order.
- Baseline.MinIndex: the source's `PriorityQueue` breaks ties between entries of equal heuristic in heap order. The model takes the earliest entry, so which of several least entries is polled is not the source's.
- Layered.FirstMin: `minBy` iterates a `HashSet`, so ties between cells of equal f-score follow hash order. The model takes the earliest open cell, so which of several least cells is expanded is not the source's.
- Grounded.PickFill: among candidates tied in `sortedWith`'s order, the source takes the one its frontier `HashSet` yields first. The model picks some tied candidate and does not say which.
- Baseline.MultiSLMove: does not state when the search ends in `NotFound`, nor that it finds a path whenever one exists.
- Baseline.MultiSLMove: `multiSLMove` replays the found commands through `State`; the model returns them instead.
- Layered.Goto: does not state that the path is shortest, nor that `NoPath` means the target is unreachable. The rescoring branch at LayeredStrategy.kt:58-62 can never fire, because the tentative score always exceeds the expanded cell's own score. The model therefore never re-links an open cell.
- Layered.Move: the three-axis case drops dz, as the source does, so arrival is stated only for deltas along at most two axes.
- The layered strategy's `run` and its own `fillableFrom`, `Baseline.run`, `ReplayStrategy`, `SplitStrategy` and the visualiser are outside the core and not modelled.
- Grounded.GroundedFill: the model assumes a fill that sets its voxel and value equality of matrices (the corrected `Voxels.Set` and `Voxels.EqualsIsValueEquality`). As written, `fill` leaves the voxel unset, so once two face-adjacent voxels of the model are Full, the test at GroundedStrategy.kt:53 re-admits cells already filled and the loop does not end. Even if it did, `equals` (Types.kt:33) makes the check at GroundedStrategy.kt:59 fail for every matrix. The `unfillable grounded cell` error is returned but not characterised. The bot's relocation by `multiSLMove` between fills is abstracted to the choice of fill position; only the fill order is modelled.
- Voxels.IsWellFormed: reads voxels through the corrected `Get`, while the source's scan uses the literal `get` of Types.kt:15. With resolution 3 and (0,2,2), (1,0,1) Full, the source's scan answers true and the model's answers false. Likewise, the grounded loop reads the model through `Get` (`Grounded.Target`) and keeps the state's voxels as a set (`Grounded.FillableFrom`). The baseline's visited flags are a set too. The source keeps both in matrices, through `[Coord]` overloads in a file that is not part of this model.
- Simulation.Fill: `fill` does not set the voxel in the source (a TODO), and the model keeps that. The grounded loop tracks its own filled set.
- Simulation.Fission: requires 0 <= m. In the source a negative m makes `elementAt` (State.kt:154) throw `IndexOutOfBoundsException`, and the model does not return that error. The reader can produce m = -1 from a truncated fission.
- Sculptor.FillThenNothing: `Effect` assumes the contest's fill, which sets the target voxel. State.kt's `fill` leaves the matrix unchanged, so under the source's own state a second comb fill would issue the same fills again.
- Sculptor.VoidThenNothing: `Effect` assumes the contest's void, which clears the target voxel. State.kt has no void command at all, so this is stated about the comb's orders alone.
- Sculptor.Shrink: assumes that every bot but the last holds no seeds of its own, as `resize`'s growing leaves them. The source's fusion gives the new last bot its own seeds too, and those are not tracked.
- The sculptor's `moveSculpt`, `moveTo`/`move` dispatch, `halt`, `runAssembly` and `runDisassembly` are not modelled. `void` is a comb order (`Void`), because `Command` has no void class.
- The sculptor's `resize` wait orders for the other comb bots are not modelled. The fill-on-shrink step at SculptorStrategy.kt:189-195 is not modelled either: it depends on the target matrix at the comb's position.
- Strategies.MultiSMove: only the bot's position is modelled; the `sMove` and `step` calls on the state are not.
- `isWellFormed`'s second loop builds an unused queue and checks nothing. It is left out, so well-formedness is the bounds check alone.
- Model parsing of `.xmdl` files is a `TODO()` in the source and not modelled.
- Fixed-width integer overflow in offsets (`x*R*R + ...`) and energy (`Long`) cannot occur for contest sizes (R <= 250) and is not modelled.

## Findings

| source | as written | input that shows it | evidently intended | confidence | as-written member | corrected member |
|---|---|---|---|---|---|---|
| src/main/kotlin/Types.kt:15 | `get` compares `b ushr (offset % 8)` with 1, so it is false whenever a higher bit of the same byte is set | any R >= 2 with (0,0,0) and (0,0,1) Full: (0,0,0) reads empty | test bit `offset % 8`: `(b ushr k) and 1 == 1` | not executed | Voxels.GetAsWrittenMissesLowerVoxel | Voxels.SetAllReadsBack |
| src/main/kotlin/Types.kt:43 | `isWellFormed` tests each voxel with the literal `get`, so a Full voxel outside the bounds is missed when a higher bit of its byte is set | resolution 3 with (0,2,2) and (1,0,1) Full: the scan answers true | scan with the bit test | not executed | Voxels.ScanAsWrittenAcceptsIllFormed | Voxels.IsWellFormed |
| src/main/kotlin/Types.kt:25 | clearing stores `(b and mask).inv()`, which sets every other bit of the byte | any R >= 2: clearing (0,0,0) in an empty grid makes (0,0,1) Full | `b and mask.inv()` | not executed | Voxels.SetAsWrittenFillsNeighbour | Voxels.Set |
| src/main/kotlin/Types.kt:33 | `equals` requires `R != other.R`, so a copy of a matrix never equals it | any matrix and its copy | `R == other.R && Arrays.equals(...)` | not executed | Voxels.EqualsAsWrittenRejectsCopies | Voxels.EqualsIsValueEquality |
| src/main/kotlin/Types.kt:68 | `buf.get().toInt()` sign-extends the resolution byte, so R >= 128 becomes negative | a model file of resolution 200 | read R unsigned (`toInt() and 0xff`) | not executed | Voxels.ParseAsWrittenRejectsResolution200 | Voxels.ParseSerialize |
| src/main/kotlin/TraceReader.kt:51-55 | the l-move branch takes `byte shr 4` as axis0 and `(byte1 shl 4) shr 4` as its code without masking, so axis1's bits and the high nibble leak in | any l-move the writer emits, e.g. two unit legs along x | mask to two and four bits: `(byte shr 4) and 3`, `byte1 and 15` | not executed | Trace.UnmaskedLMoveNeverReads | Trace.ReadAllEncodeAll |
