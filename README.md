# FluidPool, modelled in Dafny

`FluidPool` treats a connected region of one fluid in a 3-D block grid as a
single pool. A pool is seeded at one position. It explores the region lazily
with a breadth-first flood fill that runs a batch at a time. The fill's state
persists from one request to the next: the `explored` set, the `unexplored`
queue and the caller's `banned` set. On that state the pool answers four
requests:

- `checkForFluid(n)`: is there at least `n` units of the fluid?
- `checkForSpace(n)`: is there room for at least `n` units?
- `removeFluid(n)`: take `n` units out of the pool.
- `addFluid(n)`: put `n` units into the pool.

Each request keeps exploring batches and adding up what every unbanned batch
position contributes, until the total reaches `n` or a batch comes back empty.
`removeFluid` and `addFluid` also remember the contributing positions. Once the
search succeeds, they run a commit pass over those positions. The pass moves
`min(available, remaining)` out of or into each position, in any order.

The model has four modules:

- `Grid` (`grid.dfy`): positions, cells, the six neighbours, and the shared
  `World` class.
  - A cell is a block kind (air, solid, fluid-loggable, fluid) with a fluid
    kind and an amount in 0..8.
  - Positions missing from the world's map are solid.
  - `World.ChangeFluid` stands in for the fluid mixin's `changeFluid`.
- `Exploration` (`exploration.dfy`): the flood fill as functions on a
  `Frontier` value (`Enqueue`, `Step`, `Batch`), with lemmas for:
  - the queue/visited invariant;
  - eligibility of queued positions;
  - batch size;
  - first-in-first-out order;
  - the termination measure;
  - closure of the explored region.
- `Accounting` (`accounting.dfy`):
  - the per-position contribution and the commit-set predicate;
  - finite sums over position sets;
  - `Search`, the accumulate loop the four requests share, with its lemmas;
  - the predicates that say what a commit pass did to the grid (`Removal`,
    `Addition`).
- `Pool` (`fluid_pool.dfy`): the class `FluidPool`.
  - It holds the fields `explored`, `unexplored` and `banned`.
  - It has the constructor, `SetBanned`, `ExploreBatch`, the four requests
    and their commit passes.
  - `ExploreBatch`, `EnqueueNeighbours`, `Gather`, `Tally`, `Drain` and
    `Fill` are the source's loops, each proved against the functions above.
    `GatherRound`, `Contribute`, `DrainOne`, `DrainCell`, `FillOne` and
    `FillCell` are their loop bodies, and `SetBanned` is a single update.

`exploreBatch` starts its counter at 3 (FluidPool.java:184), so
`exploreBatch(_, 10)` processes at most 7 positions (`BatchSize`).

## Model

| member | source | states |
|---|---|---|
| Grid.CanBeFluidlogged | src/main/java/com/moujounakki/archimedesfluids/FluidPool.java:210-213 | holds for a block with the fluid-level property at level ≤ 0; such a block holds no fluid and is not air |
| Grid.Changed | src/main/java/com/moujounakki/archimedesfluids/FluidPool.java:65 | the mixin's cell update changes the amount by exactly `delta` and keeps the cell within 0..8. Taking fluid out keeps the block and the fluid kind; putting fluid in leaves the cell holding `f`, and only air changes block (to a fluid block) |
| Grid.Neighbours | src/main/java/com/moujounakki/archimedesfluids/FluidPool.java:189-190 | one neighbour per direction, six in all |
| Grid.NeighboursAdjacent | src/main/java/com/moujounakki/archimedesfluids/FluidPool.java:189-190 | the six neighbours are exactly the positions one step away along one axis |
| Grid.World.constructor | src/main/java/com/moujounakki/archimedesfluids/FluidPool.java:16 | a world over well-formed cells |
| Grid.World.ChangeFluid | src/main/java/com/moujounakki/archimedesfluids/FluidPool.java:65 | the mixin call: only cell `pos` changes, by exactly `delta`, and all cells stay in 0..8 |
| Exploration.Eligible | src/main/java/com/moujounakki/archimedesfluids/FluidPool.java:196-200 | an eligible neighbour is in the world; looking for fluid, eligible means exactly that it holds the pool's fluid |
| Exploration.EnqueueSpec | src/main/java/com/moujounakki/archimedesfluids/FluidPool.java:189-203 | the neighbour loop keeps the queue/visited invariant and leaves the explored set alone. It only appends to the queue, and only eligible neighbours. Every eligible neighbour ends up explored or queued |
| Exploration.StepSpec | src/main/java/com/moujounakki/archimedesfluids/FluidPool.java:185-204 | one step moves the queue head, which was not explored, into the explored set and keeps the rest of the queue in order. It appends only eligible adjacent positions, and every eligible adjacent position ends up explored or queued |
| Exploration.StepMeasure | src/main/java/com/moujounakki/archimedesfluids/FluidPool.java:185-205 | each step strictly lowers the number of positions still to explore (termination) |
| Exploration.StepClosed | src/main/java/com/moujounakki/archimedesfluids/FluidPool.java:189-203 | one step keeps the explored region closed under eligible neighbours |
| Exploration.BatchInvariant | src/main/java/com/moujounakki/archimedesfluids/FluidPool.java:185-205 | a batch keeps the queue and explored set disjoint and the queue free of duplicates. The explored set only grows. Everything newly explored or queued was queued before or is eligible |
| Exploration.BatchSize | src/main/java/com/moujounakki/archimedesfluids/FluidPool.java:181-207 | a batch explores at most `batchSize - count` positions (`n - 3` from the initial count). It explores none exactly when the queue was empty or the counter had already reached the batch size |
| Exploration.BatchPrefix | src/main/java/com/moujounakki/archimedesfluids/FluidPool.java:185-187 | first in, first out: with at least k positions queued, a batch of k steps explores exactly the first k |
| Exploration.BatchWholeQueue | src/main/java/com/moujounakki/archimedesfluids/FluidPool.java:185-187 | a batch allowed more steps than there are queued positions explores every queued position |
| Exploration.BatchMeasure | src/main/java/com/moujounakki/archimedesfluids/FluidPool.java:181-207 | a batch never raises the measure of positions still to explore, and a non-empty batch lowers it |
| Exploration.BatchClosed | src/main/java/com/moujounakki/archimedesfluids/FluidPool.java:185-205 | a batch keeps the explored region closed under eligible neighbours; a look-for-space batch keeps it closed under same-fluid neighbours |
| Exploration.ExhaustedReach | src/main/java/com/moujounakki/archimedesfluids/FluidPool.java:185 | with the queue empty, a closed explored region contains every position reachable from it through eligible neighbours |
| Accounting.Qualifies | src/main/java/com/moujounakki/archimedesfluids/FluidPool.java:47-56 | a position kept for the commit pass is not banned and is a non-solid cell of the world |
| Accounting.PickedUnion | src/main/java/com/moujounakki/archimedesfluids/FluidPool.java:33-56 | the commit set built over two batch sets is the union of the commit sets built over each |
| Accounting.PickedStep | src/main/java/com/moujounakki/archimedesfluids/FluidPool.java:36-59 | the commit set after one more batch is the old commit set plus what that batch qualifies |
| Accounting.SumAdd | src/main/java/com/moujounakki/archimedesfluids/FluidPool.java:57 | adding one new position to a set adds exactly its weight to the sum |
| Accounting.TallyStep | src/main/java/com/moujounakki/archimedesfluids/FluidPool.java:42-58 | one more batch position adds its contribution to the total, and joins the commit set exactly when it qualifies |
| Accounting.SumPicked | src/main/java/com/moujounakki/archimedesfluids/FluidPool.java:47-57 | non-qualifying positions (banned or other blocks) contribute nothing: the total over a batch equals the total over its commit set |
| Accounting.ContributionOfPicked | src/main/java/com/moujounakki/archimedesfluids/FluidPool.java:57 | on the commit set, the running total is exactly the fluid held (removal) or exactly the room left (addition) |
| Accounting.TotalUpdate | src/main/java/com/moujounakki/archimedesfluids/FluidPool.java:65 | rewriting one cell changes the world's total fluid by exactly that cell's change |
| Accounting.BatchGain | src/main/java/com/moujounakki/archimedesfluids/FluidPool.java:42-58 | adding up a batch position by position gives the sum over the set the batch returns |
| Accounting.SearchSpec | src/main/java/com/moujounakki/archimedesfluids/FluidPool.java:36-40 | the accumulate loop keeps the queue invariant and only grows the explored set. It succeeds exactly when the total reaches the amount, and fails only with the queue exhausted. With an amount already reached it explores nothing |
| Accounting.SearchTotal | src/main/java/com/moujounakki/archimedesfluids/FluidPool.java:36-59 | the final total is the starting total plus the contributions of every position the search explored |
| Accounting.SearchRound | src/main/java/com/moujounakki/archimedesfluids/FluidPool.java:36-58 | one round: an empty batch ends the search in failure; otherwise the search continues from the new state and total, with a smaller measure |
| Accounting.SearchNext | src/main/java/com/moujounakki/archimedesfluids/FluidPool.java:36-58 | the same unfolding, with the new total computed by the search itself |
| Accounting.SearchResult | src/main/java/com/moujounakki/archimedesfluids/FluidPool.java:32-59 | a request succeeds exactly when its commit set contributes at least the amount. It keeps the explored region closed. With amount ≤ 0 its commit set is empty |
| Accounting.SearchStepSum | src/main/java/com/moujounakki/archimedesfluids/FluidPool.java:36-59 | the sums over two consecutive stretches of exploration add up |
| Accounting.SearchClosed | src/main/java/com/moujounakki/archimedesfluids/FluidPool.java:36-59 | a search in either mode keeps the explored region closed under same-fluid neighbours |
| Accounting.FluidSearchFailure | src/main/java/com/moujounakki/archimedesfluids/FluidPool.java:116-144 | when a fluid search from a closed region fails, every same-fluid cell connected to what it explored was explored, and the unbanned fluid found falls short of the amount |
| Accounting.DrainedStep | src/main/java/com/moujounakki/archimedesfluids/FluidPool.java:61-66 | lowering one more not-yet-visited cell keeps "only kept cells changed, each with its block, between 0 and its old amount, and holding the pool's fluid if anything" |
| Accounting.FilledStep | src/main/java/com/moujounakki/archimedesfluids/FluidPool.java:106-111 | raising one more not-yet-visited cell keeps "only kept cells changed, each between its old amount and 8, air at most turned into a fluid block, and holding the pool's fluid if it gained anything" |
| Accounting.DrainStep | src/main/java/com/moujounakki/archimedesfluids/FluidPool.java:61-66 | one removal step that takes `t` units of the pool's fluid from a fresh cell lowers the world total by exactly `t` more |
| Accounting.FillStep | src/main/java/com/moujounakki/archimedesfluids/FluidPool.java:106-111 | one addition step that puts `t` units of the pool's fluid into a fresh cell raises the world total by exactly `t` more |
| Accounting.CommitCell | src/main/java/com/moujounakki/archimedesfluids/FluidPool.java:61-66 | writing one not-yet-visited cell extends the set of changed cells by that cell only |
| Accounting.RemainingAfter | src/main/java/com/moujounakki/archimedesfluids/FluidPool.java:63-64 | after `amount -= min(share, amount)`, what is left to move is the amount minus everything visited so far, floored at 0 |
| Accounting.ClosedAfterCommit | src/main/java/com/moujounakki/archimedesfluids/FluidPool.java:61-66 | a commit that changes only explored cells keeps the explored region closed |
| Pool.FluidPool.constructor | src/main/java/com/moujounakki/archimedesfluids/FluidPool.java:22-26 | the seed is the only queued position, unchecked, and nothing is explored or banned. The invariant holds and the region is trivially closed |
| Pool.FluidPool.SetBanned | src/main/java/com/moujounakki/archimedesfluids/FluidPool.java:28-30 | adds the position to the banned set; banning twice is banning once |
| Pool.FluidPool.ExploreBatch | src/main/java/com/moujounakki/archimedesfluids/FluidPool.java:181-208 | the loop leaves exactly the state `Batch` computes from a counter of 3. It returns exactly the newly explored positions and keeps the queue invariant; the world is untouched |
| Pool.FluidPool.EnqueueNeighbours | src/main/java/com/moujounakki/archimedesfluids/FluidPool.java:189-203 | the direction loop leaves exactly the queue `Enqueue` computes over the six neighbours |
| Pool.FluidPool.Gather | src/main/java/com/moujounakki/archimedesfluids/FluidPool.java:33-59 | the accumulate loop (shared by the four requests) returns the result and state `Search` computes. Its kept set is exactly the commit set of everything it explored |
| Pool.FluidPool.GatherRound | src/main/java/com/moujounakki/archimedesfluids/FluidPool.java:37-58 | one round of the accumulate loop agrees with `Search` and lowers the measure |
| Pool.FluidPool.Tally | src/main/java/com/moujounakki/archimedesfluids/FluidPool.java:42-58 | the batch loop adds exactly the batch's contributions and keeps exactly its qualifying positions (`Picked`: the unbanned positions that count toward the total) |
| Pool.FluidPool.Contribute | src/main/java/com/moujounakki/archimedesfluids/FluidPool.java:86-102 | one batch position's contribution and whether it joins the commit set. A banned position contributes 0 and is not kept |
| Pool.FluidPool.CheckForFluid | src/main/java/com/moujounakki/archimedesfluids/FluidPool.java:116-144 | true exactly when the unbanned fluid explored reaches the amount, and false only with the queue exhausted. Only the exploration state changes, never a cell |
| Pool.FluidPool.CheckForSpace | src/main/java/com/moujounakki/archimedesfluids/FluidPool.java:146-179 | true exactly when the room explored (8 per air or empty loggable block, 8 minus the amount per same-fluid cell) reaches the amount. Only the exploration state changes, never a cell |
| Pool.FluidPool.RemoveFluid | src/main/java/com/moujounakki/archimedesfluids/FluidPool.java:32-69 | on failure no cell changes. On success exactly `max(amount, 0)` units leave the world, and only kept unbanned cells of the pool's fluid change. Each keeps its block, does not drop below 0, and still holds the pool's fluid if it holds anything. Banned cells are never changed |
| Pool.FluidPool.Drain | src/main/java/com/moujounakki/archimedesfluids/FluidPool.java:61-66 | the remove commit loop takes exactly `max(amount, 0)` units of the pool's fluid from the kept cells. Each keeps its block and ends between 0 and its old amount |
| Pool.FluidPool.DrainOne | src/main/java/com/moujounakki/archimedesfluids/FluidPool.java:61-66 | one iteration of the remove commit loop keeps its invariant and shrinks the set still to visit |
| Pool.FluidPool.DrainCell | src/main/java/com/moujounakki/archimedesfluids/FluidPool.java:62-65 | the transfer is `min(held, remaining)`; only that cell changes, by exactly the transfer |
| Pool.FluidPool.AddFluid | src/main/java/com/moujounakki/archimedesfluids/FluidPool.java:71-114 | on failure no cell changes. On success exactly `max(amount, 0)` units enter the world, and only kept cells change. None exceeds 8, and every cell that gained holds the pool's fluid; air becomes a fluid block and other blocks keep theirs. Banned cells are never changed |
| Pool.FluidPool.Fill | src/main/java/com/moujounakki/archimedesfluids/FluidPool.java:106-111 | the add commit loop puts exactly `max(amount, 0)` units of the pool's fluid into the kept cells. Each ends between its old amount and 8 and holds the pool's fluid if it gained |
| Pool.FluidPool.FillOne | src/main/java/com/moujounakki/archimedesfluids/FluidPool.java:106-111 | one iteration of the add commit loop keeps its invariant and shrinks the set still to visit |
| Pool.FluidPool.FillCell | src/main/java/com/moujounakki/archimedesfluids/FluidPool.java:107-110 | the transfer is `min(8 - held, remaining)`; only that cell changes, by exactly the transfer |

## Left out

- `IMixinFlowingFluid.changeFluid` (FluidPool.java:65, 110) is not part of this model. It is modelled as `World.ChangeFluid`:
  - it adds `delta` to the cell's amount and requires the result to stay in 0..8;
  - fluid poured into air turns the cell into a fluid block;
  - a fluid block emptied to 0 is kept as a fluid block holding 0, because what the real mixin does there is not visible.
- Minecraft's `Level`, `BlockState`, `FluidState`, `BlockPos.relative` and `Direction.values` are replaced by a finite map of cells and a fixed six-neighbour list. A loggable block's fluid-level property is its cell's amount.
- The `pos == null` checks (FluidPool.java:43, 82, 126, 156) are not modelled. The queue never holds null, so they cannot fire.
- Java `int` overflow of `foundFluid`, `foundSpace` and `amount` is not modelled; the model uses mathematical integers.
- HashSet iteration order is unspecified. The batch loop and the commit loops visit their sets in an arbitrary order (a nondeterministic choice), and every contract holds for every order.
- The four accumulate loops are written out separately in the source; here they are one method, `Gather`, with a mode flag. Likewise the per-position bodies are one `Contribute`, and the loop that builds the commit set is shared.
- Concurrency: the pool is used from one thread, and no interleaving is modelled.
- FluidMotionOverhaul.java (the event wiring that creates pools and calls them) is not part of this model.
- Other writers to the world between a request's search and its commit pass are not modelled: the world changes only through the pool's own commit passes, as the single-threaded caller guarantees.
