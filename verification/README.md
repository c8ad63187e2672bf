# Autobahn router and executor, in Dafny

A model of the parts of the Autobahn swap router in which correctness is not visible from one
function, with proofs over all inputs, runs and histories.

- **Route search** (`TopK.dfy`, `RouteSearch.dfy`): the depth-first search that keeps the K best
  paths per mint. The search is tied to a pure description of its course, and the kept lists to
  the history of every path offered.
- **Pool pruning** (`EdgeStates.dfy`, `PoolPruning.dfy`, `PrunedSearch.dfy`): cached prices of an
  edge, the per-pair top lists, the second pass that keeps every mint and direction connected, and
  the search on the result.
- **Path cache** (`PathCache.dfy`): sorted vectors as an abstract map, with the conversion of
  amounts to f64 written out.
- **Invariant pools** (`Powers.dfy`, `Log2.dfy`, `LogBounds.dfy`, `TickPrices.dfy`, `Tickmap.dfy`,
  `ClosestTicks.dfy`, `StepFormulas.dfy`, `SwapLoop.dfy`, `WindowExits.dfy`, `LeavingPool.dfy`): the
  fixed-point logarithm, the price of a tick and the lookup that undoes it, the bitmap searches and
  their window, the list of closest ticks, the formulas of a step, the swap loop that needs all of
  them to agree, and when a swap leaves the window.
- **Executor** (`SwapCodec.dfy`, `Executor.dfy`, `PrintedSwaps.dfy`): the binary format printed by
  the router and parsed on chain, the run of its hops against arbitrary cross-program calls, and
  both together.
- **Raydium** (`Raydium.dfy`): constant-product quotes with rounding in both directions.
- **Lookup tables and hot mints** (`LookupTables.dfy`, `HotMints.dfy`): greedy maximum coverage
  with its ratio, and the recency queue as a function of its whole history.

`dafny verify dfyconfig.toml` checks everything.

The contracts of the main operations are also stated in plain terms, with the numbers written out and
without the functions the modelled code itself calls: `Complete` and `BestOf` for the search,
`PrunedTo` for pruning, `Run` for the swap loop, `LooksUp` for the tick lookup, `DataLaidOut` and
`AccountsLaidOut` for the printer, `KeepsYoung` and `PutAt` for the cache, `InOrder` for lookup tables.

Three promises do not hold as one would first state them; each has a concrete failing input and
the exact condition under which it does hold:

- A Raydium exact-out quote may be zero for a positive output (`SmallExactOutBuysNothing`); it buys
  the output exactly when the small-value branch of the division is not taken
  (`ExactOutBuysOutput`).
- A cached amount inserted twice breaks the order of its vector when the amount is not exact in f64
  (`FirstNonRepresentable`, `ReinsertSortedIffRepresentable`); an insertion keeps the order exactly
  when no entry lies between the amount and its f64 value (`InsertSortedIff`).
- A quote may panic by searching outside the bitmap window, since the early break is not checked
  when an initialized tick is crossed: `SpreadQuotePanics` gives a pool and its positions. Swaps from a tick can do so
  exactly when the chain of searches read off the window's own bits leaves it (`Leaves`,
  `LeftIffChainLeaves`), which a caller can compute before simulating. Fourteen searches are always
  covered (`ChainInWindow`).

Parameters of the model: edge prices and account counts, quotes, the clock, the order in which hash
maps are traversed, the effect of a cross-program call, and, except where they are named, the
amount formulas of Invariant.

## Model

| member | source | states |
|---|---|---|
| `RouteSearch.BestPricePathsDepthSearch` | bin/autobahn-router/src/routing.rs:30-150 | for every graph, price function, budget and prior filter values: each mint's result is the best K of the distinct paths offered to it, best first and equal ones by first offer, negative amounts dropped for an exact input; every path offered is a route (connected, priced hop by hop, within the budgets, no node twice when there are no self-loops) of which no proper prefix is out of hops, four accounts short of the budget, negative or beyond an avoided cold mint; every other path accepted was walked on, and from a path walked on every priced, affordable edge out of its end to a mint none of its hops leaves was offered, and was accepted unless its bucket of eight account counts had seen three amounts as large; all affordable direct edges were offered |
| `RouteSearch.GoodPathsAreBest` | bin/autobahn-router/src/routing.rs:122-139 | the result list is best first, holds only offered paths, at most K of them, and an offered good path that is missing means the list is full of paths at least as good |
| `RouteSearch.Search.Walk` | bin/autobahn-router/src/routing.rs:152-232 | one recursive walk restores `path`, follows the functional course step for step, keeps every node's list equal to the K best of its offers, forgets no offer, and leaves every accepted path walked or stopped |
| `RouteSearch.Search.WalkEdge` | bin/autobahn-router/src/routing.rs:181-231 | one edge of the walk, as in the functional course: the eligible extension is offered unless it returns to the path, and whatever is accepted is handled |
| `RouteSearch.Search.TryAppendToBestResults` | bin/autobahn-router/src/routing.rs:234-286 | an extension is offered exactly when the edge has a price and fits the account budget; the walk goes on exactly when the already-seen filter lets the amount through; the amount is the hop-by-hop fold |
| `RouteSearch.Search.KeepIfBetter` | bin/autobahn-router/src/routing.rs:258-271 | comparing with the last kept path before replacing it makes no difference: the list remains the K best offers |
| `RouteSearch.Search.WorthWalking` | bin/autobahn-router/src/routing.rs:273-285 | a path is refused exactly when the worst of the three amounts seen in its bucket is larger; otherwise that one is overwritten and nothing else changes |
| `RouteSearch.WorstKept` | bin/autobahn-router/src/routing.rs:288-293 | the first of the three whose truncated amount is least |
| `RouteSearch.BucketsDisjoint` | bin/autobahn-router/src/routing.rs:273-276 | two nodes never share a bucket, whatever the account counts, and the index is within the 8 buckets per node |
| `RouteSearch.Search.OfferDirectPaths` | bin/autobahn-router/src/routing.rs:84-102 | every priced, affordable edge out of the input node is offered before the walk |
| `RouteSearch.ExtendRoute` | bin/autobahn-router/src/routing.rs:181-228 | appending a priced hop that does not return keeps connectivity, distinct nodes, and the folds of amount and accounts |
| `TopK.OfferIsTopK` | bin/autobahn-router/src/routing.rs:258-271 | one offer turns the K best of a history into the K best of the longer history |
| `TopK.RepeatedOffer` | bin/autobahn-router/src/routing.rs:295-316 | offering a path again changes nothing, even after it was evicted |
| `TopK.TopKMeaning` | bin/autobahn-router/src/routing.rs:295-316 | K slots, best first, each kept path offered and kept once, and no dropped offer beats a kept one |
| `TopK.TiesMeaning` | bin/autobahn-router/src/routing.rs:295-316 | of equal amounts the path offered first ranks higher, among the kept ones and against those not kept: the sort is stable and a full list keeps what it has |
| `TopK.PathAlreadyIn` | bin/autobahn-router/src/routing.rs:318-347 | true exactly when a kept path has the same amount and the same edge indices |
| `TopK.ReplaceWorstPath` | bin/autobahn-router/src/routing.rs:295-316 | unless already present, the new path takes the last slot and the list is sorted stably by amount in the mode's direction |
| `PoolPruning.SelectBestPools` | bin/autobahn-router/src/routing.rs:680-855 | for every warming amount and mint pair no usable edge left out is priced above one chosen, infinite prices above all numbers, and none is left out unless as many are chosen as hot or cold pairs may have; the graph lists exactly the placed edges, none twice, and counts them; all chosen edges of impact up to a quarter are placed, others only as the least of a side, and every mint of a chosen edge keeps an edge in that direction, in any iteration order |
| `PoolPruning.TopsChooseBest` | bin/autobahn-router/src/routing.rs:692-739 | the per-pair lists, read as sets of edges, are the best choice in prices and counts: hot pairs, or all when no mint is called hot, keep one number of edges and other pairs another |
| `PrunedSearch.PruneAndSearch` | bin/autobahn-router/src/routing.rs:680-855 | pruning and searching together: the graph is pruned as promised, each mint gets at most K paths, and every one is a route for its amount made of selected edges only |
| `PrunedSearch.PrunedWellFormed` | bin/autobahn-router/src/routing.rs:786-840 | a pruned graph is one the search accepts, without self-loops when no edge trades a mint for itself |
| `PoolPruning.SelectEdges` | bin/autobahn-router/src/routing.rs:689-748 | the selected set is the union over warming amounts of the per-pair top lists |
| `PoolPruning.BestForAmount` | bin/autobahn-router/src/routing.rs:692-739 | for one amount every pair with an eligible edge has a list, and each list is that pair's top max_count |
| `PoolPruning.TakeIn` | bin/autobahn-router/src/routing.rs:720-738 | one edge taken into its pair's list, by push, replacement of the last, or not at all, keeps it the top list of the edges seen |
| `PoolPruning.PlaceGoodEdges` | bin/autobahn-router/src/routing.rs:760-806 | exactly the selected edges of impact up to 0.25 are placed, in the direction of the swap mode, and the per-side minimum of the impact is known for every selected edge |
| `PoolPruning.RescueSides` | bin/autobahn-router/src/routing.rs:808-840 | whatever the hash order, a side left without an edge gets its least-impact edge; no edge is placed twice |
| `PoolPruning.LowestStep` | bin/autobahn-router/src/routing.rs:857-876 | recording an edge on both of its sides keeps each entry the least impact among the edges seen on that side |
| `PoolPruning.PlaceOne` | bin/autobahn-router/src/routing.rs:786-801 | appending the record of an edge not yet placed keeps every adjacency list duplicate-free and complete |
| `PoolPruning.Snapshot` | bin/autobahn-router/src/routing.rs:701-705 | an edge read as valid has one price per warming amount, so indexing by warming amount is in range |
| `EdgeStates.EdgeState.UpdateInternal` | bin/autobahn-router/src/edge.rs:139-230 | valid afterwards exactly when every amount is quoted, none is the largest 64-bit value, none has neither input nor output, and some output is above a ten-millionth of its input; then there is one price per amount, in order, which times the input is the output; a cooldown ends only if it is over and nothing overflowed |
| `EdgeStates.EdgeState.CachedPriceFor` | bin/autobahn-router/src/edge.rs:261-272 | the first entry whose amount is large enough, or the last; a price exactly when the state is valid, not cooling down and not empty |
| `EdgeStates.EdgeState.AddCooldown` | bin/autobahn-router/src/edge.rs:312-324 | the edge becomes unusable; the end is the later of the running cooldown and the new one of 1, 3, 5, 8 and from the fifth event on 12 times the duration |
| `EdgeStates.AllUsable` | bin/autobahn-router/src/edge.rs:206-225 | one price per amount exactly when every quote is usable, and then position by position |
| `EdgeStates.CooldownMeaning` | bin/autobahn-router/src/edge.rs:312-318 | the factor is the integer nearest to n times 1.2^n for n up to five, and never falls |
| `EdgeStates.PriceMeans` | bin/autobahn-router/src/edge.rs:206-218 | price times input is output, infinite without input; above the dust bound exactly when ten million times the output exceeds the input |
| `PathCache.PathDiscoveryCache.Insert` | bin/autobahn-router/src/routing.rs:395-443 | for every vector and amount, the entry replaces the one for this amount and bucket of five account counts, or goes in at one place, of one key; in sorted vectors that place divides the smaller entries from the others, and the order survives if and only if no entry lies between the amount and its f64 value, and then the abstract map of the key moves what was under the one to the new entry under the other; exact amounts always keep the order |
| `PathCache.PathDiscoveryCache.Get` | bin/autobahn-router/src/routing.rs:445-479 | for every vector: of the key exactly the entries younger than the maximum age, or from the future, stay and keep their order, and the scan returns the first larger entry of the bucket and the last of the bucket before it; in sorted vectors these are the neighbours in the abstract map |
| `PathCache.PathDiscoveryCache.ExpireOld` | bin/autobahn-router/src/routing.rs:374-386 | at most once a second, every vector keeps exactly its entries younger than the maximum age, or from the future, in order, and keys without any go; so does the abstract map of every key |
| `PathCache.PathDiscoveryCache.Invalidate` | bin/autobahn-router/src/routing.rs:481-493 | the vectors and abstract maps of both modes lose exactly the bucket's entries, and nothing changes at all when the ExactIn key is missing |
| `PathCache.Bracket` | bin/autobahn-router/src/routing.rs:464-478 | from any vector the first larger entry of the bucket and the last before it; from a sorted one predecessor and successor of the whole bucket |
| `PathCache.BinarySearch` | bin/autobahn-router/src/routing.rs:427-431 | a position of the vector, and on a strictly sorted one that of the key or where it belongs |
| `PathCache.InsertSortedIff` | bin/autobahn-router/src/routing.rs:427-442 | on any sorted vector, inserting at the point found for the amount keeps the order if and only if every other entry is on the same side of the amount and of its f64 value; the abstract map then changes at these keys only |
| `PathCache.ReinsertSortedIffRepresentable` | bin/autobahn-router/src/routing.rs:420-442 | on any sorted vector, an amount exact in f64 never disturbs the order, and any other does when inserted a second time |
| `PathCache.FirstNonRepresentable` | bin/autobahn-router/src/routing.rs:420-442 | amounts below 2^53 all survive; 2^53 + 1 does not, so the sortedness fails there |
| `PathCache.ToF64Means` | bin/autobahn-router/src/routing.rs:420-425 | the f64 value of an amount: itself below 2^53, otherwise the nearest multiple of the power of two that leaves 53 bits, ties to even |
| `Log2.Log2FloorX32` | lib/dex-invariant/src/internal/invariant-types/src/log.rs:31-59 | the exact floor of log2 for every positive 64-bit value, and 0 for 0 |
| `Log2.NarrowStep` | lib/dex-invariant/src/internal/invariant-types/src/log.rs:34-56 | each or-assignment sets a bit that was clear, and the shifted value stays bracketed by the original |
| `Log2.PassKeepsBracket` | lib/dex-invariant/src/internal/invariant-types/src/log.rs:76-83 | one squaring pass keeps y in [2^32, 2^33) and a two-sided bracket of x^(2^k); the upper drift at most doubles plus 8 |
| `Log2.PassStep` | lib/dex-invariant/src/internal/invariant-types/src/log.rs:76-83 | one pass of the loop on its own variables: the bit or-ed into the result is fresh, and the bracket is kept with the halved delta |
| `Log2.OneIsFixed` | lib/dex-invariant/src/internal/invariant-types/src/log.rs:72-74 | returning early when y is exactly one equals running all remaining passes |
| `Log2.Log2IterativeApproximationX32` | lib/dex-invariant/src/internal/invariant-types/src/log.rs:61-85 | with m the input or its reciprocal and u = result / 2^17: 2^u (2^32)^(2^15) <= m^(2^15), so the logarithm is never overestimated, and m^(2^15) is below the next unit up to a relative 294904 / 2^32; the sign and the input 0 are covered |
| `TickPrices.AlignIsFloor` | lib/dex-invariant/src/internal/invariant-types/src/log.rs:24-29 | the greatest multiple of the spacing not above the tick, for ticks of either sign |
| `TickPrices.ChooseTick` | lib/dex-invariant/src/internal/invariant-types/src/log.rs:100-129 | comparing the price with one candidate picks the candidate whose interval holds it, and returns it aligned; a panic exactly when the candidates align differently and the one compared has no price |
| `TickPrices.GetTickAtSqrtPrice` | lib/dex-invariant/src/internal/invariant-types/src/log.rs:87-130 | for every price and spacing: a price from that of a tick up to below that of the next gives the greatest multiple of the spacing not above the tick, prices being the products of 1.0001^(2^i / 2) as the source rounds them; every price between those of the least and the greatest tick is held by one; whatever is returned is aligned, and no hypothesis on the logarithm is left |
| `TickPrices.PriceIs` | lib/dex-invariant/src/internal/invariant-types/src/math.rs:22-90 | the price of a tick is the product, bit by bit and rounded down, of the factors 1.0001^(2^i / 2), or its reciprocal for a negative tick, and nothing else |
| `TickPrices.FactorsUnique` | lib/dex-invariant/src/internal/invariant-types/src/math.rs:29-82 | the 18 constants are determined by a law: the first is the square root of 1.0001 rounded down to 12 decimals, the second exact, and each later one the truncated square of the one before |
| `TickPrices.FactorsLaw` | lib/dex-invariant/src/internal/invariant-types/src/math.rs:29-82 | the 18 constants obey that law |
| `TickPrices.CandidateHolds` | lib/dex-invariant/src/internal/invariant-types/src/log.rs:88-103 | the computed logarithm always singles out two candidates of which one holds the price, on both sides of 1.0, and the candidate whose price is computed is in range |
| `TickPrices.AboveOne` | lib/dex-invariant/src/internal/invariant-types/src/log.rs:91-94 | from 1.0 on, the logarithm is less than one tick short of the tick holding the price and below the next |
| `TickPrices.BelowOne` | lib/dex-invariant/src/internal/invariant-types/src/log.rs:91-94 | below 1.0, with the allowance of 300000, the same for the reciprocal, truncations of price, scaled price and reciprocal included |
| `TickPrices.FactorBounds` | lib/dex-invariant/src/internal/invariant-types/src/math.rs:29-82 | each of the 18 constants is 1.0001^(2^i / 2) up to less than 2^i units of 2^-35 in the binary logarithm |
| `TickPrices.ProductUpper` | lib/dex-invariant/src/internal/invariant-types/src/math.rs:27-82 | 2^35 times the logarithm of the price of tick n is at most 2478408 n, eight times the constant of the lookup |
| `TickPrices.ProductLower` | lib/dex-invariant/src/internal/invariant-types/src/math.rs:27-82 | and at least 2478407 n less one unit for each multiplication |
| `TickPrices.PriceIncreases` | lib/dex-invariant/src/internal/invariant-types/src/math.rs:22-90 | the truncated price of a tick is strictly below that of the next, over the whole range of ticks of both signs |
| `TickPrices.OwnPrice` | lib/dex-invariant/src/internal/invariant-types/src/math.rs:22-90 | a tick's own price lies in its interval, so the lookup gives the tick back |
| `Tickmap.NextInitialized` | lib/dex-invariant/src/internal/invariant-types/src/structs/tickmap.rs:204-254 | for every tick: the scan of the bits from the one after the tick to the limit, or a panic if and only if the tick is misaligned, an end has no byte, or a byte outside the window is reached before a set bit; indices just below zero are mirrored as the truncating division does |
| `Tickmap.PrevInitialized` | lib/dex-invariant/src/internal/invariant-types/src/structs/tickmap.rs:257-309 | the same from the tick down to the limit |
| `Tickmap.SearchesOnGrid` | lib/dex-invariant/src/internal/invariant-types/src/structs/tickmap.rs:204-309 | for ticks on the bitmap these are the least initialized tick in (tick, limit] and the greatest in [limit, tick] |
| `Tickmap.NextTickMeaning` | lib/dex-invariant/src/internal/invariant-types/src/structs/tickmap.rs:204-254 | the answer is t if and only if t is the least initialized tick in (tick, limit]; no answer means none is |
| `Tickmap.PrevTickMeaning` | lib/dex-invariant/src/internal/invariant-types/src/structs/tickmap.rs:257-309 | the answer is t if and only if t is the greatest initialized tick in [limit, tick]; no answer means none is |
| `Tickmap.TickPosition` | lib/dex-invariant/src/internal/invariant-types/src/structs/tickmap.rs:20-37 | a bit position maps to an aligned tick and back, neighbours one spacing apart |
| `Tickmap.PositionTick` | lib/dex-invariant/src/internal/invariant-types/src/structs/tickmap.rs:20-37 | an aligned tick maps to a bit position and back |
| `Tickmap.CellMeaning` | lib/dex-invariant/src/internal/invariant-types/src/structs/tickmap.rs:27-37 | byte and bit of an index by truncating division: no byte below -7, mirrored bits from there to zero |
| `Tickmap.PositionMeaning` | lib/dex-invariant/src/internal/invariant-types/src/structs/tickmap.rs:20-33 | an aligned tick has its number of spacings plus 44364 for a position, and is on the bitmap from -44364 to 44363 spacings |
| `Tickmap.IsSetMeaning` | lib/dex-invariant/src/internal/invariant-types/src/structs/tickmap.rs:311-316 | a position is set when its byte is in the window and odd after as many halvings as the remainder by eight |
| `Tickmap.SearchLimitMeaning` | lib/dex-invariant/src/internal/invariant-types/src/structs/tickmap.rs:40-63 | the limit is the nearest of 256 spacings away, 44363 spacings from zero, and the last multiple of the spacing up to 221818 |
| `Tickmap.LimitInBitmap` | lib/dex-invariant/src/internal/invariant-types/src/structs/tickmap.rs:40-63 | the search limit lies inside the bitmap and at most 256 positions away |
| `Tickmap.TickmapView.Get` | lib/dex-invariant/src/internal/invariant-types/src/structs/tickmap.rs:311-316 | reads the bit of the tick |
| `Tickmap.TickmapView.Flip` | lib/dex-invariant/src/internal/invariant-types/src/structs/tickmap.rs:318-327 | changes the bit of one tick and no other, and not the window |
| `Tickmap.FromSlice` | lib/dex-invariant/src/internal/invariant-types/src/structs/tickmap.rs:132-161 | a window of 482 bytes at the start chosen for the direction, agreeing with the full bitmap on all its bits |
| `Tickmap.SearchesAgree` | lib/dex-invariant/src/internal/invariant-types/src/structs/tickmap.rs:163-166 | a search that does not panic gives the answer of the full bitmap, both directions |
| `Tickmap.ChainInWindow` | lib/dex-invariant/src/internal/invariant-types/src/structs/tickmap.rs:9-18 | any chain of up to 14 searches in swap direction from the current tick stays inside the window, for every current tick, spacing and direction |
| `ClosestTicks.ScanUp` | lib/dex-invariant/src/invariant_dex.rs:129-144 | upward, the list is the nearest set bit at or below the current one, if any, then the nearest set bits above it in order |
| `ClosestTicks.ScanDown` | lib/dex-invariant/src/invariant_dex.rs:145-158 | downward, the list is the nearest set bit above the current one, if any, then the nearest set bits at or below it in descending order |
| `ClosestTicks.FindClosestTickIndexes` | lib/dex-invariant/src/invariant_dex.rs:108-166 | the same list as ticks, never longer than the limit |
| `ClosestTicks.FindAllTickIndexes` | lib/dex-invariant/src/invariant_dex.rs:168-188 | all initialized ticks between the extreme ticks, ascending; an error exactly when an extreme overflows |
| `ClosestTicks.SkipStopsAhead` | lib/dex-invariant/src/invariant_edge.rs:104-117 | skipping what lies behind leaves exactly the entries ahead |
| `ClosestTicks.SearchFindsNextEntry` | lib/dex-invariant/src/invariant_edge.rs:198-209 | a tick found by a search from a later position is the first remaining list entry, while the list lasts |
| `ClosestTicks.PointerCrosses` | lib/dex-invariant/src/invariant_edge.rs:190-209 | after crossing the found tick the next entry is again the first one to come |
| `ClosestTicks.PointerMoves` | lib/dex-invariant/src/invariant_edge.rs:235-241 | moving over a stretch without set bits leaves the first entry to come unchanged |
| `SwapLoop.SimulateInvariantSwap` | lib/dex-invariant/src/invariant_edge.rs:77-278 | for arbitrary price arithmetic the swap is a run of turns stated in plain terms, each towards the nearest tick or the caller's price, booked without loss; a swap is given up for one of four reasons only: the end of the ticks, the caller's price reached with something left, liquidity that does not fit, or an uninitialized crossing when four ticks are used or fourteen crossings made; success takes exactly the requested input with fee at most the input; under the step contract the ticks used are initialized, in swap order and the loaded ones while they last, the liquidity is the start plus their net changes, the tick stays on the bitmap, and the window is left only after 14 or more crossings |
| `SwapLoop.TurnIff` | lib/dex-invariant/src/invariant_edge.rs:119-263 | one iteration goes on to a state if and only if the plain statement leads there, and gives up if and only if one of its four reasons holds: at a virtual crossing, exactly when four ticks are used or fourteen crossings made |
| `SwapLoop.RunOutcome` | lib/dex-invariant/src/invariant_edge.rs:104-278 | any run of such turns that ends with an outcome is the simulation, and the outcome is its outcome |
| `WindowExits.LeftIffChainLeaves` | lib/dex-invariant/src/invariant_edge.rs:119-263 | for every window and starting tick: some arithmetic meeting the step contract, pool and amount make a swap panic outside the window if and only if the chain read off the window's own bits leaves it |
| `WindowExits.ChainInsideNeverPanics` | lib/dex-invariant/src/invariant_edge.rs:119-263 | one direction for any given swap: a chain that stays inside rules out the panic |
| `WindowExits.PanicFollowsChain` | lib/dex-invariant/src/invariant_edge.rs:174-262 | a run that panics, however slowly it crossed empty ranges, panics where the chain does |
| `WindowExits.Deeper` | lib/dex-invariant/src/invariant_edge.rs:235-241 | stopping one tick short after an empty range never leaves the window when going on would not: the chain is monotone in position and in crossings made |
| `WindowExits.UnhinderedQuotePanics` | lib/dex-invariant/src/invariant_dex.rs:355-376 | with the source's own tick prices, limits and branches, any formulas and any pool: if every step reaches its limit with something left and every crossing fits, the quote panics if and only if the chain leaves the window |
| `WindowExits.FlowFollowsChain` | lib/dex-invariant/src/invariant_edge.rs:119-263 | the same for every swap limited only by the end of the ticks |
| `WindowExits.EmptyPoolPanics` | lib/dex-invariant/src/invariant_dex.rs:355-376 | pools without liquidity whose ticks cancel out always meet that condition |
| `LeavingPool.SpreadQuotePanics` | lib/dex-invariant/src/invariant_edge.rs:190-222 | a concrete loaded pool with liquidity 1.0, whose quote of 100 with the source's own formulas, prices and limits panics outside the window |
| `LeavingPool.PositionsAccount` | lib/dex-invariant/src/invariant_edge.rs:190-222 | that pool is one positions make: fifteen of them account for its liquidity, the set bits of its window and the net changes there |
| `LeavingPool.SpreadStep` | lib/dex-invariant/src/invariant_edge.rs:119-241 | each of its first fourteen steps reaches its limit for at most four tokens and crosses the tick |
| `LeavingPool.StepSmall` | lib/dex-invariant/src/internal/invariant-types/src/math.rs:138-258 | between prices of one half and one, a step at liquidity 1.0 costs at most three tokens and a fee of one, by the formulas of the source |
| `SwapLoop.IterationConserves` | lib/dex-invariant/src/invariant_edge.rs:147-154 | remaining + total in is the request after every iteration, the fee is part of it, and the totals never fall |
| `SwapLoop.IterationProgress` | lib/dex-invariant/src/invariant_edge.rs:119-263 | each iteration exhausts the amount, counts a virtual crossing (at most 13), or moves strictly in swap direction |
| `SwapLoop.TotalsAreSums` | lib/dex-invariant/src/invariant_edge.rs:150-154 | after any number of iterations total output and fee are the sums over the steps |
| `SwapLoop.GetCloserLimit` | lib/dex-invariant/src/internal/invariant-types/src/math.rs:94-136 | the bit-level search gives the limit determined by the nearest initialized tick, the search range and the caller's price limit; a panic exactly where the search panics |
| `SwapLoop.LoadedTickAtHand` | lib/dex-invariant/src/invariant_edge.rs:198-209 | when an initialized tick is reached the array index points at exactly that loaded tick, until the list is used up |
| `SwapLoop.IterationTracks` | lib/dex-invariant/src/invariant_edge.rs:174-262 | every iteration keeps the array index and the used ticks aligned with the closest-tick list |
| `SwapLoop.IterationLiquidity` | lib/dex-invariant/src/invariant_edge.rs:211-217 | every iteration keeps the liquidity equal to the start plus the net changes of the ticks used, upward adding and downward subtracting |
| `SwapLoop.IterationNear` | lib/dex-invariant/src/invariant_edge.rs:174-262 | every iteration moves at most 256 positions, 257 downwards, and counts as one crossing |
| `SwapLoop.NearIsCovered` | lib/dex-invariant/src/internal/invariant-types/src/structs/tickmap.rs:132-166 | within 13 such moves the next search is inside the window |
| `SwapLoop.SkipBehind` | lib/dex-invariant/src/invariant_edge.rs:104-117 | the index of the first loaded tick that is not behind the current tick |
| `SwapLoop.ComputeSwapStepMeetsContract` | lib/dex-invariant/src/internal/invariant-types/src/math.rs:138-258 | for arbitrary price formulas, an exact-input step that stops short of its target consumes the whole amount |
| `SwapLoop.ComputeSwapStepMeaning` | lib/dex-invariant/src/internal/invariant-types/src/math.rs:138-258 | for arbitrary formulas a step is exactly this: the target if the amount suffices, otherwise the price it buys; the cost and yield of getting there, the yield asked for never exceeded; and a fee that is the rest of an input that fell short |
| `SwapLoop.IsEnoughMeaning` | lib/dex-invariant/src/internal/invariant-types/src/math.rs:480-504 | what is left pushes the price exactly when spending it changes the price; always without liquidity |
| `StepFormulas.DeltaXMeaning` | lib/dex-invariant/src/internal/invariant-types/src/math.rs:261-285 | the first token for moving between two prices: one rounding of the quotient, up or down as asked, over a product rounded the other way, if it fits 64 bits |
| `StepFormulas.DeltaYMeaning` | lib/dex-invariant/src/internal/invariant-types/src/math.rs:287-316 | the second token: the difference times the liquidity rounded once, though the source divides twice |
| `StepFormulas.PriceByX` | lib/dex-invariant/src/internal/invariant-types/src/math.rs:372-426 | the price after an amount of the first token, rounded up; no result exactly when the liquidity is used up or a width exceeded |
| `StepFormulas.PriceByY` | lib/dex-invariant/src/internal/invariant-types/src/math.rs:428-478 | the price after an amount of the second token, rounded down in either direction |
| `StepFormulas.FeeMeaning` | lib/dex-invariant/src/internal/invariant-types/src/math.rs:138-258 | the fee on an amount is rounded up and what remains without it down |
| `SwapCodec.SwapRoundTrip` | programs/autobahn-executor/src/lib.rs:52-61 | dispatching and parsing a printed swap recovers minimum output and all hops with no byte left over; the version comes back modulo 16, so intact if and only if it is at most 15 |
| `SwapCodec.HopsRoundTrip` | programs/autobahn-executor/src/instructions/execute_swap_v3.rs:49-57 | parsing n printed hops returns them and exactly the bytes after them |
| `SwapCodec.HopRoundTrip` | programs/autobahn-executor/src/instructions/execute_swap_v3.rs:50-57 | one printed hop is parsed back, followed by the rest |
| `SwapCodec.Ux16RoundTrip` | programs/autobahn-executor/src/utils.rs:1-38 | every 16-bit value written is read back, followed by the rest |
| `SwapCodec.U64RoundTrip` | programs/autobahn-executor/src/utils.rs:16-46 | every 64-bit value written is read back, followed by the rest |
| `SwapCodec.LittleEndianAt` | programs/autobahn-executor/src/utils.rs:16-19 | byte k of a number is the number over 256^k, modulo 256 |
| `SwapCodec.ReadUx16Meaning` | programs/autobahn-executor/src/utils.rs:30-38 | a number is read exactly where it is laid out as chunks of 255 and a remainder and fits 16 bits, and what follows is the rest |
| `SwapCodec.DispatchMeaning` | programs/autobahn-executor/src/lib.rs:52-76 | the first byte is 16 times the version plus the instruction number; number 1 is the swap, and no data panics |
| `SwapCodec.WriteUx16` | programs/autobahn-executor/src/utils.rs:1-9 | the in-place recursive writer puts exactly the encoding at the offset and leaves the other bytes alone |
| `SwapCodec.GenerateSwapIxData` | programs/autobahn-executor/src/swap_ix.rs:6-62 | for as many hops as the shortest list has: the data are 1 plus 16 times the version's low half, the minimum least byte first, the number of instructions, and per hop two chunked sizes, the data and the account count; the accounts are the input account, writable, and per hop the out account, writable, the program, and the instruction's own accounts unchanged, each at its index |
| `SwapCodec.DataIs` | programs/autobahn-executor/src/swap_ix.rs:21-53 | every byte printed, by its position |
| `SwapCodec.AccountsAre` | programs/autobahn-executor/src/swap_ix.rs:15-52 | every account printed, by its position, with its flags |
| `Executor.ExecuteSwapV3` | programs/autobahn-executor/src/instructions/execute_swap_v3.rs:23-119 | against any cross-program effect: the calls made are a run of the first parsed hops; success or slippage exactly when the whole payload runs through, success exactly when the last measured gain reaches the minimum; the event reports input spent and output gained; otherwise it stops, with a panic or an error, for a named reason of the header, the next hop or the input account |
| `Executor.ExecuteHop` | programs/autobahn-executor/src/instructions/execute_swap_v3.rs:50-87 | one hop either succeeds as a call on its account slice with the patched data, or no such call is possible, and it panics or fails exactly as an index, the balance, the account or the call decides |
| `Executor.PatchOnlyAtOffset` | programs/autobahn-executor/src/instructions/execute_swap_v3.rs:61-67 | the data changes only in the 8 bytes at the offset, of which byte k is the amount over 256^k modulo 256, and which decode to the amount |
| `Executor.RunUnique` | programs/autobahn-executor/src/instructions/execute_swap_v3.rs:49-100 | the run is determined by payload, accounts and effects: any two agree hop by hop |
| `Executor.StuckMeansNoRun` | programs/autobahn-executor/src/instructions/execute_swap_v3.rs:49-100 | a hop that cannot be parsed or done excludes every run of the whole payload |
| `Executor.PrintedParses` | programs/autobahn-executor/src/instructions/execute_swap_v3.rs:28-57 | what the router prints is dispatched and parsed to the same minimum and hops, and its hops use up exactly the printed accounts |
| `Executor.PrintedSlice` | programs/autobahn-executor/src/swap_ix.rs:40-52 | hop i's account slice is its out account, its program and its own accounts |
| `Executor.PrintedRun` | programs/autobahn-executor/src/instructions/execute_swap_v3.rs:58-80 | in every run of a printed swap, call i is the router's i-th instruction with the previous measured gain patched in |
| `PrintedSwaps.PrintAndExecute` | programs/autobahn-executor/src/instructions/execute_swap_v3.rs:23-119 | the router's instructions printed, dispatched and executed: whatever happens the calls made are its first instructions, each but the first patched with the gain measured before; if all can run they do and the swap succeeds exactly when the last gain reaches the minimum, otherwise it fails |
| `PrintedSwaps.PrintedRunIff` | programs/autobahn-executor/src/swap_ix.rs:33-53 | a run of the first printed hops is a run of the first instructions, and conversely |
| `Raydium.CeilDivMeaning` | lib/dex-raydium/src/internal/math.rs:312-342 | the true ceiling unless twice the dividend is below the divisor, then zero; the second component is the least divisor for that quotient |
| `Raydium.BaseInMeaning` | lib/dex-raydium/src/internal/math.rs:155-193 | the floor of the constant-product output in both directions; no intermediate step overflows |
| `Raydium.BaseOutMeaning` | lib/dex-raydium/src/internal/math.rs:195-239 | defined exactly below the output reserve; there the ceiling of the constant-product input, or zero in the small-value branch |
| `Raydium.BaseInWide` | lib/dex-raydium/src/internal/math.rs:155-193 | for values of any width the output exists exactly when sum and product fit 128 bits |
| `Raydium.BaseOutWide` | lib/dex-raydium/src/internal/math.rs:195-239 | and the input exactly when the product fits and the output leaves something in the pool |
| `Raydium.CeilDivFails` | lib/dex-raydium/src/internal/math.rs:312-342 | the division fails exactly for a zero divisor or where doubling a dividend below the divisor overflows |
| `Raydium.ExactOutIsLeast` | lib/dex-raydium/src/internal/math.rs:155-239 | a nonzero exact-out input is the least one for which exact-in yields the output |
| `Raydium.ExactOutBuysOutput` | lib/dex-raydium/src/internal/math.rs:155-239 | the exact-out input buys the output if and only if the output is zero or the small-value branch is not taken |
| `Raydium.SmallExactOutBuysNothing` | lib/dex-raydium/src/internal/math.rs:319-326 | concrete reserves for which one unit of output is quoted at zero input |
| `Raydium.SwapFeeMeaning` | lib/dex-raydium/src/internal/processor.rs:26-31 | the fee is the ceiling of the fraction, or zero when under half a unit, and at most the amount |
| `Raydium.FeeStep` | lib/dex-raydium/src/internal/processor.rs:26-31 | one more unit of input raises the fee by zero or one |
| `Raydium.NetInputMonotone` | lib/dex-raydium/src/internal/processor.rs:26-34 | fee and net input are both monotone in the input |
| `Raydium.ExactInQuoteSafe` | lib/dex-raydium/src/internal/processor.rs:7-50 | with a valid fee and nonzero reserves the quote never fails, leaves output reserve, and never lowers the reserve product |
| `Raydium.ExactInQuoteMeaning` | lib/dex-raydium/src/internal/processor.rs:7-50 | where swapping is permitted and the vaults cover what is owed, the quote is the constant-product output of the input less its rounded fee, and missing only for nothing against an empty reserve |
| `Raydium.ExactOutQuoteMeaning` | lib/dex-raydium/src/internal/processor.rs:52-87 | there an exact-out quote succeeds exactly when the output is below the reserve and the input fits 64 bits, with input and fee rounded up or to zero below one half |
| `Raydium.ClosedPoolQuotesNothing` | lib/dex-raydium/src/internal/processor.rs:14-24 | a pool that does not permit swaps or owes more than a vault holds quotes nothing in either direction |
| `Raydium.ExactInQuoteMonotone` | lib/dex-raydium/src/internal/processor.rs:7-50 | a larger input never yields less output, despite the rounded fee |
| `Raydium.ExactOutReplay` | lib/dex-raydium/src/internal/processor.rs:79-86 | replaying input + fee as exact-in charges at least the fee and at most the rounded-up fee on the fee more, which bounds the shortfall of the net input |
| `Raydium.ExactOutQuoteReplay` | lib/dex-raydium/src/raydium_dex.rs:252-280 | the whole exact-out quote replayed as an exact-in quote succeeds with that fee bound; it yields the output if and only if the output is zero, or the fees agree and the small-value branch was not taken; outside that branch it falls short by at most what the fee on the fee would buy |
| `LookupTables.GetBestAlt` | bin/autobahn-router/src/alt/alt_optimizer.rs:4-9 | against every choice of at most four tables: with four returned 256 covered >= 175 best, with fewer best <= covered + number chosen; a sub-multiset of the tables, each replacing at least two addresses still uncovered, and each the first of a stable ranking by what it would replace of what is still uncovered |
| `LookupTables.GetBestAltInternal` | bin/autobahn-router/src/alt/alt_optimizer.rs:11-56 | sorting and recursing yields a greedy choice from the remaining tables, equal ones taken in the order the rankings before left them in |
| `LookupTables.SortRanks` | bin/autobahn-router/src/alt/alt_optimizer.rs:15-29 | the sort ranks by what each table would replace, most first, and equal ones by their place |
| `LookupTables.GreedyRatio` | bin/autobahn-router/src/alt/alt_optimizer.rs:11-56 | k greedy choices cover at least 1 - (3/4)^k of what any four tables cover |
| `LookupTables.GreedyExhausted` | bin/autobahn-router/src/alt/alt_optimizer.rs:31-34 | stopping early loses at most one address per table of any choice |
| `LookupTables.GreedySound` | bin/autobahn-router/src/alt/alt_optimizer.rs:36-52 | a greedy choice is part of the offered tables and each adds at least two addresses |
| `HotMints.HotMintsCache.Add` | bin/autobahn-router/src/hot_mints.rs:38-61 | the queue remains the max_count most recent distinct mints of the longer history, the set mirrors it |
| `HotMints.HotMintsCache.Get` | bin/autobahn-router/src/hot_mints.rs:63-68 | the most recent mints of the whole history together with the always-hot ones |
| `HotMints.MostRecentMeaning` | bin/autobahn-router/src/hot_mints.rs:38-61 | the reference order: exactly the mints ever added that are not always hot, by last position in the history, newest first |
| `HotMints.TakeStep` | bin/autobahn-router/src/hot_mints.rs:43-59 | move to front, evict the oldest, or grow is the bounded most-recent list of the longer history, though only the kept part is known |

## Left out

- I/O: gRPC, QUIC, RPC, HTTP, metrics, price feeds, configuration, bots, logging, locks and object pools.
- The Orca, Saber, Raydium CP, OpenBook and Infinity adapters: account lists around pricing code kept in other crates.
- Floating point in the search and in pruning: amounts are exact reals, so rounding, negative zero, and overflow to infinity inside a path are not modelled; edge prices keep their infinite and not-a-number cases. The f64 conversion in the path cache is exact.
- The price-impact and adjusted-amount formulas; an edge's impact is a parameter.
- Route assembly, the retry with relaxed constraints, and ExactOut routes: direct ExactOut paths are looked up from the input node of a reversed graph, so route-level statements are made for the search itself.
- Optimality of the already-seen filter: it drops paths that could lead to better ones, so the search is characterised by what it walked and offered, not as a global optimum.
- Overflow of the 32-bit bucket index, for more than 2^29 mints.
- The swap loop is proved for arbitrary amount formulas; those of the source (`StepFormulas`) are characterised one by one and used for the pool that leaves its window; the loop is not studied further for them.
- `execute_swap_v2`, fee charging, referrals and the OpenBook swap instruction; failure of the event log.
- Raydium state packing, pool initialization, `fibonacci` and decimal conversion.
- `edge_updater`: which edges are refreshed when.
- TickPrices.GetTickAtSqrtPrice: of prices no tick holds, only that the result is aligned or a panic.
- TickPrices.ProductUpper: the operations on fixed-point numbers, here and in `StepFormulas`, are those of the `decimal` crate, which is not part of this model; they are taken to truncate, or to round up where the name says so.
- PathCache.PathDiscoveryCache.ExpireOld: only for a clock that has not gone back past the last expiry, where the source underflows.
- PathCache.BinarySearch: where a disordered vector is searched, which position is found is not described.
- ClosestTicks.FindClosestTickIndexes: the list is characterised for limits of at least two, because with a limit of one the entry may be the farthest set bit instead of the nearest; the source always passes four.
- RouteSearch.BestPricePathsDepthSearch: for K at least one, because with an empty preallocated list the source keeps one path instead of none.
- PoolPruning.SelectBestPools: for max_count at least one, because with zero the source first keeps one edge per pair and then panics.
- HotMints.HotMintsCache.Add: for max_count at least one, because the source panics on an empty queue otherwise.
- SwapLoop.SimulateInvariantSwap: ends with an outcome of its own, OffMap, at an aligned tick outside the bitmap, which is never reached from a tick on the bitmap under the step contract.
- SwapCodec.GenerateSwapIxData: for hops that fit the 1232-byte buffer and the field widths, because the source panics or truncates elsewhere.
