# Activation, cover, stamp, passes and tree split: a verified model

This project models six parts of the repository and proves what each is for.

- **Personalized PageRank** (`Numbers`, `Sums`, `Ppr*.dfy`): the prebuilt incidence index, built in
  place by a stable counting sort, and power iteration over two swapped buffers. Everything that
  must keep the order of operations is written over an arbitrary number type with an arbitrary
  table of operations (`Numbers.Arith`), so an equality proved there means that the same operations
  run in the same order. The analytic results (mass, contraction, the one fixed point, stopping,
  accuracy, support, order independence) hold for every table that computes in the reals
  (`Numbers.IsReal`; `Numbers.RealArith` is one).
- **Activation plans** (`Plan*.dfy`): the pass from PPR to a specialised, filtered, sorted, cut and
  synthesized view, with or without an index, over the reached nodes or over candidates.
- **Pairwise cover** (`Cover.dfy`, `CoverBuild.dfy`): axis order, the backtracking completability
  search, required pairs and the greedy build. Every random choice is an arbitrary pick, so the
  results hold for every seed.
- **Build stamp** (`Bytes`, `Fnv`, `Stamp`, `Lock*.dfy`): the dependency closure of a parsed lock,
  the length-framed stream, and FNV-1a with 64-bit wrap-around.
- **Pass registry and domain tables** (`Passes.dfy`, `Profile.dfy`).
- **Tree split** (`TreeSplit.dfy`, `TreeParts.dfy`).

`Options`, `Bags`, `Selections` and `Sorting` are small shared modules: a missing value, lists as
bags, lists cut down to some places, and one stable sort that every sort of the model uses.

What a run, a view, a closure text and a stamp are is stated twice: by the functions the methods are
proved against, and by laws that name none of these functions and start from edges, filters,
packages and files (`PprEdges`, `PlanHooks`, `LockTexts`, `StampInputs`).

## What the code does where its documentation says otherwise

- The comment at `activation/src/ppr_index.rs:190-191` says scores keep summing to 1. It stands in
  the iteration that both kinds of run share. A run from seeds keeps it if and only if no node is
  listed twice as a seed: hits are counted with repeats, the personalization is set once (`RunMass`,
  with the concrete `RepeatedSeedLosesMass`). A run from weights keeps it when the nodes' last
  weights sum to 1, and from nonnegative weights only then: a smaller sum never rises, a larger one
  never falls (`WeightedMass`, with the concrete `WeightTwoGrows`).
- `tree_without` says it removes every excluded path `a/b/`. It also removes a file exactly at `a/b`
  (`FileAtPrefixIsLost`), although `part_of` gives that file to the rest part. With one prefix
  inside another a file is in two part trees (`NestedPartsShare`). The part trees share the files
  out if and only if no file lies under two prefixes and none sits exactly at a prefix without lying
  under another (`PartsPartition`).
- `Cover.build` reads a first and a second axis. It fails if and only if there are fewer than two
  (`Build`); the error for pairs left over is never raised.
- The activation before plans counted degrees by slot. Over distinct node ids a plan's run performs
  the same operations (`RunIsLegacy`). With repeated ids the operations differ in slots that hold
  nothing, and the answers still agree over the reals (`RunIsLegacyOverReals`).

## Model

| member | source | states |
|---|---|---|
| PprSpec.IdToIdx | activation/src/ppr_index.rs:62-66 | every listed id, and no other, has a slot that carries it, and no later slot does |
| PprIndexes.CollectEvents | activation/src/ppr_index.rs:68-100 | the pushed incidences are the edges' incidences in input order, skipping non-positive weights and foreign endpoints; each out-weight is the sum, in that order, of what leaves the slot |
| PprIndexes.CountTargets | activation/src/ppr_index.rs:102-105 | one count per target, one place up: how long each target's list is |
| PprIndexes.PrefixSums | activation/src/ppr_index.rs:106-108 | each start is the number of incidences of all lower targets |
| PprIndexes.PlaceEvents | activation/src/ppr_index.rs:109-114 | the cursor pass is a stable sort: every target's slice holds its list in push order |
| PprIndexes.PlacedIsBuilt | activation/src/ppr_index.rs:102-115 | the finished arrays are well-formed and every slice is the list of what sends to its target, in edge input order |
| PprIndexes.Build | activation/src/ppr_index.rs:56-130 | every field of the index is the one its graph and config determine; slices equal the simple form's lists |
| PprIndexes.WeightFingerprint | activation/src/ppr_index.rs:42-50 | the fingerprint lists exactly the weight map, strictly ascending by category |
| PprRuns.FillRound | activation/src/ppr_index.rs:192-207 | filling the second buffer slot by slot computes the round of the first, which it leaves alone |
| PprRuns.Iterate | activation/src/ppr_index.rs:182-223 | the swapped-buffer loop returns the vector and count of the recursive run: stop after the first change below epsilon, else at the cap |
| PprRuns.Vector | activation/src/ppr_index.rs:137-157 | the in-place personalization and run equal the run from equal weights per hit; empty after 0 rounds without nodes, seeds or hits |
| PprRuns.VectorWeighted | activation/src/ppr_index.rs:165-179 | last weight per node wins, foreign nodes are skipped, all zeros after 0 rounds when nothing is left |
| PprRuns.WeightedIsVector | activation/src/ppr_index.rs:159-179 | weighting every seed by one over the hit count is the plain run, repeats included |
| PprRuns.CollectLists | activation/src/ppr_index.rs:281-316 | the per-call lists of lists and out-weights are those of the incidences in edge order |
| PprRuns.VectorHead | activation/src/ppr_index.rs:264-373 | the form without an index, with a fresh vector each round, is the specification of a run |
| PprEdges.EventsAreRead | activation/src/ppr_index.rs:68-100 | in every arithmetic: the incidences, in edge order and an edge before its reverse, are exactly those of the edges between listed nodes whose category's weight, 1 when none is configured, is not at or below zero; each carries that weight the way the direction says |
| PprEdges.IncomingSelects | activation/src/ppr_index.rs:102-114 | what sends to a slot is exactly the incidences with that target, in their order |
| PprEdges.OutWeightAdds | activation/src/ppr_index.rs:84-98 | an out-weight is the running sum, from zero and in order, of exactly the incidences with that source |
| PprRuns.IndexRefinesHead | activation/src/ppr_index.rs:56-223 | building once and running equals the form without an index for every seed list and every arithmetic, so operation for operation |
| PprRuns.FingerprintUnique | activation/src/ppr_index.rs:42-50 | one weight map has one fingerprint, whatever order the hash map yields |
| PprRuns.CheckMatches | activation/src/ppr_index.rs:252-258 | the check answers yes exactly when every compared field and the whole weight map agree |
| PprRuns.MatchesIsSamePpr | activation/src/ppr_index.rs:250-258 | an index matches a config if and only if the config it was built for is the same in everything PPR reads |
| PprDirection.BackwardIsReversedForward | activation/src/ppr_index.rs:84-99 | backward on a graph is forward on its reversed edges: same incidence order, index and vectors, self-loops included |
| PprDirection.UndirectedIsDoubledForward | activation/src/ppr_index.rs:93-98 | undirected is forward on every edge followed by its reverse |
| PprReal.RoundIsStep | activation/src/ppr_index.rs:192-207 | over the reals a round is the affine map that pushes every score along the incidences and hands dangling scores back |
| PprReal.RunStops | activation/src/ppr_index.rs:189-222 | a run returns the vector of the first round whose change is below epsilon, or of the cap |
| PprEdges.CarriedIsFromTo | activation/src/ppr_index.rs:68-100 | over the reals the incidences carry from slot to slot what the edges carry from node to node: the sum of the configured weights, 1 by default, of the edges that run that way; slots a repeated id left behind carry nothing |
| PprEdges.ClampIsNearest | activation/src/ppr_index.rs:184-184 | the damping used lies in [0.01, 0.99] and nothing there is nearer to the one configured |
| PprEdges.HitsArePlaces | activation/src/ppr_index.rs:143-143 | hits count the places of the seed list that name a node |
| PprEdges.RoundByEdges | activation/src/ppr_index.rs:192-207 | one round from any vector, said of edges and config alone: 1-d of the personalization, and d of what every node sends, its score shared out by the weight between the two over all the weight leaving it, and of the share of the scores of nodes nothing leaves |
| PprEdges.RunByEdges | activation/src/ppr_index.rs:264-373 | a run from seeds returns nothing when no seed is a node, else the last of a list of vectors: the first puts one over the hits on every seed node, each next one is that round of the one before, and the list ends with the first change below epsilon or at the cap |
| PprEdges.WeightedRunByEdges | activation/src/ppr_index.rs:165-223 | a weighted run is the same rounds, started at the last weight listed for each node and 0 elsewhere; that start is returned after 0 rounds when no listed node is indexed |
| PprEdges.CallsOutweighContains | activation/src/lib.rs:332-353 | a concrete graph with weights 5 and 1, whose first round scores 5/12 and 1/12 |
| PprMass.SentIsReceived | activation/src/ppr_index.rs:71-115 | what arrives in all equals each slot's coefficient times all the weight leaving it |
| PprMass.OutPositive | activation/src/ppr_index.rs:115-115 | a slot dangles exactly when no incidence leaves it |
| PprMass.MassKept | activation/src/ppr_index.rs:189-207 | from a nonnegative personalization every round keeps all scores nonnegative; their sum stays on the side of 1 where it starts, no nearer to 1, so mass 1 stays exactly 1 |
| PprMass.UnitMassKept | activation/src/ppr_index.rs:189-207 | a personalization of sum 1 keeps the sum at 1 in every round, whatever the signs |
| PprMass.Contraction | activation/src/ppr_index.rs:182-207 | one round shrinks the L1 distance of any two vectors by at least the damping |
| PprConvergence.ChangeShrinks | activation/src/ppr_index.rs:209-219 | the change of round k is at most 2 d^k |
| PprConvergence.StopsInTime | activation/src/ppr_index.rs:189-219 | a run stops by the first round k with 2 d^k below epsilon |
| PprConvergence.EnoughRoundsSuffice | activation/src/ppr_index.rs:184-184 | the clamp at 0.99 gives one round number that suffices for every graph, for each epsilon |
| PprConvergence.FixedUnique | activation/src/ppr_index.rs:181-207 | from nonnegative weights of at most 1 in all a round has no two fixed points |
| PprConvergence.NearFixed | activation/src/ppr_index.rs:181-222 | the vector after a round is within d/(1-d) times its change of the fixed point |
| PprConvergence.NearLater | activation/src/ppr_index.rs:181-222 | all further rounds together move it no further than that |
| PprConvergence.StoppedRounds | activation/src/ppr_index.rs:189-222 | a stopped iteration ran at most the cap, at most every k with 2 d^k below epsilon, and a number bounded by a positive epsilon alone |
| PprFixedPoint.StepMixes | activation/src/ppr_index.rs:192-207 | a round takes every straight line of vectors to a straight line |
| PprFixedPoint.SolveBelow | activation/src/ppr_index.rs:192-207 | whatever is asked of the later slots, the earlier ones can be chosen so that a round leaves them as they are |
| PprFixedPoint.FixedExists | activation/src/ppr_index.rs:181-207 | a round has a fixed point |
| PprFixedPoint.RoundsApproach | activation/src/ppr_index.rs:181-222 | round k brings the vector to within d^k times the starting distance of the fixed point |
| PprFixedPoint.StoppedAccuracy | activation/src/ppr_index.rs:209-222 | there is exactly one fixed point, and a stopped iteration is within d/(1-d) times its last change of it, so within d/(1-d) epsilon whenever that change is below epsilon, the last allowed round included |
| PprTheorems.PersonalizeMass | activation/src/ppr_index.rs:142-155 | the seed weights sum to one weight per distinct hit |
| PprTheorems.HitsAtLeastDistinct | activation/src/ppr_index.rs:143-155 | hits count repeats: they equal the distinct hits exactly when no node is a seed twice |
| PprTheorems.HeadIsWalk | activation/src/ppr_index.rs:137-157 | a caller's run from seeds is the real iteration on its incidences, damping within [0.01, 0.99], stopped as the code stops |
| PprTheorems.RunMass | activation/src/ppr_index.rs:137-157 | from seeds, returned scores are nonnegative and sum to at most distinct hits over hits; to exactly 1 if and only if no node is listed twice as a seed |
| PprTheorems.RepeatedSeedLosesMass | activation/src/ppr_index.rs:142-155 | a concrete seed list with a repeat whose scores sum to at most one half |
| PprTheorems.RunRounds | activation/src/ppr_index.rs:137-157 | from seeds, rounds run are at most the cap, at most every k with 2 d^k below epsilon, and bounded by epsilon alone when it is positive |
| PprTheorems.RunAccuracy | activation/src/ppr_index.rs:137-157 | from seeds, there is exactly one fixed point and the returned vector is within d/(1-d) times its last change of it; when that change is below epsilon, as before the cap it always is, within d/(1-d) epsilon of it and of every later vector |
| PprWeighted.WeightAt | activation/src/ppr_index.rs:166-173 | a node's slot holds the last weight listed for it, or 0 |
| PprWeighted.WeightsNonneg | activation/src/ppr_index.rs:166-173 | the personalization has no negative entry exactly when no node's last weight is negative |
| PprWeighted.WeightedIsWalk | activation/src/ppr_index.rs:165-179 | a run from weights over a built index is the real iteration from them, stopped as the code stops; not started when no listed node is indexed |
| PprWeighted.WeightedMass | activation/src/ppr_index.rs:165-179 | weights of sum 1 give scores of sum 1; nonnegative weights give nonnegative scores that sum to 1 only then: to no more than the weights when these sum to 1 or less, to no less when to 1 or more |
| PprWeighted.WeightedRounds | activation/src/ppr_index.rs:165-179 | nonnegative weights of at most 1 in all bound the rounds as seeds do |
| PprWeighted.WeightedAccuracy | activation/src/ppr_index.rs:165-179 | and leave the vector as near the one fixed point; with no listed node indexed the vector is the fixed point |
| PprWeighted.WeightTwoGrows | activation/src/ppr_index.rs:165-179 | a concrete weight of 2 whose score is 3.98 after one round |
| PprSupport.StepPositive | activation/src/ppr_index.rs:194-207 | a round scores a slot exactly when it is seeded or some scoring slot sends to it |
| PprSupport.SupportIsBoundedReach | activation/src/ppr_index.rs:182-223 | a node scores above 0 exactly when a path of at most `iterations` positive-weight edges, in the configured direction, leads to it from a seed; earlier slots of a repeated id score 0 |
| PprReorder.OrderIndependent | activation/src/ppr_index.rs:182-223 | permuting edges and seeds, and permuting or repeating node ids, changes neither the round count nor any node's score |
| Plans.ScaleByDegree | activation/src/plan.rs:183-209 | counting degrees for the scored ids only and scaling in place gives each score scaled by its id's degree over all edges |
| Plans.ScoreCandidates | activation/src/plan.rs:525-538 | each candidate once, at its first place, with the last listed score if positive and else zero |
| Plans.RunSignals | activation/src/plan.rs:466-469 | the scores after every signal in the order added, and their names |
| Plans.RunFilters | activation/src/plan.rs:470-476 | what survives every filter in turn, and each filter's own drop count |
| Plans.RunHooks | activation/src/plan.rs:464-487 | signals, filters, sort, cut and synthesis in this order; the names applied, degree specificity first |
| Plans.RunPass | activation/src/plan.rs:447-487 | the vector is paired with the nodes and specialised before the universe is chosen, then the hooks run |
| Plans.Synthesize | activation/src/plan.rs:511-519 | each hook's cells and name are appended, each hook seeing all earlier cells |
| Plans.Execute | activation/src/plan.rs:400-508 | the whole pass: over a matching index its view, and the fresh view over none or a mismatched one; empty, no hook run, without nodes or seeds |
| PlanProps.IndexedIsFresh | activation/src/plan.rs:303-313 | over an index built from the same graph for whatever config, the view is the fresh one |
| PlanProps.IndexedReadsNoEdges | activation/src/lib.rs:193-220 | over a matching index without degree specificity or hooks the edge list is not read: any list gives the answer of the edges indexed |
| PlanProps.FiltersCount | activation/src/plan.rs:470-476 | what is kept and all drop counts add up to what came in |
| PlanProps.ViewCount | activation/src/plan.rs:464-486 | the view holds the universe less the sum of the drop counts, up to `top_k` |
| PlanHooks.KeepPositiveSelects | activation/src/plan.rs:456-459 | the reached universe is exactly the entries above zero, in slot order |
| PlanHooks.FirstOccurrencesSelect | activation/src/plan.rs:525-538 | candidates are taken exactly where they are listed first, in that order |
| PlanHooks.SignalsChain | activation/src/plan.rs:466-469 | each signal is handed what the one before left |
| PlanHooks.FiltersSelect | activation/src/plan.rs:470-476 | what the filters leave is exactly the entries every one of them keeps, in their order |
| PlanHooks.FiltersBag | activation/src/plan.rs:470-476 | an entry stays as often as it came when every filter keeps it, and goes otherwise |
| PlanHooks.FilterDrops | activation/src/plan.rs:470-475 | each filter is reported by name with the number of entries that pass all earlier filters and fail it |
| PlanHooks.SynthsChain | activation/src/plan.rs:511-519 | each hook sees the view with all earlier cells, and its own cells and name are appended |
| PlanHooks.FinishUnrolled | activation/src/plan.rs:464-487 | in every arithmetic the view is the chain of signals, the entries all filters keep, sorted and cut, with the drop counts and the names applied, then the chain of synth hooks |
| PlanHooks.FreshRanksKept | activation/src/plan.rs:400-487 | straight from the graph, what is ranked is in the signalled universe and kept by every filter; with room in `top_k` all of that is ranked as often as it came, and without, nothing left out ranks before anything ranked; empty without nodes or seeds |
| PlanProps.RunIsLegacy | activation/src/plan.rs:649-812 | without hooks, over distinct node ids, a run is the activation before plans, operation for operation |
| PlanViews.RunIsLegacyOverReals | activation/src/plan.rs:649-812 | over the reals it is so for every node list, repeats included |
| PlanRanking.SortRanks | activation/src/plan.rs:540-549 | the sort keeps the bag and gives its one list by score descending, id ascending |
| PlanRanking.CutIsBelow | activation/src/plan.rs:477-478 | no entry cut by `top_k` ranks before one kept |
| PlanViews.UniverseMembers | activation/src/plan.rs:449-461 | the reached universe is each node id once, at its scaled score, where that is positive |
| PlanViews.ScaleMeans | activation/src/plan.rs:201-207 | idf divides a score by one more than the degree, its inverse multiplies it by ln_1p of that, and none leaves it |
| PlanViews.ScaleByDegrees | activation/src/lib.rs:69-78 | a positive score falls with the degree under idf and grows with it under the inverse, when the logarithm grows |
| PlanOrder.DegreeIsTotal | activation/src/plan.rs:191-199 | the degree is the number of edge ends at a node, both ends of a self-loop counting |
| PlanViews.ViewIdsDistinct | activation/src/plan.rs:449-486 | no view lists an id twice, and every view is in rank order, however often node ids or candidates repeat |
| PlanViews.RunRanksReached | activation/src/plan.rs:449-461 | a run ranks exactly the nodes within `iterations` hops of a seed, whatever the degree specificity |
| PlanViews.CandidateIsLookup | activation/src/plan.rs:522-538 | a candidate's score is what the unbounded activation says of it, else zero |
| PlanViews.RankIsLookup | activation/src/plan.rs:315-323 | ranking candidates is looking each first occurrence up in the unbounded activation, then running hooks, sort and cut |
| PlanOrder.ActivationOrderIndependent | activation/src/plan.rs:540-549 | the activation is the same for every listing of nodes, edges and seeds |
| PlanOrder.RankOrderIndependent | activation/src/plan.rs:525-549 | so is the ranking of candidates, in whatever order and however often they are given |
| Covers.MakeCover | bench/sibyl/gen.py:162-170 | axes largest first with ties by place; forbidden are exactly the rows between listed values of two axes |
| Covers.OrderMeans | bench/sibyl/gen.py:164-164 | of two axes the earlier has more values, or as many and the earlier place |
| Covers.ForbiddenMeans | bench/sibyl/gen.py:166-173 | a pair is forbidden exactly when some row gives its two slots in either order and both values are listed |
| Covers.SortAxes | bench/sibyl/gen.py:164-164 | every axis once, each with more values than the next or as many and an earlier place |
| Covers.ForbidRows | bench/sibyl/gen.py:166-169 | forbidden are exactly the pairs of rows whose two values are both listed |
| Covers.ConsistentIsClean | bench/sibyl/gen.py:180-181 | a case is consistent exactly when it holds no forbidden pair |
| Covers.Search | bench/sibyl/gen.py:189-199 | the backtracking search succeeds exactly when its draft has a valid extension, which it then holds; on failure every trial is undone |
| Covers.Completable | bench/sibyl/gen.py:183-201 | true if and only if some full extension holds no forbidden pair |
| Covers.RequiredIsHeldBySome | bench/sibyl/gen.py:203-214 | a pair is required exactly when some valid full case holds it; implied exactly when it is not forbidden and none does |
| CoverBuilds.RequiredPairs | bench/sibyl/gen.py:203-214 | the two sets returned are exactly the required and the implied pairs |
| CoverBuilds.FirstTests | bench/sibyl/gen.py:219-221 | the first tests are exactly the completable cases of the first two axes, in the order of their values, and hold every required pair of the two |
| CoverBuilds.CasesOverAt | bench/sibyl/gen.py:220-221 | the first tests are each completable pair of values once, by the first axis's values and within one of them by the second's |
| CoverBuilds.StrikeHeld | bench/sibyl/gen.py:222-223 | what is left uncovered is exactly what is required and held by no first test |
| CoverBuilds.GrowKeepsSound | bench/sibyl/gen.py:222-253 | growing one test and striking what it holds keeps uncovered exactly the required pairs not yet held, and every test completable |
| CoverBuilds.BestValues | bench/sibyl/gen.py:226-236 | the candidates for the choice are exactly the completable values of greatest gain, and there is one |
| CoverBuilds.GainIsNewlyHeld | bench/sibyl/gen.py:232-239 | the gain of a value is the number of uncovered pairs the test holds with it and not without it |
| CoverBuilds.GrowHorizontally | bench/sibyl/gen.py:226-239 | every test takes a value of greatest gain as seen after the tests before it, keeps what it had, and the books stay exact |
| CoverBuilds.CoverPair | bench/sibyl/gen.py:243-253 | a pair goes to the first test that can take it and stay completable, or to a new one when none can |
| CoverBuilds.CanTakeMeans | bench/sibyl/gen.py:245-247 | a test can take a pair exactly when it does not hold it and some full case without a forbidden pair extends the test and holds it |
| CoverBuilds.GrowVertically | bench/sibyl/gen.py:240-253 | afterwards no uncovered pair ends on this axis |
| CoverBuilds.FillOpenAxes | bench/sibyl/gen.py:254-258 | every don't-care slot can be filled: the choice is never empty and the full case keeps clear of forbidden pairs |
| CoverBuilds.FillAll | bench/sibyl/gen.py:254-258 | every test becomes a valid full case that keeps what it had |
| CoverBuilds.Build | bench/sibyl/gen.py:216-262 | fails only for want of a second axis; every test is a valid full case; the pairs held are exactly the required ones |
| Fnv.Fnv1a | stamp/build.rs:69-74 | the in-place fold computes the fold of the bytes |
| Fnv.FoldSteps | stamp/build.rs:69-74 | from each state to the next a byte is mixed in first, then the product with the prime is cut to 64 bits |
| Fnv.KnownValues | stamp/build.rs:69-74 | the hashes of the empty text and of `a` are the published FNV-1a values |
| Fnv.FoldConcat | stamp/build.rs:424-430 | hashing pieces one by one is hashing their concatenation |
| Fnv.XorUndoes | stamp/build.rs:71-71 | xor with the same byte twice gives the state back |
| Fnv.XorBits | stamp/build.rs:71-71 | a bit of the result is set exactly when it is set in one operand and not in the other |
| Fnv.TimesPrimeInjective | stamp/build.rs:72-72 | wrapping multiplication by the prime never maps two states to one |
| Fnv.FoldInjective | stamp/build.rs:69-74 | for the same further bytes distinct states stay distinct |
| Fnv.OneByteMatters | stamp/build.rs:69-74 | inputs that differ in exactly one byte never hash alike |
| Stamps.ReadStreamReads | stamp/build.rs:424-430 | reading the framed stream gives back exactly the entries framed |
| Stamps.ListingUnique | stamp/build.rs:422-424 | a map has one listing in key order |
| Stamps.FramingIsInjective | stamp/build.rs:422-430 | two maps have the same stream if and only if they are the same map |
| Stamps.ListMap | stamp/build.rs:410-422 | the entries inserted one by one end up in ascending key order, all of the map's and no other |
| Stamps.Stamp | stamp/build.rs:409-432 | feeding every key, NUL, length and content in key order gives the hash of the whole stream |
| Stamps.StampUnique | stamp/build.rs:409-432 | the inputs have one stamp, whatever order files are read in |
| StampInputs.StampReads | stamp/build.rs:409-432 | a stamp hashes, from the standard offset, a stream that reads back as exactly one entry per file, without its CRs, and under `Cargo.lock` the closure text as it is, in key order |
| StampInputs.StreamsTellInputsApart | stamp/build.rs:419-421 | inputs with one stream have the same closure and, but for CRs, the same files other than the lock's |
| StampInputs.OneByteOfTheLockMovesTheStamp | stamp/build.rs:51-57 | closures that differ in exactly one byte, CR or not, never have one stamp over the same files |
| StampInputs.StripCrSelects | stamp/build.rs:415-416 | a file is hashed as exactly its bytes other than CR, in order |
| StampInputs.LittleEndianAt | stamp/build.rs:428-428 | byte i of a framed length counts 256^i |
| StampInputs.FrameOfOne | stamp/build.rs:424-430 | the frame of key `a` with content `b`, byte for byte |
| Stamps.OneByteMovesTheStamp | stamp/build.rs:409-432 | changing one byte of one hashed file to another, neither a CR, always changes the stamp |
| Stamps.CrNeverMovesTheStamp | stamp/build.rs:415-416 | inserting a CR anywhere in a file keeps the stamp |
| Locks.ResolvesToTheOnly | stamp/build.rs:270-301 | an entry resolves to a package exactly when it parses and that is the only package it names |
| Locks.ParsesWhatIsSpelled | stamp/build.rs:268-280 | an entry parses to a name, a version and a source exactly when it spells them: name, name and version, or name, version and source in parentheses |
| Locks.ResolvesAsSpelled | stamp/build.rs:270-301 | what is spelled resolves to a package exactly when that is the only one with the name, and the version and source if given; what spells nothing does not resolve |
| Locks.PicksTheOnly | stamp/build.rs:320-342 | a seed picks the only package of its name, else the only one of its name without a source |
| LockClosures.PushSeeds | stamp/build.rs:319-342 | fails exactly when some seed is not one package; else the stack holds exactly the seeds' packages |
| LockClosures.ResolveAll | stamp/build.rs:350-355 | one package's entries all resolve or the run fails; the targets are exactly what it needs, in entry order |
| LockClosures.DoneIsClosure | stamp/build.rs:343-364 | an empty worklist means the seen packages are exactly the reachable ones |
| LockClosures.LockClosure | stamp/build.rs:317-369 | ends on cyclic graphs; succeeds exactly when every seed is one package and every reachable package's entries resolve; its text is made of exactly the reachable packages' lines, sorted |
| LockPackaging.ReachCarried | stamp/build.rs:343-364 | if one lock's closure is carried into another, what the second reaches is exactly the image of what the first reaches |
| LockPackaging.TextCarried | stamp/build.rs:311-369 | a carried closure closes too, with the same text |
| LockPackaging.RepackagingKeepsText | stamp/build.rs:311-316 | reordering packages and seeds, or dropping packages outside the closure, keeps the text |
| LockPackaging.RespellingKeepsText | stamp/build.rs:311-316 | respelling or reordering dependency entries that resolve to the same packages keeps the text |
| LockPackaging.TextUnique | stamp/build.rs:365-368 | a closure has one text, in whatever order the worklist meets the packages |
| Bytes.LessMeans | stamp/build.rs:356-365 | texts are ordered by the first byte that differs, a beginning before what it begins |
| LockTexts.TargetsSelect | stamp/build.rs:351-355 | a package's targets are what its entries that resolve resolve to, in entry order |
| LockTexts.TextReads | stamp/build.rs:357-368 | read back, the text gives one record per reached package and no other: name, version, source, checksum and the bag of names and versions its entries resolve to; asks that no field shown holds a newline or a space, no name or version a comma, and no source or checksum is a dash |
| LockTexts.LinesAscend | stamp/build.rs:365-366 | the lines of a text stand in ascending order |
| LockTexts.TextShowsClosure | stamp/build.rs:317-369 | two closures with one text hold the same bag of records |
| LockTexts.ReachedIsAlone | stamp/build.rs:281-300 | no other package has the name, version and source of a reached one |
| LockTexts.ChangeMovesText | stamp/build.rs:51-57 | changing the version, the checksum or anything else a record shows of one reached package changes the text, whatever that makes of the rest of the closure |
| LockTexts.DashHidesSource | stamp/build.rs:360-361 | a concrete pair of packages that one line cannot tell apart, a source spelled as the dash |
| LockAdding.ResolvesAmong | stamp/build.rs:281-300 | with packages added, an entry goes on resolving as it did if it names none of them, and resolves to none if it names one |
| LockAdding.PicksAmong | stamp/build.rs:320-342 | a seed goes on picking its package when every added one of its name has a source and its own has none |
| LockAdding.AddingKeepsText | stamp/build.rs:315-316 | packages added leave a closing lock closing if and only if no entry of a reached package names one of them, and are then never read into its text |
| LockAdding.SecondVersionStopsClosing | stamp/build.rs:281-300 | a concrete lock that stops closing when a second version makes a short entry ambiguous |
| Passes.OrderIsStages | activation/src/passes.rs:128-134 | the run order is the three stages one after the other, each as declared |
| Passes.OrderIsStableSort | activation/src/passes.rs:130-134 | the run order is a permutation sorted by stage that keeps the declaration order within every stage |
| Passes.AppendRunsLastInStage | activation/src/passes.rs:130-134 | an appended pass runs last in its stage and nothing else moves |
| Passes.ValidateOne | activation/src/passes.rs:142-171 | of one pass exactly these are reported: an empty name, a name run before, and every dependency that is unknown, itself, or first run later |
| Passes.ValidateDependency | activation/src/passes.rs:155-170 | one `after` name is judged by the first pass of that name in run order: none, this pass, a later one, or an earlier one, which is no problem |
| Passes.Validate | activation/src/passes.rs:136-177 | every problem of every pass is reported and nothing else; none exactly when every name is non-empty and unique and every dependency runs strictly earlier |
| Passes.ChainsGoBack | activation/src/passes.rs:136-177 | in a clean registry every chain of dependencies runs backward through the order |
| Passes.NoCycles | activation/src/passes.rs:136-177 | so no pass depends on itself, directly or not |
| Passes.Run | activation/src/passes.rs:182-198 | there are graphs from the first to the last, each made by the next pass of the run order from the one before, and the last is returned; names, counts and times are reported as run |
| Passes.StageTimeMoves | activation/src/passes.rs:187-190 | a pass's time counts once in the time of its own stage and in no other |
| Passes.NoTimeNoStageTime | activation/src/passes.rs:187-190 | and nothing else counts |
| Passes.OfStageSelects | activation/src/passes.rs:191-195 | the passes of a stage are exactly those declared with it, in the order declared |
| Passes.RunsAfterDependencies | activation/src/passes.rs:182-198 | in a clean registry a pass runs after all its dependencies, and its name runs once |
| Passes.CountsAddUp | activation/src/passes.rs:191-195 | the stage counts sum to the number of passes |
| Passes.Slowest | activation/src/passes.rs:237-245 | none took longer than the one returned, and every earlier one took less; none only without passes |
| Profiles.SinkIsFirst | activation/src/profile.rs:459-468 | the lookup gives the first sink in table order that lists the kind and the category, with its place |
| Profiles.FindShared | activation/src/profile.rs:577-582 | a shared pair is found exactly when the two sinks overlap, and both match it |
| Profiles.CheckKinds | activation/src/profile.rs:494-506 | reported are exactly the unregistered kinds listed and the kinds listed twice |
| Profiles.CheckCategories | activation/src/profile.rs:529-548 | reported are exactly the unregistered categories listed and the categories listed twice |
| Profiles.CheckOverlaps | activation/src/profile.rs:576-589 | reported are exactly the earlier sinks that share a kind and category with this one |
| Profiles.CheckSink | activation/src/profile.rs:554-589 | every problem of one sink is reported and nothing else |
| Profiles.ValidateSinks | activation/src/profile.rs:554-590 | every problem of every sink is reported and nothing else; none exactly when classes are non-empty and distinct, lists are non-empty, registered and without repeats, and no two sinks overlap |
| Profiles.OrderFreeIffOneSinkEach | activation/src/profile.rs:456-468 | the lookup gives the same sink under every order of the table exactly when no two different sinks overlap |
| Profiles.CleanTableOrderFree | activation/src/profile.rs:476-478 | a validated table may be listed in any order |
| Profiles.AnyNamed | activation/src/profile.rs:210-221 | some row matches kind, name and extension; the file is read once if the first matching row is limited to some extensions, else not at all |
| Profiles.EntryMeans | activation/src/profile.rs:161-168 | a node is an entry exactly when it has one of the roles, is of one of the kinds, or some row lists its kind, lists or begins its name, and lists no extension or its file's |
| Profiles.CaseMeans | activation/src/profile.rs:151-158 | extensions are equal when they agree at every place up to the case of the letters A to Z |
| Profiles.IsEntryAt | activation/src/profile.rs:194-222 | the lazy form answers as with the extension at hand and reads the file at most once, exactly when roles and kinds do not decide and the first matching row is limited to some extensions |
| TreeSplits.GroupHeads | bench/agent-ab/run.py:937-940 | the excludes grouped by first component, each group in order, and no empty group |
| TreeSplits.TreeWithout | bench/agent-ab/run.py:932-959 | memoised or not, the answer is the pruned tree; the answer is kept and every kept answer stays right, under any order of the excludes |
| TreeSplits.PruneReadsASet | bench/agent-ab/run.py:934-940 | pruning reads the excludes as a set, so keying the memo by their sorted list is right |
| TreeSplits.PruneIsExact | bench/agent-ab/run.py:932-959 | the files of the result are exactly the original's not at or under an excluded path |
| TreeSplits.PruneIsIn | bench/agent-ab/run.py:941-957 | pruning only leaves entries out, at any depth: names, files and order stay |
| TreeSplits.ExactWhenNoFileAtPrefix | bench/agent-ab/run.py:932-959 | they are the files not under one exactly when no file sits at an excluded path without lying under another |
| TreeParts.PruneNoEmpty | bench/agent-ab/run.py:951-954 | no emptied subtree is left behind |
| TreeParts.NoneWhenNoFileRemains | bench/agent-ab/run.py:956-957 | nothing is returned exactly when no file remains |
| TreeParts.PartOfIsLongest | bench/agent-ab/run.py:801-806 | the part chosen lies over the path, every prefix over the path begins its own, and of several with that prefix it is the first by name; the rest part exactly when none lies over it |
| TreeParts.SubtreeFiles | bench/agent-ab/run.py:965-968 | a part's tree holds the files under its prefix, at their paths inside it |
| TreeParts.PartsPartition | bench/agent-ab/run.py:962-970 | the part trees share the files out as `part_of` says exactly when no file lies under two prefixes and none sits at a prefix without lying under another |
| TreeParts.NotNestedPartition | bench/agent-ab/run.py:962-970 | with prefixes that do not nest the part trees share the files out exactly when no file sits exactly at a prefix |
| TreeParts.FileAtPrefixIsLost | bench/agent-ab/run.py:947-950 | a concrete file at a part prefix, which `part_of` gives to the rest part and which is in no part tree |
| TreeParts.NestedPartsShare | bench/agent-ab/run.py:962-970 | a concrete file under two nested prefixes, which is in both part trees |
| TreeParts.EveryFileInOnePart | bench/agent-ab/run.py:801-806 | shared out, every file sits in exactly one part tree, at the one place `part_of` names |

## Left out

- Rounding, NaN, infinities and underflow of 64-bit floats: the order of operations is proved for
  every number type, everything analytic for the reals only.
- PprRuns.CheckMatches: bit patterns are compared as identity of the abstract numbers.
- PprWeighted.WeightedRounds and PprWeighted.WeightedAccuracy: ask for nonnegative weights of at
  most 1 in all; beyond that the scores can grow from round to round, as `WeightTwoGrows` shows.
- The logarithm of the degree: any function that is positive from 1 on.
- PlanRanking.SortRanks: sorting with incomparable scores; over the abstract numbers the sort is the
  stable insertion sort with the source's comparison.
- PlanProps.ViewCount: asks that a signal keep the number of entries, which the source's mutable
  slice forces.
- PlanViews.ViewIdsDistinct: asks that a signal change scores only; a signal that rewrites ids can
  repeat them. Hooks are functions of the graph and what they are handed; hooks with effects of
  their own are not modelled.
- Debug markers, mismatch messages and `Display` text.
- CoverBuilds.GrowVertically: takes the uncovered pairs of an axis in an arbitrary order, where the
  source sorts them; the result holds for every order.
- The random generator and its seed: every choice is an arbitrary element of the list chosen from.
  Tests and drafts are values in lists that the methods reassign, but for the search's draft.
- File walking, read errors, manifests and the lock's TOML text: the model starts from parsed
  packages and a key-to-bytes map.
- Stamps.FramingIsInjective: asks for keys without NUL and lengths below 2^64, as the framing does.
- StampInputs.StampReads: asks for the same of the files and the closure.
- LockTexts.TextReads: the text quotes nothing, so a field with a space, a newline, a comma in a name
  or version, or spelled as the dash can read as something else (`DashHidesSource`); locks written
  by the package manager hold none.
- Error wording, in which order errors are listed, and the pair named in an overlap's message.
- The clock of a pass run: the times taken are an input of `Run`. The graph a pass mutates is a
  value handed from pass to pass. `populates` is not read by the code modelled.
- The rest of `DomainTables::validate`: unique names, registered ids and finite weights, one branch
  each.
- Git itself: a tree stands for its own hash, a path is its list of components, file modes are part
  of a file's content, and a prefix is not the bare slash, which names no path.
- `ws_path`, the split history and its commits, the session drivers and the scorers.
- The builders of plans, the accessors of views and indexes, and the activation presets.
