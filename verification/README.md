# Verified model of Cobre's placement, loading and collective arithmetic

Cobre loads a power-system study, normalises its policy graph, places its worker threads on
CPUs and exchanges results between ranks. This project models the parts of that work in which
a mistake would be silent, and proves what the rest of the system relies on.

| file | models |
|---|---|
| `Ordering.dfy`, `Collections.dfy`, `IndexGroups.dfy` | the library sorts, `BTreeSet` and `BTreeMap<K, Vec<V>>`, and grouping of positions by key |
| `Interleave.dfy`, `Division.dfy` | column-by-column interleaving of rows and its fairness; quotients and remainders |
| `Topology.dfy` | `CpuTopology::new` |
| `Placement.dfy`, `PlacementPositions.dfy`, `CoreFairness.dfy`, `NumaFairness.dfy`, `WorkerPlan.dfy` | the two placement orders, position by position, their guarantees, and cyclic assignment |
| `Binding.dfy`, `PoolPlacement.dfy` | the worker-start hooks and the write-once failure cell they share; where the threads of a verified pool run |
| `RankList.dfy`, `CpuList.dfy` | compression of rank lists; the kernel's CPU-list format ("List format" in section FORMATS of cpuset(7)) |
| `Weights.dfy`, `Rounding.dfy`, `RoundoffBounds.dfy`, `Reals.dfy` | compensated scaling of weights, exactly and with every operation rounded; sums, magnitudes and signs of real numbers |
| `PolicyGraph.dfy`, `CanonicalOrder.dfy`, `PathMeasure.dfy`, `RoundedWalks.dfy` | in-place normalisation of the policy graph, its independence of declaration order, and what walks rely on, exactly and rounded |
| `Stages.dfy` | stage and block identities and the stage-id resolver |
| `Floats.dfy`, `WindowedHistory.dfy`, `InitialConditions.dfy`, `PostStudyStages.dfy` | windowed records and the loaders that promise declaration-order invariance |
| `Partition.dfy` | rank counts, displacements and the gather (section 6.7, Gather-to-all, of MPI 4.0) |
| `DigestFraming.dfy` | the byte stream that the benchmark script hashes |

Code that works by updating variables is modelled by methods with loops, proved equal to a
specification function or to a declarative condition; code made of expressions is modelled by
functions. The unstable library sort is a method of which callers know only that it returns a
sorted rearrangement, so what is proved holds for any such sort.

Three kinds of arithmetic are used for weights. `Weights.Arithmetic` leaves every operation
uninterpreted, so what is proved over it holds for machine floating point too: the in-place
method, the error it names, and independence of declaration order. Over exact arithmetic with
one non-finite value, sums are exactly one and mass is conserved. In between, every operation
rounds:

- whatever the running sum is rounded to, exact residuals make up for it
  (`ExactResidualsLoseNothing`);
- where rounding obeys the fast two-sum law, as even an arithmetic that drops whole operands
  can (`AbsorbingIsCorrectlyRounded`), the branch the code takes makes every residual exact
  (`ResidualIsExact`);
- with a unit roundoff u on top (`Accurate`), the compensated sum is exact up to second order,
  normalised weights of one sign sum to one within 2 u up to second order, and walks deviate
  by no more than that per step (`NormalisedNearOne`, `RoundedWalkMass`).

Where code and documentation differ, or a promise has a condition:

- The error text of an unscalable weight vector asks for a positive sum; the code refuses only
  a zero or a non-finite one. The semantic checks before it
  (`crates/cobre-io/src/validation/semantic/stages.rs`, lines 55-72) keep sums away from one out,
  so what does reach it is a negative weight in a unit sum (`NegativeWeightSurvives`). Walks are
  then no longer probabilities; they all are if and only if no source mixes signs
  (`WalksAreDistributionsExactly`).
- Weights are documented to sum to one up to the last place after scaling. With mixed signs they
  need not: the excess grows with the sum of the magnitudes. Rounded divisions alone keep the
  sum within u of one if and only if no two weights differ in sign (`WithinRoundingExactly`).
- Canonical order makes the final probabilities of a source independent of declaration order,
  whatever the arithmetic, if and only if its parallel edges carry equal weights
  (`OrderIndependentExactly`).
- A hook that has failed but has not recorded it yet is invisible to `verify`
  (`PendingFailureIsInvisible`). The verdict is the truth about all started hooks if and only if
  it is a failure or all of them have finished (`VerdictExactly`). The callers see to the latter
  by a `broadcast` to the whole pool before they ask (`crates/cobre-cli/src/commands/run/setup.rs`,
  line 359; `crates/cobre-python/src/run.rs`, line 267).
- Which of several failures is reported depends on the schedule unless they are all equal
  (`ReportIndependentExactly`).
- The comparisons `value < 0.0`, `hours <= 0.0` and their like would let a NaN pass, and the model
  keeps that; JSON has no NaN, so none arrives through the loaders.

## Model

| member | source | states |
|---|---|---|
| Topology.New | crates/cobre-comm/src/affinity.rs:131-217 | whatever order the unstable sorts leave equal keys in, the constructor returns the one normalised topology or the one refusal |
| Topology.SortDedup | crates/cobre-comm/src/affinity.rs:169-170 | sorting and deduplicating a CPU list gives the ascending enumeration of its set |
| Topology.AcceptsExactlyConsistent | crates/cobre-comm/src/affinity.rs:131-209 | accepted if and only if non-empty, identifiers unique, online count large enough, node CPUs visible, no CPU in two nodes, every reported node lists its CPU |
| Topology.RefusalIsJustified | crates/cobre-comm/src/affinity.rs:131-209 | the refusal is about the first check that fails: counts and repeats first, then the lowest node and in it the lowest hidden CPU, else the lowest shared one with the node that has it, then the lowest misplaced unit |
| Topology.AcceptedIsCanonical | crates/cobre-comm/src/affinity.rs:119-120 | units ascend by CPU, nodes by identifier, node CPUs ascend without repeats; no unit, node, node CPU or memory size is lost, and normalising again changes nothing |
| Topology.EnumerationOrderIsDiscarded | crates/cobre-comm/src/affinity.rs:119-120 | two enumerations of the same machine give the same topology or the same refusal |
| Placement.PushColumn | crates/cobre-comm/src/affinity.rs:568-572 | one pass over the rows appends the entries that rows of sufficient length have at that index, in row order |
| Placement.SplitPhysicalAndSmt | crates/cobre-comm/src/affinity.rs:552-575 | returns the first sibling of every core and the remaining siblings level by level |
| Placement.PhysicalFirstOrder | crates/cobre-comm/src/affinity.rs:577-581 | returns the core-first order |
| Placement.RoundRobinMerge | crates/cobre-comm/src/affinity.rs:605-616 | returns the interleaving of the groups |
| Placement.NumaSpreadOrder | crates/cobre-comm/src/affinity.rs:583-603 | returns the spread first siblings followed by the spread later siblings |
| Interleave.RoundRobinPermutes | crates/cobre-comm/src/affinity.rs:605-616 | an interleaving is a permutation of its rows' contents |
| Interleave.RestrictRoundRobin | crates/cobre-comm/src/affinity.rs:605-616 | an interleaving keeps the order of every row |
| Interleave.PrefixFairness | crates/cobre-comm/src/affinity.rs:605-616 | in every prefix no row is ahead of another by more than one entry unless the other is used up |
| PlacementPositions.CoreOrderAscends | crates/cobre-comm/src/affinity.rs:552-581 | in terms of unit fields: the core-first order ascends in the number of lower siblings on the same core, then package, then core; with `CoreOrderPermutes` this determines it |
| PlacementPositions.NumaOrderAscends | crates/cobre-comm/src/affinity.rs:583-616 | the NUMA order lists the lowest sibling of each core within its node first, and in either phase ascends in the place among the node's own CPUs, then the node, CPUs without a node first |
| CoreFairness.CoreOrderPermutes | crates/cobre-comm/src/affinity.rs:552-581 | for every unit list the core-first order is a permutation of its CPUs |
| CoreFairness.CoreOrderIsFair | crates/cobre-comm/src/affinity.rs:552-581 | in every prefix no core carries more than one CPU above another unless all CPUs of the other are in use |
| CoreFairness.PhysicalCoresFirst | crates/cobre-comm/src/affinity.rs:262-268 | the first `physical_cores` entries use every core exactly once |
| NumaFairness.PhysicalIsLeast | crates/cobre-comm/src/affinity.rs:560-564 | the physical part holds exactly the lowest CPU of every core |
| NumaFairness.NumaOrderPermutes | crates/cobre-comm/src/affinity.rs:583-603 | for every unit list the NUMA order is a permutation of its CPUs |
| NumaFairness.NumaKeepsNodeOrder | crates/cobre-comm/src/affinity.rs:583-603 | restricted to one declared node the NUMA order is the core-first order of that node's units |
| NumaFairness.FirstSiblingsFirst | crates/cobre-comm/src/affinity.rs:600-602 | an entry is the lowest CPU of its core within its node if and only if it lies in the physical phase |
| NumaFairness.NumaOrderIsFair | crates/cobre-comm/src/affinity.rs:583-603 | in every prefix of the physical phase no node is ahead of another by more than one CPU unless the other's first siblings are all in use |
| NumaFairness.LaterSiblingsAreFair | crates/cobre-comm/src/affinity.rs:583-603 | after the physical phase the same holds of the later siblings handed out so far |
| WorkerPlan.CycleIsEven | crates/cobre-comm/src/affinity.rs:549 | the CPU at position p serves w / n workers, and one more exactly if p is below w mod n |
| WorkerPlan.CycleSpacing | crates/cobre-comm/src/affinity.rs:549 | two workers on one CPU are at least n workers apart |
| WorkerPlan.OrderListsVisible | crates/cobre-comm/src/affinity.rs:542-548 | on an accepted topology either order lists every visible CPU exactly once |
| WorkerPlan.PlanIsEven | crates/cobre-comm/src/affinity.rs:542-550 | a binding plan gives every worker a visible CPU, and every visible CPU floor(w/n) or ceil(w/n) workers |
| WorkerPlan.CycleLoad | crates/cobre-comm/src/affinity.rs:549 | a set of CPUs carries its full size once per completed cycle, plus what the started cycle has reached of it |
| WorkerPlan.CorePlanIsFair | crates/cobre-comm/src/affinity.rs:542-581 | for any number of workers a core carries its size once per completed cycle plus an excess, and its excess is more than one above another core's only if the started cycle has reached every CPU of the other |
| WorkerPlan.NumaPlanIsFair | crates/cobre-comm/src/affinity.rs:542-603 | the same for nodes and in each phase: among the first siblings, and then among the later ones, that the started cycle has taken, a node has more than one above another only if the other's are all taken |
| WorkerPlan.PlanForgetsEnumeration | crates/cobre-comm/src/affinity.rs:542-550 | enumerations of the same machine give the same plan, or the same refusal, for every policy and worker count |
| Binding.WorkerAffinity.FromTopology | crates/cobre-comm/src/affinity.rs:414-445 | fails exactly for zero workers; otherwise a fresh empty failure cell, no CPUs under policy none, and under a binding policy entry w mod n of the order for worker w |
| Binding.OnceCell.Set | crates/cobre-comm/src/affinity.rs:336 | the first value stays |
| Binding.WorkerAffinity.BindWorker | crates/cobre-comm/src/affinity.rs:451-464 | an earlier failure stays; otherwise the cell is set exactly if the worker has no mapping under a binding policy, its CPU does not fit the native mask, or the system refuses it, and says which |
| Binding.StartPool | crates/cobre-cli/src/commands/run/setup.rs:353-362 | when the hooks run one after the other on a clone, the verdict read from the original is success exactly when every worker with a CPU was granted it and the others belong to an unbound pool; else it is the failure of the first that was not |
| Binding.CellHoldsEarliest | crates/cobre-comm/src/affinity.rs:451-464 | in every interleaving the cell holds the earliest recorded failure |
| Binding.CellIsSetOnce | crates/cobre-comm/src/affinity.rs:451-464 | once set, the cell never changes, however the run continues |
| Binding.ReportedFailureWasMet | crates/cobre-comm/src/affinity.rs:451-464 | a reported failure was met by a hook that was started |
| Binding.VerifyIsSound | crates/cobre-comm/src/affinity.rs:472-479 | at any point of any run `verify` succeeds exactly when no finished hook failed, and then under a binding policy each of them is pinned to its planned CPU |
| Binding.PinnedWasGranted | crates/cobre-comm/src/affinity.rs:451-464 | at any point of any run a pinned thread had asked for the planned CPU of its worker, the CPU fits the native mask, and the system granted it |
| Binding.VerdictExactly | crates/cobre-comm/src/affinity.rs:472-479 | at any point of any run the verdict is the truth about all hooks started so far if and only if it is a failure or all of them have finished |
| Binding.PendingFailureIsInvisible | crates/cobre-comm/src/affinity.rs:461-463 | one hook has been refused its CPU and has not recorded it: `verify` would succeed |
| Binding.VerdictIsOutcome | crates/cobre-comm/src/affinity.rs:472-479 | once all hooks have finished, `verify` succeeds exactly when every attempt asked for a CPU below 1024 and was granted it, or had no CPU under policy none |
| Binding.VerdictForgetsSchedule | crates/cobre-comm/src/affinity.rs:472-479 | complete schedules of the same attempts agree on the verdict |
| Binding.FailureCanBeFirst | crates/cobre-comm/src/affinity.rs:461-463 | any failure that some hook met is the one reported by some complete schedule of the same attempts |
| Binding.ReportIndependentExactly | crates/cobre-comm/src/affinity.rs:461-463 | all complete schedules of the same attempts report the same failure if and only if no two hooks met different ones |
| Binding.UnboundPoolIsFree | crates/cobre-comm/src/affinity.rs:414-464 | under policy none, on any topology and at any point of any run, no thread is pinned and no failure is recorded |
| PoolPlacement.EveryHookHasMapping | crates/cobre-comm/src/affinity.rs:451-459 | in a pool on an accepted topology no hook is ever without a planned CPU |
| PoolPlacement.VerifiedPoolIsPinned | crates/cobre-comm/src/affinity.rs:414-479 | on an accepted topology, when all hooks have finished and `verify` succeeds, every thread is pinned to a visible CPU that fits the native mask |
| PoolPlacement.VerifiedPoolIsEven | crates/cobre-comm/src/affinity.rs:414-479 | with one thread per worker, each visible CPU then runs floor(w/n) or ceil(w/n) of the threads and no other CPU runs any |
| CpuList.ParseCpuList | crates/cobre-comm/src/affinity.rs:911-937 | the loop over the items gives the specified list or refusal |
| CpuList.ItemGrammar | crates/cobre-comm/src/affinity.rs:914-931 | an item is accepted with bounds a and b if and only if it is written `a` (b = a) or `a-b` with a <= b, both in range of the machine word |
| CpuList.ReadExactly | crates/cobre-comm/src/affinity.rs:911-937 | for a value that lists the items between any white space: accepted if and only if every non-empty item is in the grammar and there is one; the result ascends strictly and is the union of the ranges |
| CpuList.RefusesFirstFault | crates/cobre-comm/src/affinity.rs:914-935 | a refusal is the empty list if no item has a character, and otherwise about the first item outside the grammar and the first thing wrong with it: the start, the end, or a third bound or an end below the start |
| CpuList.ReadsBackRuns | crates/cobre-comm/src/affinity.rs:911-937 | runs written in any order, with any of the 25 white-space characters around them, are read as the set they cover |
| CpuList.KernelLine | crates/cobre-comm/src/affinity.rs:900-913 | in particular with the newline the kernel ends the line with |
| CpuList.BlankIsEmpty | crates/cobre-comm/src/affinity.rs:933-935 | white space only is refused as an empty list |
| CpuList.ReadsSample | crates/cobre-comm/src/affinity.rs:944-949 | the sample of the unit test is read as that test expects |
| CpuList.SetRoundTrip | crates/cobre-comm/src/affinity.rs:911-937 | writing a non-empty set as maximal runs and reading it back is the identity |
| RankList.FormatRankList | crates/cobre-cli/src/summary.rs:47-74 | the loop computes the runs of the list |
| RankList.RunsExpandBack | crates/cobre-cli/src/summary.rs:32-46 | expanding the runs gives back the list, for every list |
| RankList.RunsAreMaximal | crates/cobre-cli/src/summary.rs:32-46 | no two neighbouring runs can be merged |
| RankList.RunsAreShortest | crates/cobre-cli/src/summary.rs:32-46 | the runs are the unique shortest way to write the list as segments |
| Weights.NormalizeWeights | crates/cobre-io/src/stages.rs:851-875 | for any arithmetic: the slice is scaled by its compensated total, or left alone with the reason why it cannot be |
| Rounding.ExactResidualsLoseNothing | crates/cobre-io/src/stages.rs:854-863 | over the reals, whatever value the running sum is rounded to in each round, with the residual taken by the branch on magnitude running sum plus compensation is the exact sum |
| Rounding.AnyRoundingIsCompensated | crates/cobre-io/src/stages.rs:854-863 | if each compensation update errs by at most e, n weights are summed to within n * e, however the running sum was rounded |
| Rounding.ResidualIsExact | crates/cobre-io/src/stages.rs:854-863 | in correctly rounded arithmetic, choosing the branch by magnitude makes each round's residual exactly what the running sum lost |
| Rounding.SumsAreRounds | crates/cobre-io/src/stages.rs:854-863 | in correctly rounded arithmetic the loop is such a sequence of rounds: its only errors are those of adding each exact loss to the compensation |
| Rounding.NeumaierBound | crates/cobre-io/src/stages.rs:851-866 | in correctly rounded arithmetic, if adding each loss to the compensation errs by at most e, sum plus compensation is within n * e of the exact sum |
| RoundoffBounds.CompensatedSumWithin | crates/cobre-io/src/stages.rs:851-866 | with unit roundoff u, sum plus compensation of n weights of any sign misses their sum by at most n^2 u^2 (1 + u)^n times the sum of their magnitudes: the first-order errors of the running sum are gone |
| RoundoffBounds.TotalWithin | crates/cobre-io/src/stages.rs:864 | the total misses the sum by one rounding more |
| Rounding.ScaledNearOne | crates/cobre-io/src/stages.rs:851-875 | for weights of any sign, the distance of the scaled sum from one, times the magnitude of the total, is at most n * e + f + u times the sum of the magnitudes |
| Rounding.ScaledNearOneNonNegative | crates/cobre-io/src/stages.rs:851-875 | for non-negative weights, u times the sum |
| RoundoffBounds.ScaledNearOneByWeights | crates/cobre-io/src/stages.rs:851-875 | the same with e and f derived from the unit roundoff |
| Rounding.WithinRoundingExactly | crates/cobre-io/src/stages.rs:839-841 | rounded divisions keep the scaled sum within u of one, however they round, if and only if no two weights differ in sign |
| RoundoffBounds.NormalisedNearOne | crates/cobre-io/src/stages.rs:839-841 | n weights of one sign and non-zero total are scaled to a sum within Deviation(n, u) of one, with every operation rounded |
| RoundoffBounds.DeviationIsTwoRoundings | crates/cobre-io/src/stages.rs:839-841 | that is below 2.1 u, where 2 u is one unit in the last place of 1.0, as long as the second-order loss is below a hundredth of u |
| Weights.ScalesToOne | crates/cobre-io/src/stages.rs:839-850 | over exact arithmetic: refused as non-finite exactly when some weight is, as zero exactly when they cancel, else scaled to sum to one |
| Weights.ScalingIsIdempotent | crates/cobre-io/src/stages.rs:2618-2641 | scaling a scaled vector changes nothing |
| Weights.SignsAfterScaling | crates/cobre-io/src/stages.rs:918-922 | scaled weights are non-negative if and only if no two weights differ in sign |
| Weights.NegativeWeightSurvives | crates/cobre-io/src/stages.rs:864-873 | the weights 2 and -1 sum to one, are accepted and stay as they are |
| PolicyGraph.NormalizeOutEdges | crates/cobre-io/src/stages.rs:890-910 | for any arithmetic: every edge gets its weight over its source's canonical total, or the smallest unscalable source is named and exactly the sources below it are written; nothing else changes |
| PolicyGraph.NormalizeSource | crates/cobre-io/src/stages.rs:898-907 | one source: its edges are scaled and written once, all others untouched; on failure nothing is written |
| PolicyGraph.WriteBack | crates/cobre-io/src/stages.rs:905-907 | weight k goes to edge k, in its probability only |
| PolicyGraph.EdgeOrderWeights | crates/cobre-io/src/stages.rs:899-903 | sorting positions by target and reading off probabilities is the same as sorting the edges |
| CanonicalOrder.WeightsForgetOrder | crates/cobre-io/src/stages.rs:877-880 | as far as parallel edges agree, declaration order does not reach the weight vector of a source |
| CanonicalOrder.NormalisationForgetsOrder | crates/cobre-io/src/stages.rs:2550-2556 | for any arithmetic and parallel edges that agree: rearranging the declaration changes no edge's probability and no refusal |
| CanonicalOrder.SimpleGraphForgetsOrder | crates/cobre-io/src/stages.rs:877-880 | in particular if no source has two edges to one target |
| CanonicalOrder.ParallelEdgesMatter | crates/cobre-io/src/stages.rs:899 | two parallel edges with different weights: a rearrangement that changes the weight vector |
| CanonicalOrder.RecogniserTells | crates/cobre-io/src/stages.rs:854-864 | an arithmetic under which a list of weights has a different total from every other list of its length |
| CanonicalOrder.OrderIndependentExactly | crates/cobre-io/src/stages.rs:877-880 | the final probabilities of a source's edges are independent of declaration order under every arithmetic if and only if its parallel edges agree |
| PathMeasure.NormalisedIsStochastic | crates/cobre-io/src/stages.rs:877-880 | after success every source's out-edges sum to exactly one |
| PathMeasure.NormalisingTwice | crates/cobre-io/src/stages.rs:2618-2641 | a second normalisation is never refused and changes no edge |
| PathMeasure.ConservedExactlyIfStochastic | crates/cobre-io/src/stages.rs:2578-2606 | a step conserves mass from every distribution if and only if every source's out-edges sum to one |
| PathMeasure.MassIsConserved | crates/cobre-io/src/stages.rs:2578-2606 | after success the mass of all k-step walks from any node is exactly one, for every k |
| PathMeasure.WalksAreDistributionsExactly | crates/cobre-io/src/stages.rs:2578-2606 | after success all walks from all nodes are probability distributions if and only if no source mixes weights of different signs |
| PathMeasure.WalkMassBound | crates/cobre-io/src/stages.rs:2574-2606 | if every source's non-negative out-edges sum to one only within eps, the mass of all k-step walks lies between (1 - eps)^k and (1 + eps)^k |
| RoundedWalks.SourceNearOne | crates/cobre-io/src/stages.rs:876-910 | with every operation rounded, after success the out-edges of a source whose weights have one sign are non-negative and sum to one within its deviation |
| RoundedWalks.RoundedWalkMass | crates/cobre-io/src/stages.rs:2574-2606 | so on such a graph the mass of all k-step walks from any node lies between (1 - eps)^k and (1 + eps)^k, eps being the largest deviation of a source, and no share is negative |
| Stages.ValidateRawStages | crates/cobre-io/src/stages.rs:498-517 | accepts exactly files with a discount rate that is not negative, unique and non-colliding ids, and stages with acceptable openings, blocks and risk measure; a refusal is about the first entry and the first of its checks that fails |
| Stages.AcceptableExactly | crates/cobre-io/src/stages.rs:498-630 | what is accepted, as conditions on the raw fields |
| Stages.BlockIdsContiguous | crates/cobre-io/src/stages.rs:610-630 | true exactly when the ids are 0, ..., n - 1 in some order |
| Stages.ConvertStages | crates/cobre-io/src/stages.rs:710-783 | succeeds exactly if every entry has readable dates with the end after the start; each loaded stage then has the id, dates and blocks of one entry and conversely, ids ascending; a refusal names the first entry that has not, study stages first |
| Stages.BlocksAreIndexed | crates/cobre-io/src/stages.rs:927-938 | in an accepted stage converted block i has index i, and no block is lost |
| Stages.BlocksAreCarried | crates/cobre-io/src/stages.rs:927-938 | for any block list the converted blocks have the declared ids, names and hours, by ascending id |
| Stages.LoadedIdsAscend | crates/cobre-io/src/stages.rs:782-783 | accepted stages are stored with strictly increasing ids |
| Stages.LoadedStagesForgetOrder | crates/cobre-io/src/stages.rs:782-783 | rearranging the arrays changes neither acceptance nor the dates' being in order nor the loaded stages |
| Stages.ResolvesDeclared | crates/cobre-io/src/stage_resolve.rs:39-43 | an id resolves if and only if it is declared |
| Stages.InverseExactlyIfDistinct | crates/cobre-io/src/stage_resolve.rs:26-49 | resolution and look-up by index are inverse to each other if and only if the ids are distinct |
| Stages.LoadedIdsAreBijective | crates/cobre-io/src/pipeline.rs:103-105 | for every accepted file the resolver is a strictly monotone bijection between the declared non-negative ids and the study indices |
| WindowedHistory.Validate | crates/cobre-io/src/windowed_history.rs:50-109 | accepts exactly the lists of proper finite windows without an overlap inside an entity; a refusal is the first malformed record, else in the smallest entity with an overlap the first window, by start date and declaration, that starts in the one it follows |
| WindowedHistory.SweepEntity | crates/cobre-io/src/windowed_history.rs:86-105 | finds the first two neighbours that overlap if there are any |
| WindowedHistory.SweepDecides | crates/cobre-io/src/windowed_history.rs:83-106 | sorted by start date, neighbours do not overlap if and only if no two windows of the entity do |
| WindowedHistory.OverlapIsSharedDay | crates/cobre-io/src/windowed_history.rs:38-48 | proper windows overlap if and only if they share a day |
| WindowedHistory.OffenderForgetsOrder | crates/cobre-io/src/windowed_history.rs:47-49 | the entity an overlap is attributed to does not depend on declaration order |
| WindowedHistory.ValidHasDistinctStarts | crates/cobre-io/src/windowed_history.rs:38-48 | accepted windows of one entity start on different days |
| IndexGroups.GroupIndices | crates/cobre-io/src/windowed_history.rs:78-81 | positions grouped by key, keys ascending |
| Ordering.FirstDuplicate | crates/cobre-io/src/initial_conditions.rs:430-446 | finds the first entry that repeats an earlier key, if any |
| InitialConditions.FirstShared | crates/cobre-io/src/initial_conditions.rs:448-465 | finds the first filling entry whose hydro also appears in the storage array, if any |
| InitialConditions.DuplicateCheckIsSubsumed | crates/cobre-io/src/initial_conditions.rs:472-490 | whatever the commitment duplicate check refuses, the windowed validator refuses as well |
| InitialConditions.ValidateRaw | crates/cobre-io/src/initial_conditions.rs:282-321 | accepts exactly the acceptable input, for which the duplicate check is not a condition; a refusal is about the first check, array by array, and the first entry that fails it |
| InitialConditions.AcceptableExactly | crates/cobre-io/src/initial_conditions.rs:282-490 | what is accepted, as conditions on the raw fields: readable dates with start before end, finite values, disjoint windows per entity, no volume or defluence below zero, no hydro repeated or in both arrays |
| InitialConditions.ConversionStores | crates/cobre-io/src/initial_conditions.rs:521-585 | every array holds exactly the (entity, start, end, value) of its entries, in ascending order |
| InitialConditions.Load | crates/cobre-io/src/initial_conditions.rs:265-275 | succeeds exactly on acceptable input, and then stores the fields of the entries, one to one, by ascending entity and start date |
| InitialConditions.LoadedIsCanonical | crates/cobre-io/src/initial_conditions.rs:521-585 | every stored array ascends strictly in its key, and nothing is lost |
| InitialConditions.LoadingForgetsOrder | crates/cobre-io/src/initial_conditions.rs:533-585 | rearranging the arrays changes neither acceptance nor the result |
| PostStudyStages.ConvertStages | crates/cobre-io/src/post_study_stages.rs:131-164 | accepts exactly dated stages of positive finite length with distinct dates, and stores their dates and lengths by ascending date; a refusal is the first entry and the first check at which that stops being true |
| PostStudyStages.ConvertThermalBounds | crates/cobre-io/src/post_study_stages.rs:168-231 | accepts exactly finite, ordered bounds for declared stages with distinct cells, stored by ascending (thermal, stage); a refusal is the first entry and the first check at which that stops being true |
| PostStudyStages.LoadingForgetsOrder | crates/cobre-io/src/post_study_stages.rs:113-125 | rearranging both arrays changes neither acceptance nor the result |
| Partition.PrefixDispls | crates/cobre-comm/src/lib.rs:103-109 | displacement r is the sum of the counts before r |
| Partition.RegionsTile | crates/cobre-comm/src/lib.rs:101-102 | for any counts the regions lie in rank order and every position below the total is in exactly one |
| Partition.EvenPartition | crates/cobre-comm/src/lib.rs:86-98 | counts sum to the total, larger ones first, differ by at most one; region r starts at r * base + min(r, remainder) |
| Partition.GatherUndoesScatter | crates/cobre-comm/src/traits.rs:90-119 | gathering the scattered slices at their prefix displacements rebuilds the sequence and leaves the rest of the buffer alone, for any counts |
| Partition.EvenGatherUndoesScatter | crates/cobre-comm/src/lib.rs:86-109 | the same for the even partition over any number of ranks |
| Partition.CopyFromSlice | crates/cobre-comm/src/local.rs:86 | the region becomes the slice, all else stays |
| Partition.LocalBackend.Allgatherv | crates/cobre-comm/src/local.rs:49-88 | done exactly when the buffers fit; then it is the general gather at one rank; otherwise nothing is written and the first violated size is reported, except that a full-length buffer of zero-sized items can pass the saturating check and panic |
| Partition.LocalBackend.Allreduce | crates/cobre-comm/src/local.rs:97-121 | copies the one operand, or reports the size at fault and writes nothing |
| DigestFraming.FilesDigest | scripts/benchmark_numa.py:57-77 | feeds the hash, by ascending path, each file's name and contents, each after its length in eight little-endian bytes; refuses an empty list, and exactly the lengths from 2^64 on |
| DigestFraming.FeedFile | scripts/benchmark_numa.py:65-76 | one file adds its name and its contents, each after its length |
| DigestFraming.StreamIsSpelled | scripts/benchmark_numa.py:63-76 | the framed stream is the concatenation of those bytes, whatever the files |
| DigestFraming.TwoFilesSpelled | scripts/benchmark_numa.py:63-76 | of two files the one with the lower path is fed first, however they are listed |
| DigestFraming.DecodeStream | scripts/benchmark_numa.py:63-76 | the decoder inverts the framing of every list whose lengths fit |
| DigestFraming.StreamDecode | scripts/benchmark_numa.py:63-76 | whatever the decoder accepts is framed back to the same stream |
| DigestFraming.StreamIsInjective | scripts/benchmark_numa.py:63-76 | equal streams come from equal (name, content) lists |
| DigestFraming.SameStreamExactly | scripts/benchmark_numa.py:57-77 | two path-ordered file lists feed the same stream if and only if names agree pairwise and contents agree, up to the normal form where one is asked for |
| DigestFraming.StreamForgetsListing | scripts/benchmark_numa.py:63 | the order in which files were listed does not reach the stream, even if files are listed repeatedly |

## Left out

- The operating system and MPI: sysfs, `sched_setaffinity`, `get_mempolicy` and multi-rank transport. What the system answers a binding attempt is an input of the model.
- `AffinityReport`, `prepare` and `discover_from_sysfs`: they copy counts or read the host and add no state of their own.
- JSON and date text: a date is the day it denotes or a mark that it cannot be read; messages are reduced to which error is raised and which entry, entity or source it names.
- Bit-level floating point: no claim about single bits, overflow of finite sums, underflow of a division, or bit-exact idempotence. Rounding is known by its laws only, or absent.
- RankList.FormatRankList: works on (start, end) segments rather than on their decimal text, and on unbounded ranks, so `end + 1` at the largest machine word is not modelled.
- DigestFraming.FilesDigest: the hash value itself is not modelled, path order is an integer rank per file, and the JSON normal form is an arbitrary function.
- Weights.ScalesToOne: over exact arithmetic; `RoundoffBounds.NormalisedNearOne` is the rounded counterpart, about the exact sum of the scaled weights and up to second order, not about a sum that is itself rounded.
- Weights.ScalingIsIdempotent: over exact arithmetic; that a second scaling changes no bit is not modelled, because it depends on the bits: a rounded sum need not be one.
- PathMeasure.NormalisedIsStochastic: over exact arithmetic; `RoundedWalks.SourceNearOne` is the rounded counterpart.
- PathMeasure.NormalisingTwice: over exact arithmetic; that no bit changes is not modelled.
- PathMeasure.MassIsConserved: over exact arithmetic; `RoundedWalks.RoundedWalkMass` is the rounded counterpart.
- PathMeasure.WalkMassBound: takes the distance of the sums from one as given; `RoundedWalks.SourceNearOne` derives it from the normalisation.
- Stages.ConvertStages: seasons are left out, with the refusals that come from them.
- Seasons, discount-rate overrides, policy-graph kinds and nodes, and the other stage fields: case splits that do not touch identities or order.
- The SDDP solver, penalties, commissioning phases and broadcast mirrors are not part of this model.
