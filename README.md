# Autobreak break-graph optimiser, modelled in Dafny

Autobreak splits the staple strands (oligos) of a DNA-origami design into
shorter staples. Every strand has candidate break points (break nodes). For
each pair of nodes whose distance along the strand lies within
[LOWER_BOUND, UPPER_BOUND], `AutoBreak.initialize` creates a directed
break edge. The edge is weighted by a configurable score function over the
duplex segments it spans. A best-path search over these edges picks where to
cut. The search can be repeated with edges switched off, which gives k
diversified solutions.

Per-strand solutions are combined into oligo-group totals and then into a
design total, with a penalty for crossovers cut on both sides. The design is
re-optimised at several scaffold sequence offsets, and the best complete
design is kept.

The model covers:

- **Edge structure.** `BreakEdge.update_connection` derives structural fields
  from the single-stranded segments between two nodes: stripped duplex
  segments, their lengths, max length, has-14/has-16, structure and validity
  (`segments.dfy`). `BreakEdge.is_valid`, `get_break_distance`,
  `get_break_order_difference` and `is_break_edge_possible` are in
  `edges.dfy`.
- **Score function.** The term table, `set_optimization_func`, `optimize`
  and `preprocess_optim_params` (`scoring.dfy`).
- **Graph build.** `AutoBreak.initialize` for one strand (`build.dfy`).
- **Solutions.** `OligoBreakSolution`: building a solution from a reversed
  break-path list, `is_identical`, the duplex length, the self penalty and
  the temporary neighbour constraints (`solutions.dfy`).
- **Path search.** `BreakNode.get_valid_edges`, `reset_break_path`,
  `get_shortest_path` (a FIFO relaxation heuristic over the break order,
  not guaranteed to find the highest-scoring path), `traverse_best_path`, and `get_k_shortest_paths` with the "best"
  selection policy (`search.dfy`).
- **Totals.** `GroupBreaksolution.calculate_penalty` and
  `CompleteBreakSolution.calculate_total_score` (`groups.dfy`).
- **Offset sweep.** The offsets `permute_scaffold_sequence_autobreak`
  visits, `combine_group_solutions`, `compare_complete_solutions` and
  `correct_complete_solution_offsets` (`sweep.dfy`).
- **Connectivity.** `BreakNode.get_connected_breaks` and
  `depth_first_search` (`connectivity.dfy`).

Representation:

- Node and edge identity in the source is Python object identity.
- In the model, each strand's nodes are numbered 0..n-1 in strand order, and
  `key` maps them to global node keys.
- An edge is identified by its index in the strand's edge list.
- Oligo and group keys are natural numbers, not Python tuples.
- Scores are integers (the source uses floats); see "Left out".

Where the project's own documentation and the code disagree, the model
follows the code:

- **`is_identical` is not symmetric** when called without `max_index`. It
  compares the first `len(self.breaks) - 1` breaks, so a longer `self` can
  differ from `other` while the reverse call succeeds. `IsIdenticalDefaultAsymmetric`
  shows this.
- **`get_shortest_path` is not an exact best-path search.** A node whose
  score rises after it was expanded is never queued again, and the loop stops
  as soon as the final node is dequeued. With order ids s0, a1, d2, b3, c4 and
  edges s→a, s→b, a→d, b→c of weight 1 and d→b of weight 100, c is scored 2
  through b before d raises b to 102. The model states what the search does
  guarantee (every recorded score is justified by an edge, every usable start
  edge raises its target, the final node is reached whenever a walk of usable
  edges leads to it), not optimality.
- **`get_k_shortest_paths` deduplication.** A candidate is compared only with
  the solutions accepted so far, not with the pool. A pooled candidate is not
  compared again with solutions accepted after it. So the model promises only
  that every later solution differs from the first one.

## Model

| member | source | states |
|---|---|---|
| Segments.StripEmptyIff | autobreak_main.py:2252-2254 | a segment strips to nothing exactly when it is all whitespace |
| Segments.StripTrimmed | autobreak_main.py:2252-2254 | a stripped segment neither starts nor ends with whitespace |
| Segments.DuplexSegments | autobreak_main.py:2252-2254 | the duplex list holds one non-empty stripped segment per non-blank segment |
| Segments.DuplexSegmentsPlaced | autobreak_main.py:2252-2254 | non-blank segment j, stripped, is the duplex segment at the position counting the non-blank segments before it, so the list keeps the segments' order |
| Segments.FilterMapPlaced | autobreak_main.py:2252-2254 | filtering then mapping sends each kept element to the position counting the kept elements before it |
| Segments.DuplexSegmentsFilter | autobreak_main.py:2252-2254 | the duplex segments are the stripped non-blank segments in order, and their number is the non-blank count |
| Segments.NonBlankCountZero | autobreak_main.py:2252-2254 | no segment counts as non-blank exactly when every segment is whitespace only |
| Segments.DuplexSegmentsEmptyIff | autobreak_main.py:2252-2254 | no duplex segment remains exactly when every segment is blank |
| Segments.Lengths | autobreak_main.py:2347 | one length per duplex segment, equal to that segment's length |
| Segments.MaxSeq | autobreak_main.py:2355-2359 | `edge_maxseq` bounds every duplex length and is one of them, or 0 when there are none |
| Segments.CountAtLeastPositive | autobreak_main.py:2361-2365 | the count of lengths at or above a bound is positive exactly when some length reaches it |
| Segments.ProfileMeaning | autobreak_main.py:2347-2380 | has14/has16 say whether some duplex reaches 14/16 nt; has16 implies has14; has14 iff maxseq ≥ 14; the edge is invalid exactly when every segment is blank, and then maxseq and structure are 0; structure is the square of the number of non-blank segments |
| BreakEdges.ActiveToggle | autobreak_main.py:2146-2157 | an inactive edge is never valid; reactivating a formerly active edge restores its validity; a valid edge has no forbidden endpoint |
| BreakEdges.BreakDistanceRange | autobreak_main.py:2482-2488 | on a circular strand every distance lies in (0, length], and it equals the length exactly for a node and itself |
| BreakEdges.BreakDistanceLinear | autobreak_main.py:2482-2488 | on a linear strand the distance is the plain position difference |
| BreakEdges.BreakEdgePossibleIff | autobreak_main.py:2468-2475 | an edge may be followed iff it moves forward in order or jumps back to order 0 from another node; never from a node to itself |
| Scoring.ParseTermExact | autobreak_main.py:661-675 | a name selects a score term exactly when it is that term's key |
| Scoring.DefaultParamsFit | autobreak_main.py:677-691 | the default parameter table has every term with at least as many parameters as the term reads |
| Scoring.Overwrite | autobreak_main.py:1904-1908 | given parameters replace the leading defaults position by position and the rest are kept |
| Scoring.ConfigureMeaning | autobreak_main.py:1885-1908 | the function list is the known names in argument order; the table keeps its keys and list lengths; terms never named keep their parameters; every term ends with the parameters the entries naming it leave, in order |
| Scoring.NamedParamsUnnamed | autobreak_main.py:1904-1908 | entries that do not name a term leave its parameters unchanged |
| Scoring.NamedParamsSingle | autobreak_main.py:1904-1908 | a term named by one entry takes that entry's values when they fit and keeps its list otherwise |
| Scoring.ConfigureParams | autobreak_main.py:1895-1908 | `set_optimization_func` leaves each term the parameters its naming entries give in turn, each only when it fits; a term named once is overwritten exactly when the given list is no longer than its own |
| Scoring.ConfigureKeepsFit | autobreak_main.py:1904-1908 | configuring never leaves a term with too few parameters |
| Scoring.IndicatorTerms | autobreak_main.py:1930-1944 | the has-14, has-16 and maxseq terms are 0 or 1 |
| Scoring.EvalTerms | autobreak_main.py:1910-1914 | one score per selected term, each the term's value on the edge |
| Scoring.SumPermutation | autobreak_main.py:1910-1920 | the sum of the term values is the same for any reordering of them |
| Scoring.ProductPermutation | autobreak_main.py:1910-1920 | the product of the term values is the same for any reordering of them |
| Scoring.OptimizeOrderFree | autobreak_main.py:1910-1920 | the weight is the same for any reordering of the terms (equal multisets of values) |
| Scoring.OptimizeSingle | autobreak_main.py:1910-1920 | a single term is never multiplied: its value under "sum", else 0 |
| Scoring.OptimizePair | autobreak_main.py:1910-1920 | two terms under "sum" and "product" weigh a + b + a·b |
| Scoring.PreprocessMeaning | autobreak_main.py:916-936 | no "xscaf"/"xstap" break rule forces (1, 1); no shuffling forces (1, 1); otherwise the counts are kept; the rules are idempotent |
| GraphBuild.TargetsInWindow | autobreak_main.py:1511-1555 | every edge target lies within [LOWER_BOUND, UPPER_BOUND]; a self edge exists only on a circular strand |
| GraphBuild.WalkForward | autobreak_main.py:1511-1555 | on a linear strand every edge goes forward |
| GraphBuild.DistanceIncreases | autobreak_main.py:2482-2488 | on an ordered strand the distance grows with the number of steps taken |
| GraphBuild.TargetsExact | autobreak_main.py:1511-1555 | on an ordered strand, (k, d) is an edge target exactly when k is a node of the strand (after i unless the strand is circular), d is the break distance to k, and d lies within [LOWER_BOUND, UPPER_BOUND] |
| GraphBuild.WalkFrom | autobreak_main.py:1507-1555 | the edges created from one node are exactly its targets in walk order, with fresh consecutive ids; the loop edge exists iff the node targets itself; every created edge is entered in the edge map under (from, to), old entries stay, and every entry names an edge with that source and target |
| GraphBuild.Initialize | autobreak_main.py:1497-1555 | for every node, `break_edges` lists exactly the edges to its targets built from the edge's profile and weight; loop edges and the edge map agree; `dont_break` is set when the strand is shorter than LOWER_BOUND and otherwise kept as it arrived (never cleared) |
| Solutions.FromPathsOrder | autobreak_main.py:229-243 | breaks, edges and scores are the break-path list reversed: the start node first, the final node last, and the solution's score kept |
| Solutions.Slice | autobreak_main.py:245-275 | Python slicing `s[:k]` for any k, including negative k and k past the end |
| Solutions.IsIdenticalPrefix | autobreak_main.py:245-275 | with index k the answer is whether the first k breaks agree |
| Solutions.IsIdenticalDefault | autobreak_main.py:245-275 | without an index (or index 0) the first `len(self) - 1` breaks are compared |
| Solutions.IsIdenticalIndexError | autobreak_main.py:245-275 | the comparison raises (None) exactly when k exceeds both lengths and they are equal |
| Solutions.IsIdenticalReflexive | autobreak_main.py:245-275 | a solution is identical to itself |
| Solutions.IsIdenticalSymmetric | autobreak_main.py:245-275 | with an explicit index within both lengths the comparison is symmetric |
| Solutions.IsIdenticalDefaultPrefixOnly | autobreak_main.py:245-275 | the default comparison ignores the last break: any continuation of the prefix is identical |
| Solutions.IsIdenticalDefaultAsymmetric | autobreak_main.py:245-275 | a concrete pair for which the default comparison answers differently in the two directions |
| Solutions.DsDnaLengthAppend | autobreak_main.py:104-115 | the duplex length splits over concatenation, so None slots contribute nothing |
| Solutions.CalculateDsDnaLength | autobreak_main.py:104-115 | the loop's total is the sum of the present edges' duplex lengths |
| Solutions.ClaimCountBounds | autobreak_main.py:204-227 | at most one claim per break, and no claims exactly when no break's neighbour lies on the path |
| Solutions.SelfPenaltyBounds | autobreak_main.py:204-227 | the self penalty is at most half the cut breaks, and 0 when no cut break's neighbour lies on the path |
| Solutions.CalculateSelfPenalty | autobreak_main.py:204-227 | the loop computes half (rounded down) of the cut breaks whose neighbour is on the path |
| Solutions.Neighbors | autobreak_main.py:128-144 | the keys collected are exactly the neighbours of the cut breaks |
| Solutions.ClearAfterSet | autobreak_main.py:186-202 | resetting after applying clears exactly the neighbours' flags; when they were clear it restores the table; applying twice equals applying once |
| Solutions.NodeTable.ApplyTempNeighborConstraints | autobreak_main.py:128-144 | `dont_break_temp` gains exactly the cut breaks' neighbours; `dont_break` is unchanged |
| Solutions.NodeTable.ResetTempNeighborConstraints | autobreak_main.py:186-202 | `dont_break_temp` loses exactly the cut breaks' neighbours; `dont_break` is unchanged |
| PathSearch.FirstMax | autobreak_main.py:2583-2586 | the element a stable descending sort puts first: a maximum, with every earlier element strictly smaller |
| PathSearch.RemoveAt | autobreak_main.py:2597-2598 | `pop(i)` removes exactly that one element |
| PathSearch.AlreadyFound | autobreak_main.py:2567-2572 | the duplicate flag is set iff some accepted solution finds the candidate identical under its default prefix |
| PathSearch.RestoredTrans | autobreak_main.py:2556-2558 | edges that were only switched back on stay so over several rounds |
| PathSearch.BreakGraph.FilterValid | autobreak_main.py:2503-2507 | the kept edges are exactly the valid ones |
| PathSearch.BreakGraph.ValidOut | autobreak_main.py:2503-2507 | `get_valid_edges` returns valid outgoing edges of the node, and every valid outgoing edge |
| PathSearch.BreakGraph.ResetBreakPaths | autobreak_main.py:2455-2462 | every node's score is -INFINITY, with no predecessor, an empty path-node list, and not visited |
| PathSearch.BreakGraph.CandidateJustified | autobreak_main.py:2624-2643 | a score computed from a possible edge (weight alone from order 0, else predecessor score plus weight, minus INFINITY² for a used neighbour) justifies the target's new predecessor |
| PathSearch.BreakGraph.Improve | autobreak_main.py:2637-2643 | a strictly better score replaces the target's predecessor, path-node list and score, and nothing else |
| PathSearch.BreakGraph.Relax | autobreak_main.py:2619-2643 | an impossible edge is skipped; a possible one leaves the target scoring at least the candidate, takes the candidate and its predecessor when strictly better, changes nothing else, and keeps the search invariant |
| PathSearch.BreakGraph.Visit | autobreak_main.py:2645-2650 | the target is enqueued iff it was not visited, and is then visited |
| PathSearch.BreakGraph.Expand | autobreak_main.py:2615-2650 | relaxing all valid edges of a node keeps the search invariant; every usable edge leaves its target visited and scoring at least its candidate; the queue gains exactly the newly visited targets |
| PathSearch.BreakGraph.RunQueue | autobreak_main.py:2605-2650 | the FIFO loop terminates, keeps the search invariant, and ends complete: every usable start edge raised its target to at least its weight, and the final node is visited whenever a walk of usable edges from the start leads to it |
| PathSearch.BreakGraph.TryLoopEdge | autobreak_main.py:2652-2661 | the loop edge can only change the final node's score and predecessor, only when start is final and the loop edge is valid and strictly higher, and afterwards the final node scores at least the loop edge's weight |
| PathSearch.BreakGraph.GetShortestPath | autobreak_main.py:2602-2666 | every recorded predecessor is justified by a possible valid edge; the edges are unchanged; the search is complete as `RunQueue` states, the loop edge is taken when it scores higher; the result is the traced-back best path, None when the final node has no predecessor, and otherwise a start-to-final chain of graph edges whose score is the final node's score |
| PathSearch.BreakGraph.TraceBackShape | autobreak_main.py:2668-2730 | the traced break paths run from the final node's predecessor edge back to the start, each step linked by its edge |
| PathSearch.BreakGraph.TraverseBestPath | autobreak_main.py:2668-2730 | the loop's result is the traced-back best path |
| PathSearch.BreakGraph.ChainFromPaths | autobreak_main.py:229-243 | a linked break-path list becomes a solution starting at start and ending at final, each edge linking consecutive breaks |
| PathSearch.BreakGraph.BestPathShape | autobreak_main.py:2668-2730 | no predecessor at the final node means no path; a found path is a chain scored with the final node's score |
| PathSearch.BreakGraph.TraceBackValid | autobreak_main.py:2668-2730 | a path traced through valid predecessor edges uses only valid graph edges |
| PathSearch.BreakGraph.OnGraphFromPaths | autobreak_main.py:229-243 | a solution built from valid graph edges lies on the graph |
| PathSearch.BreakGraph.BestPathOnGraph | autobreak_main.py:2663-2666 | the best path uses only valid edges of the graph |
| PathSearch.BreakGraph.SwitchOff | autobreak_main.py:2539-2547 | the i-th edge of the last solution is deactivated iff some accepted solution shares its prefix up to i |
| PathSearch.BreakGraph.Deviate | autobreak_main.py:2537-2562 | the candidate is exactly the search on the edges with the blocked edge switched off; the edges end with that edge switched back on; a candidate is a chain, and when the prefix was shared it avoids the deactivated edge |
| PathSearch.BreakGraph.Diversify | autobreak_main.py:2536-2576 | the pool becomes the old pool followed, in deviation order, by every candidate found that no accepted solution finds identical; the edges end as the deviations leave them |
| PathSearch.BreakGraph.LedgerAccept | autobreak_main.py:2578-2598 | accepting the pool's first maximum keeps the accepted list's properties |
| PathSearch.BreakGraph.Accumulate | autobreak_main.py:2531-2598 | the while loop ends with exactly the accepted solutions, pool and edges of the reference loop `KLoop` |
| PathSearch.BreakGraph.GetKShortestPaths | autobreak_main.py:2509-2600 | the result, pool and edges are those of the reference `KBest`; empty exactly when there is no best path, otherwise starting with the best path; later solutions differ from the first; edges end as they were or switched back on |
| PathSearch.FreshMembers | autobreak_main.py:2564-2576 | a pooled candidate is a found candidate that no accepted solution finds identical, and every such candidate is pooled |
| PathSearch.FreshAppend | autobreak_main.py:2536-2576 | the fresh candidates of two runs of deviations are those of the first followed by those of the second |
| PathSearch.FreshCons | autobreak_main.py:2564-2576 | admitting one candidate and then the fresh ones after it equals taking the fresh ones of the whole list |
| PathSearch.BreakGraph.ExpandVisited | autobreak_main.py:2645-2650 | after the inner loop a node is visited exactly when it was visited before or was queued by the loop |
| PathSearch.BreakGraph.ExpandCovers | autobreak_main.py:2619-2650 | after the inner loop over some edges, every possible one left its target visited and scoring at least its candidate |
| PathSearch.BreakGraph.ExpandUsable | autobreak_main.py:2615-2650 | after the inner loop over all valid edges, every usable edge left its target visited and scoring at least its candidate |
| PathSearch.BreakGraph.ReachVisited | autobreak_main.py:2605-2650 | when every visited node was expanded and every expanded node has its usable targets visited, every walk of usable edges from an expanded node ends at a visited node |
| PathSearch.BreakGraph.FrontierStep | autobreak_main.py:2605-2650 | expanding the head of the queue keeps the bookkeeping: the start expanded first, expanded nodes have their usable targets visited, visited nodes are expanded or queued |
| PathSearch.BreakGraph.FrontierDone | autobreak_main.py:2605-2612 | when the queue is empty or the visited final node is dequeued, the search is complete |
| PathSearch.BreakGraph.CompleteMono | autobreak_main.py:2652-2661 | raising scores without changing visits keeps the search complete |
| PathSearch.BreakGraph.SearchSound | autobreak_main.py:2602-2666 | a search state reached from the reset state records only justified predecessors, and its traced-back path is None without a final predecessor, else a chain on the graph scored with the final node's score |
| PathSearch.BreakGraph.ResultChain | autobreak_main.py:2602-2666 | a search that finds a path finds a start-to-final chain |
| PathSearch.BreakGraph.SwitchedOff | autobreak_main.py:2539-2547 | switching off changes nothing but active flags |
| PathSearch.BreakGraph.Reactivated | autobreak_main.py:2556-2558 | switching back on changes nothing but active flags, each edge as it was or switched on |
| PathSearch.BreakGraph.SwitchOffOn | autobreak_main.py:2539-2558 | switching the blocked edge back on after the search gives the reactivated edges; an unblocked edge is never switched off |
| PathSearch.BreakGraph.OnGraphAvoids | autobreak_main.py:2546-2554 | a solution on the graph never uses an inactive edge |
| PathSearch.BreakGraph.Offs | autobreak_main.py:2537-2558 | one edge list per deviation of all but the last edge, and edges after the loop that are as they were or switched back on |
| PathSearch.BreakGraph.Searches | autobreak_main.py:2549-2554 | one search per deviation, in order; every path found is a start-to-final chain |
| PathSearch.BreakGraph.DeviationStep | autobreak_main.py:2537-2576 | one pass of the `for i` loop appends the deviation's candidate when it is fresh and leaves the later deviations to the edges switched back on |
| PathSearch.BreakGraph.DeviateInto | autobreak_main.py:2537-2576 | one deviation grows the pool by its candidate exactly when one is found and no accepted solution finds it identical |
| PathSearch.BreakGraph.Deviations | autobreak_main.py:2536-2576 | a round's grown pool holds only chains, and its edges are as they were or switched back on |
| PathSearch.BreakGraph.GrownChains | autobreak_main.py:2564-2576 | the grown pool holds only start-to-final chains |
| PathSearch.BreakGraph.GrownLedger | autobreak_main.py:2564-2576 | the grown pool holds only chains the best path does not find identical |
| PathSearch.BreakGraph.KLoopLedger | autobreak_main.py:2531-2598 | the loop keeps its ledger: the best path first, every accepted and pooled solution a chain the best path does not find identical, nothing pooled above the last accepted |
| PathSearch.BreakGraph.KLoopPrefix | autobreak_main.py:2592 | the loop only appends to the accepted solutions |
| PathSearch.BreakGraph.KLoopStops | autobreak_main.py:2531-2580 | the loop accepts at most k solutions (or keeps the ones it had), and stops short of k only with an empty pool |
| PathSearch.BreakGraph.KLoopRestored | autobreak_main.py:2556-2558 | after the loop every edge is as it was or switched back on |
| PathSearch.BreakGraph.KBestFirst | autobreak_main.py:2514-2528 | the result is empty exactly when there is no best path, otherwise starts with it, and a best path of score 0 stands alone |
| PathSearch.BreakGraph.KBestBound | autobreak_main.py:2524-2580 | at most max(k, 1) solutions; a run that stops short of k after a nonzero best path leaves the pool empty |
| PathSearch.BreakGraph.KBestShort | autobreak_main.py:2517-2528 | without a best path, or with one of score 0, at most that path is returned and nothing is pooled |
| PathSearch.BreakGraph.KLoopFromBest | autobreak_main.py:2521-2598 | the loop from a nonzero best path ends with chains, later ones not identical to the first, and nothing pooled above the last accepted |
| PathSearch.BreakGraph.KBestLedger | autobreak_main.py:2509-2600 | every returned solution is a chain, later ones are not identical to the first, and nothing left in the pool scores above the last accepted |
| PathSearch.BreakGraph.KBestRestored | autobreak_main.py:2509-2600 | after `get_k_shortest_paths` every edge is as it was or switched back on |
| Groups.SumUpdate | autobreak_main.py:335-386 | changing one strand's term changes a dict-order total by exactly that change |
| Groups.GroupPenaltyBound | autobreak_main.py:335-386 | the group penalty is between 0 and half the cut breaks of the present solutions |
| Groups.AllPresentIff | autobreak_main.py:335-386 | iterating the keys finds no missing solution exactly when no value of the dict is missing |
| Groups.SingleStrandPenalty | autobreak_main.py:335-386 | a one-strand group's penalty equals that strand's self penalty, and its score is the strand's score |
| Groups.DropSolution | autobreak_main.py:335-386 | losing a strand's solution lowers score and duplex length by its share and makes the group incomplete |
| Groups.GroupSolution.CalculatePenalty | autobreak_main.py:335-386 | totals are the sums over present solutions, the penalty is half (rounded down) the cross claims, and complete iff every solution is present |
| Groups.CountCrossClaims | autobreak_main.py:365-383 | the inner loop counts the cut breaks (all but the last) whose neighbour is a break of the neighbour strand's present solution |
| Groups.AllCompleteIff | autobreak_main.py:487-510 | the design is complete exactly when every group of the dict exists and is complete |
| Groups.SingleGroupTotals | autobreak_main.py:487-510 | with one group, the design totals are that group's totals |
| Groups.DropGroup | autobreak_main.py:487-510 | losing a group lowers the design score and duplex length by its share and makes the design incomplete |
| Groups.CompleteSolution.CalculateTotalScore | autobreak_main.py:487-510 | totals are sums over existing groups; complete iff every group exists and is complete; normalised score = score / duplex length, with division by zero reported |
| Sweep.FinalIteration | autobreak_main.py:1376-1383 | one pass without permutation; with permutation, the sequence length capped at nitr |
| Sweep.PermuteOffsets | autobreak_main.py:1372-1392 | the visited offsets are (start + itr) mod scaffold length for itr below final_itr |
| Sweep.OffsetsInRange | autobreak_main.py:1390-1392 | every offset lies on the scaffold; the first is the start offset reduced |
| Sweep.OffsetsDistinct | autobreak_main.py:1385-1392 | no offset repeats within one turn around the scaffold |
| Sweep.OffsetsCover | autobreak_main.py:1385-1392 | a full turn visits every scaffold position |
| Sweep.CorrectedRoundTrip | autobreak_main.py:1823-1837 | the corrected offset lies on the scaffold, and correcting back by the opposite difference gives the original offset |
| Sweep.OffsetSweep.CombineGroupSolutions | autobreak_main.py:1753-1776 | a complete design is stored under its offset with the summed totals, replacing what was there; an incomplete one leaves the store unchanged |
| Sweep.OffsetSweep.CompareCompleteSolutions | autobreak_main.py:1778-1821 | the best is a stored solution with the highest total score, the first such in dict order; with nothing stored the best is unchanged |
| Sweep.OffsetSweep.CorrectCompleteSolutionOffsets | autobreak_main.py:1823-1837 | every stored solution's corrected offset is (offset + difference) mod scaffold length; its totals are unchanged |
| Connectivity.ConnectedBreaks | autobreak_main.py:2732-2749 | the connected breaks are exactly the present next, previous and neighbour links, next first |
| Connectivity.ReachableInClosed | autobreak_main.py:2758-2778 | reachable breaks lie in every closed set holding the start |
| Connectivity.ReachableSymmetric | autobreak_main.py:2732-2749 | with links in both directions, reachability is symmetric |
| Connectivity.SameCluster | autobreak_main.py:2758-2778 | with links in both directions, a search from any break of a cluster finds the same cluster |
| Connectivity.NotVisited | autobreak_main.py:2776 | the pushed breaks are the connected ones not yet seen, each once |
| Connectivity.BreakNetwork.DepthFirstSearch | autobreak_main.py:2758-2778 | the result is exactly the set of breaks reachable from the start, it is closed under links, and exactly those breaks get their visited flag raised |

## Left out

- Floating point: scores, weights and parameters are integers or reals.
  `np.exp`, `np.log` and the Gaussian and log-Gaussian terms are supplied
  values, not computed. `CompleteBreakSolution.total_prob` (a product of
  exponentials) is not modelled.
- Thermodynamics: dG, Tm and folding probabilities come from external code
  and enter only as supplied edge features.
- Logging, printing, the CSV/Excel/JSON writers, the tqdm progress output and
  the GUI (`gui.py`) are not modelled.
- `k_select` values other than "best": the random choice uses the random
  number generator and is left out.
- The stable descending sorts of the k-best pool and of the complete
  solutions are modelled by their first element (the first maximum in list
  or dict order), which is the only element the code reads.
  `sorted_complete_solutions` is only printed.
- `reset_break_order_ids` is modelled as fixed order ids (`orderId`), which
  it re-derives identically for the same start node. The scratch fields
  `traverse_path`, `shortest_paths`, `k_potential_paths` and
  `connected_breaks` are not kept.
- Edge analysis: `update_connection` extracts sequences from the cadnano
  design. The model takes the segment strings (`Segments.ProfileOf`) or the
  resulting profile (`profileOf` in `GraphBuild.Initialize`) as given.
  `make_loop_edge` is folded into `GraphBuild.MakeEdge` (`isLoop`).
- `set_dont_break_oligos` lives in the origami module, which is not part of
  this model; the `dont_break` flag it may set enters `GraphBuild.Initialize`
  as the parameter `dontBreakIn`.
- The shift and re-run inside each sweep iteration (`shift_scaffold_sequence`,
  `run_autobreak`) are not modelled; `Sweep.PermuteOffsets` returns the
  offsets visited. `get_scaffold_distance` enters as the parameter
  `difference`.
- Aliasing: a solution's edges are value copies of the graph's edges, and a
  group's totals reach the design as a `GroupTotals` value rather than a
  reference to the group object.
- `bad_list` (a per-solution list of claimed breaks used only for output) is
  not kept.
- `depth_first_search` returns `list(visited)`, whose order Python leaves
  unspecified. The model returns the set. The order in which
  `set(connected) - visited` is pushed is not modelled either; the result
  does not depend on it.
- PathSearch.BreakGraph.GetKShortestPaths: promises that later solutions
  differ from the first one, not from each other, because the code does not
  re-check the pool against solutions accepted after a candidate was pooled.
- PathSearch.BreakGraph.GetShortestPath: does not promise the highest-scoring
  path, because the code's search does not find it in general (see above);
  the contract states what the search guarantees instead.
- PathSearch.BreakGraph.GetShortestPath: requires the caller to have reset
  the strand's search state, as `reset_break_paths` does before every search
  in the code.
- Groups.CompleteSolution.CalculateTotalScore: a zero total duplex length
  makes Python raise ZeroDivisionError. The model reports it through
  `raised` and leaves the normalised score unassigned; it does not model the
  exception unwinding.
- Sweep.OffsetSweep.CorrectCompleteSolutionOffsets and Sweep.PermuteOffsets:
  require a positive scaffold length, which every scaffold has. With length
  0, Python's `%` would raise.
