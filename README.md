# gcmpy core, modelled and verified in Dafny

gcmpy builds random graphs with the generalised configuration model (GCM).
Every vertex has a joint degree: one count per motif topology (2-cliques,
3-cliques, cycles, diamonds, custom motifs). Each topology gets a stub list
that holds every vertex once per motif of that topology it belongs to. The
list is shuffled, cut into groups of the motif size, and a builder turns each
group into the edges of one motif. A Markov-chain edge-swap engine then
rewires the graph towards target joint excess joint-degree mixing matrices
(ejks) while keeping every vertex's joint degree. Joint degree distributions
(jdd) and sequences (jds) come from loaders: split degree, delta, clique
cover and independent marginals. Edge clique covers come from the EECC
heuristic and from the maximal-preserving clique cover (MPCC), whose edge
labels are read back by the message-passing mixin.

This project models that core and proves what it promises. Both the current
package and the first version (`gcmpy/gcm_algorithm.py`, `gcmpy/joint_degree.py`,
`gcmpy/motif_generators.py`, `gcmpy/tools/MCMC_rewiring.py`) are modelled.

| file | module | models |
|---|---|---|
| common.dfy | Common | the Python exceptions raised, Option and Result, sequence helpers and chunking (`iteration_utilities.grouper`) |
| graph.dfy | Graphs | a networkx graph as a map from sorted vertex pairs to (topology, motif id) labels, plus each vertex's joint degree |
| draw_set.dfy | DrawSets | `DrawSet`: a list, a position index, swap-with-last removal and drawing |
| keys_view.dfy | KeysView | the key concatenation view of a proposed swap |
| mcmc.dfy | Mcmc | the counting decorator of the Markov-chain base class, and the acceptance-ratio log it was meant to feed |
| rewiring.dfy | Rewiring | corners, suitability, proposal pairing, excess-degree keys and the accept step of the current engine |
| rewiring_engine.dfy | RewiringEngine | the current engine object: construction, `swap_condition`, accept and `rewire` |
| rewiring_legacy.dfy | RewiringLegacy | the first version's engine, which rewires the network in place |
| ejk_matrices.dfy | EjkMatrices | the target mixing matrices and their excess-degree keys |
| ejk_extraction.dfy | EjkExtraction | extraction of the joint excess joint-degree and excess degree mixing patterns from a network |
| motifs.dfy | Motifs | the clique, cycle and diamond builders, current and first version |
| stubs.dfy | Stubs | stub lists and their shuffles |
| gcm.dfy | Gcm | the networkx generator and the fast edge-list generator |
| gcm_custom.dfy | GcmCustomMotifs | the custom-motif generator |
| gcm_legacy.dfy | GcmLegacy | the first version's generator and its resampling subclass |
| joint_degree.dfy | JointDegrees | the jdd base class: sampling, the handshaking correction, normalisation, conversion |
| joint_degree_split.dfy | SplitDegree | the split-degree loader |
| joint_degree_delta.dfy | Delta | the delta loader |
| joint_degree_cover.dfy | CoverJointDegree | the clique-cover loader |
| joint_degree_marginal.dfy | Marginal | the marginal loader |
| joint_degree_legacy.dfy | LegacyJdd | the first version's jdd base class and split model, keyed by text |
| joint_degree_legacy_analytic.dfy | LegacyAnalytic | the first version's joint-function, marginal and clique-cover loaders |
| joint_degree_legacy_delta.dfy | LegacyDelta | the first version's delta model |
| covers.dfy | Covers | the binomial coefficient, limited maximal cliques, clique scores and the EECC cover |
| mpcc.dfy | Mpcc | the MPCC cover and its edge labels |
| labels.dfy | CoverLabels | reading motif-cover labels back from edges |
| text.dfy | PyText | `str`, `int()`, `str.split` and `ast.literal_eval` on the text forms the labels and keys use |

Modelling choices:
- A class whose methods update fields in place is a Dafny `class`: `DrawSet`,
  the counters, both rewiring engines, the ejk extractor, EECC and the jdd
  loaders. Loops that accumulate become `method`s with loop invariants, each
  proved against a function that states the result. Pure code (builders,
  keys, stub lists, split enumeration) becomes functions and lemmas.
- Every way the code can fail is a `Result` error named after the Python
  exception that would be raised. This includes raising a string, which
  Python turns into a TypeError.
- Randomness is nondeterminism: a shuffle is any permutation, and a draw is
  any element. For the Metropolis comparison `value > random()`, both
  rewiring engines draw some real `rnd` with `0.0 <= rnd < 1.0`, and the
  outcome is `ratio > rnd`.
- Floats are reals. Callbacks such as `fp`, the marginals and the
  probability of a joint degree are function parameters.
- Several defects of the code are modelled as written and stated as
  lemmas:
  - `count_edge_types` doubles the counts on a second call, and `_ejks` is a
    list shared by every extractor;
  - a partner found when the search count equals the search limit is still
    abandoned;
  - the split-degree loader's `resolve_degree` empties the distribution, so
    only the last degree survives. The delta loader loses every degree below
    the target in the same way;
  - the clique-cover loader's rows are lists, so counting them raises
    TypeError;
  - MPCC writes the label under "clique", but the mixin reads "CoverLabel";
  - the first version's engine raises a TypeError for zipped corners of
    different topologies, even after they passed its suitability check.

## Model

| member | source | states |
|---|---|---|
| DrawSets.DrawSet.ElementsAreIndexed | gcmpy/tools/draw_set.py:4-8 | the position map and the list stay in step: the keys of the map are exactly the listed edges, the list holds no duplicate, and its length is the number of distinct edges |
| DrawSets.DrawSet.constructor | gcmpy/tools/draw_set.py:6-8 | a new draw set holds no edge and an empty position map |
| DrawSets.DrawSet.Contains | gcmpy/tools/draw_set.py:10-11 | membership is answered from the position map and is true exactly for the edges held |
| DrawSets.DrawSet.Len | gcmpy/tools/draw_set.py:16-17 | the length is the number of distinct edges held |
| DrawSets.DrawSet.Add | gcmpy/tools/draw_set.py:19-23 | adding a present edge changes nothing; adding a new edge appends it and records its position as the old length; either way the set becomes the old set plus the edge and stays consistent |
| DrawSets.DrawSet.Remove | gcmpy/tools/draw_set.py:25-30 | removing an absent edge is a KeyError that changes nothing; removing a present edge pops the last edge and, unless the removed edge was last, moves it into the vacated slot and updates its position; the set loses exactly that edge and stays consistent |
| DrawSets.DrawSet.Draw | gcmpy/tools/draw_set.py:32-33 | drawing from an empty set is an IndexError; otherwise the drawn edge is one held by the set |
| KeysView.U0U1 | gcmpy/tools/joint_excess_joint_degree_keys_view.py:12-13 | the u0u1 key is the first key followed by the second |
| KeysView.U1U0 | gcmpy/tools/joint_excess_joint_degree_keys_view.py:15-16 | the u1u0 key is the second key followed by the first |
| KeysView.V0V1 | gcmpy/tools/joint_excess_joint_degree_keys_view.py:18-19 | the v0v1 key is the third key followed by the fourth |
| KeysView.V1V0 | gcmpy/tools/joint_excess_joint_degree_keys_view.py:21-22 | the v1v0 key is the fourth key followed by the third |
| KeysView.U0V1 | gcmpy/tools/joint_excess_joint_degree_keys_view.py:24-25 | the u0v1 key is the first key followed by the fourth |
| KeysView.V0U1 | gcmpy/tools/joint_excess_joint_degree_keys_view.py:27-28 | the v0u1 key is the third key followed by the second |
| KeysView.ReversedKeys | gcmpy/tools/joint_excess_joint_degree_keys_view.py:12-22 | the keys of the reversed edges are the keys of the forward edges with their two halves exchanged |
| KeysView.ProposedKeysShareHalves | gcmpy/tools/joint_excess_joint_degree_keys_view.py:12-28 | each proposed key takes its first half from one existing edge key and its second half from the other |
| KeysView.KeyLengths | gcmpy/tools/joint_excess_joint_degree_keys_view.py:12-28 | when the four endpoint tuples share one length t, all six views have length 2t |
| KeysView.NoOpExactly | gcmpy/tools/joint_excess_joint_degree_keys_view.py:24-28 | when the four endpoint tuples share one length, a proposed key equals the existing key it replaces exactly when the two second endpoints have equal tuples |
| Mcmc.MarkovChainMonteCarlo.constructor | gcmpy/tools/markov_chain_monte_carlo.py:11-12 | both counters start at zero |
| Mcmc.MarkovChainMonteCarlo.CountedCall | gcmpy/tools/markov_chain_monte_carlo.py:22-28 | the wrapped proposal's outcome is passed through unchanged; the proposal count goes up by one and the accepted count goes up by one exactly when the proposal returned True |
| Mcmc.LogRatio | gcmpy/tools/markov_chain_monte_carlo_rewiring.py:365-368 | the intended logging step on the counters the decorator updates: one ratio is appended exactly at a multiple of 50 swaps with some proposal counted, earlier entries are kept, and the ratio is the share of accepted proposals, in [0, 1], positive exactly when one was accepted and 1 exactly when all were |
| PyText.NatTextValue | gcmpy/message_passing/message_passing_mixin.py:49 | the decimal text of a natural number reads back as that number and has no leading zero |
| PyText.ParseIntText | gcmpy/message_passing/message_passing_mixin.py:49 | `int` of the decimal text of any integer, negative ones included, gives back that integer |
| PyText.DigitsRoundTrip | gcmpy/message_passing/message_passing_mixin.py:49 | reading a run of digits from the text of a natural number, followed by text that cannot continue a number, gives back the number and leaves the rest untouched |
| PyText.SplitConcat | gcmpy/message_passing/message_passing_mixin.py:49-79 | splitting on a separator that the first piece does not contain yields that piece followed by the split of the rest |
| PyText.LiteralEvalRepr | gcmpy/joint_degree.py:193-196 | `ast.literal_eval` of the text `str` produces for an integer, list or tuple gives back the same value |
| PyText.ReprNoMinus | gcmpy/message_passing/message_passing_mixin.py:13-19 | the text of a value built from non-negative integers contains no '-', so it cannot be mistaken for a label separator |
| CoverLabels.Key | gcmpy/message_passing/message_passing_mixin.py:40 | an undirected edge is stored under its two endpoints in ascending order |
| CoverLabels.GetEdgeCoverLabel | gcmpy/message_passing/message_passing_mixin.py:30-40 | the label is returned exactly when the edge exists and carries a CoverLabel attribute, and is a KeyError otherwise |
| CoverLabels.CoverLabelSymmetric | gcmpy/message_passing/message_passing_mixin.py:30-40 | the label of edge <i,j> is the label of edge <j,i> |
| CoverLabels.SplitFour | gcmpy/message_passing/message_passing_mixin.py:13-15 | four pieces free of '-', joined by '-', split back into exactly those four pieces |
| CoverLabels.LabelPieces | gcmpy/message_passing/message_passing_mixin.py:13-19 | a label built from a key, non-negative vertex ids, their edges and an id splits on '-' into its four written pieces |
| CoverLabels.LabelRoundTrip | gcmpy/message_passing/message_passing_mixin.py:42-79 | for a label with non-negative vertex ids, the topology, the motif id, the vertex list and the edge list read back are the ones the label was built from |
| CoverLabels.NegativeVertexUnreadable | gcmpy/message_passing/message_passing_mixin.py:61-69 | for every key, edge list and id, a label whose vertex list holds a negative id anywhere splits at that id's minus sign, so reading its vertex list back is a SyntaxError |
| Graphs.Sorted | gcmpy/tools/markov_chain_monte_carlo_rewiring.py:360 | the sorted edge has its smaller endpoint first and is the edge itself or its reverse |
| Graphs.SortedSame | gcmpy/tools/markov_chain_monte_carlo_rewiring.py:359-360 | two edges sort to the same tuple exactly when they join the same two vertices |
| Graphs.NeighboursMeaning | gcmpy/tools/markov_chain_monte_carlo_rewiring.py:64 | in a consistently stored graph, the neighbours of u are exactly the vertices joined to u by an edge |
| Graphs.AddEdge | gcmpy/tools/markov_chain_monte_carlo_rewiring.py:416-418 | after adding an edge and setting its attributes the edge is present and the vertex joint degrees are unchanged |
| Graphs.RemoveEdge | gcmpy/tools/markov_chain_monte_carlo_rewiring.py:423-424 | removing an edge succeeds exactly when the edge is present (networkx raises otherwise); afterwards it is absent and the vertex joint degrees are unchanged |
| Graphs.AddEdgeEffect | gcmpy/tools/markov_chain_monte_carlo_rewiring.py:416-418 | adding a new edge keeps the graph consistent, adds one edge, adds its two endpoints to the endpoint bag and its label to the label bag |
| Graphs.AddEdgeExisting | gcmpy/tools/markov_chain_monte_carlo_rewiring.py:416-418 | adding an edge that is already present only relabels it: the edge set and the edge count are unchanged |
| Graphs.RemoveEdgeEffect | gcmpy/tools/markov_chain_monte_carlo_rewiring.py:423-424 | removing a present edge keeps the graph consistent and takes exactly one edge, its two endpoints and its label away |
| Graphs.DegreeOfMeaning | gcmpy/tools/markov_chain_monte_carlo_rewiring.py:64 | the degree computed by scanning the stored edges equals the number of edge ends at the vertex |
| Rewiring.OtherVertex | gcmpy/tools/markov_chain_monte_carlo_rewiring.py:155-164 | the other endpoint is returned exactly when u is an endpoint of e, and together with u it makes up e; a vertex not on e is an error |
| Rewiring.OtherVertexEnds | gcmpy/tools/markov_chain_monte_carlo_rewiring.py:155-159 | u and the returned vertex are the two ends of the edge, counted with multiplicity |
| Rewiring.GetAllEdges | gcmpy/tools/markov_chain_monte_carlo_rewiring.py:54-67 | the returned list names each edge at u0 that belongs to the drawn edge's motif exactly once, oriented as (u0, other end), and nothing else |
| Rewiring.DrawnEdgeInItsCorner | gcmpy/tools/markov_chain_monte_carlo_rewiring.py:371-373 | an edge drawn from the stored edges lies in the corner that get_all_edges builds around its first endpoint |
| Rewiring.GetHashmap | gcmpy/tools/markov_chain_monte_carlo_rewiring.py:69-81 | the map's keys are exactly the topologies that occur in the list, and each bucket lists the edges of that topology in their original order |
| Rewiring.HashmapPartitions | gcmpy/tools/markov_chain_monte_carlo_rewiring.py:69-81 | every listed edge falls in exactly the bucket of its own topology, once for each time it is listed |
| Rewiring.BucketMembers | gcmpy/tools/markov_chain_monte_carlo_rewiring.py:76-80 | an edge is in the bucket of topology t exactly when it is listed and has topology t |
| Rewiring.IsEdgeChoiceSuitable | gcmpy/tools/markov_chain_monte_carlo_rewiring.py:83-153 | the answer is true exactly when the corners have equal size, the same topologies in the same numbers, pairwise different motif ids, and no same-topology swap would create an edge already in the graph |
| Rewiring.BucketSizesAgree | gcmpy/tools/markov_chain_monte_carlo_rewiring.py:119-127 | with equal key sets, the check passes exactly when every topology has the same number of edges on both sides |
| Rewiring.MotifsDiffer | gcmpy/tools/markov_chain_monte_carlo_rewiring.py:129-138 | the zipped check passes exactly when no zipped pair of edges shares a motif id |
| Rewiring.TargetsAbsent | gcmpy/tools/markov_chain_monte_carlo_rewiring.py:140-152 | the check passes exactly when, for every same-topology pair of corner edges, neither edge the swap would create is already in the graph |
| Rewiring.TargetsAbsentFor | gcmpy/tools/markov_chain_monte_carlo_rewiring.py:142-152 | for one left edge, the check passes exactly when no right edge of its topology would lead to an existing edge |
| Rewiring.Excess | gcmpy/tools/markov_chain_monte_carlo_rewiring.py:174-179 | the excess vector equals the joint-degree vector except that the component at the topology's index is one less |
| Rewiring.JointExcessDegreeKey | gcmpy/tools/markov_chain_monte_carlo_rewiring.py:166-181 | the key is defined exactly when both endpoints carry a joint degree long enough for the index (KeyError for a missing vertex, IndexError for a short vector) and is as long as the two vectors together |
| Rewiring.SwappedKeysAgree | gcmpy/tools/markov_chain_monte_carlo_rewiring.py:183-209 | the six views of the swapped key are the excess keys of the edges (u0,u1), (v0,v1), (u0,v1) and (v0,u1) computed one edge at a time |
| Rewiring.ProposalPair | gcmpy/tools/markov_chain_monte_carlo_rewiring.py:211-226 | the two proposals of a pairing keep the topology and motif id of the edge each replaces, and propose (u0, v1) and (v0, u1) (also lines 274-275) |
| Rewiring.Proposals | gcmpy/tools/markov_chain_monte_carlo_rewiring.py:255-275 | the numerator loop records two proposals per pair |
| Rewiring.ProposalAt | gcmpy/tools/markov_chain_monte_carlo_rewiring.py:274-275 | proposal 2k is the (u0, v1) edge and proposal 2k+1 the (v0, u1) edge of pair k, each labelled as the edge it replaces |
| Rewiring.InsertProposalsShape | gcmpy/tools/markov_chain_monte_carlo_rewiring.py:410-419 | inserting the proposals succeeds exactly when none is in the graph already and no two name the same edge; then every old edge keeps its label and the only new edges are the proposed ones |
| Rewiring.InsertProposalsBags | gcmpy/tools/markov_chain_monte_carlo_rewiring.py:410-419 | a successful insertion adds one edge per proposal, their endpoints to the endpoint bag and their labels to the label bag |
| Rewiring.RemoveEdgesShape | gcmpy/tools/markov_chain_monte_carlo_rewiring.py:421-428 | removing the originals succeeds exactly when each is present and no two are the same edge; then exactly those edges are gone and every other edge keeps its label |
| Rewiring.RemoveEdgesBags | gcmpy/tools/markov_chain_monte_carlo_rewiring.py:421-428 | a successful removal takes away one edge per original, their endpoints and their labels |
| Rewiring.RemoveMissing | gcmpy/tools/markov_chain_monte_carlo_rewiring.py:423-424 | removing an edge that an earlier removal already took away fails |
| Rewiring.OriginalAt | gcmpy/tools/markov_chain_monte_carlo_rewiring.py:422-424 | the edges are removed in zipped order: the k-th left corner edge, then the k-th right corner edge |
| Rewiring.OriginalsBag | gcmpy/tools/markov_chain_monte_carlo_rewiring.py:422-424 | the removed edges are exactly the two corners, endpoints and labels included |
| Rewiring.SwapBalance | gcmpy/tools/markov_chain_monte_carlo_rewiring.py:258-275 | what the proposals add, in endpoints and in labels, is exactly what the removal of the originals takes away (also lines 410-428) |
| Rewiring.AcceptPreserves | gcmpy/tools/markov_chain_monte_carlo_rewiring.py:405-434 | an accepted swap keeps the number of edges, every vertex's degree, the bag of (topology, motif id) labels and the joint degrees |
| Rewiring.ProposalsFresh | gcmpy/tools/markov_chain_monte_carlo_rewiring.py:140-152 | when the corners passed the suitability check, in a graph without self-loops, no proposal is already in the graph and no two proposals coincide (also lines 410-419) |
| Rewiring.ProposalAbsent | gcmpy/tools/markov_chain_monte_carlo_rewiring.py:140-152 | a proposal built from a suitable pairing is not yet in the graph |
| Rewiring.ProposalsDiffer | gcmpy/tools/markov_chain_monte_carlo_rewiring.py:258-275 | two different proposals of a suitable pairing name different edges |
| Rewiring.CrossProposalsDiffer | gcmpy/tools/markov_chain_monte_carlo_rewiring.py:274-275 | the (u0, v1) and (v0, u1) proposals of one pair are different edges |
| Rewiring.OriginalsDiffer | gcmpy/tools/markov_chain_monte_carlo_rewiring.py:422-424 | the originals of two corners from different motifs are pairwise different edges |
| Rewiring.OriginalsPresent | gcmpy/tools/markov_chain_monte_carlo_rewiring.py:421-428 | every original is still present after the insertions |
| Rewiring.AcceptSucceeds | gcmpy/tools/markov_chain_monte_carlo_rewiring.py:405-434 | once a pairing of suitable corners is accepted in a graph without self-loops, the insertions, the removals and the edge-count check all succeed, so none of the accept step's errors can be raised |
| RewiringEngine.CollectMeaning | gcmpy/tools/markov_chain_monte_carlo_rewiring.py:258-309 | a loop that ran to the end holds, in order, every factor it met, and when zeros stop the loop none of them has a zero weight |
| RewiringEngine.ProductZero | gcmpy/tools/markov_chain_monte_carlo_rewiring.py:295-309 | the running product of weights is zero exactly when one of the weights is zero |
| RewiringEngine.NumeratorMeaning | gcmpy/tools/markov_chain_monte_carlo_rewiring.py:258-309 | a numerator computed to the end holds, for every matched pair, that pair's two proposed-key weights, none of them zero |
| RewiringEngine.Pop | gcmpy/tools/markov_chain_monte_carlo_rewiring.py:259-270 | the lookup of the topology index and the pop succeed exactly when the edge exists, its topology is named, and its bucket is present and non-empty, and then give the index and the bucket's last edge; every failure is one of the listed errors |
| RewiringEngine.PairPass | gcmpy/tools/markov_chain_monte_carlo_rewiring.py:259-306 | one numerator pass up to the product: the partner is the last edge of e0's bucket (RewiringEngine.Pop), then the pair's keys view; an exception from either is passed on, a swap that changes no key or a missing weight is a silent False, and otherwise it gives the partner and the two weights of the proposed keys (proved in PairPassFactor and PairPassErrors) |
| RewiringEngine.NumeratorPass | gcmpy/tools/markov_chain_monte_carlo_rewiring.py:258-309 | one pass of the numerator loop: the pair pass, then the product with the pair's factor; False when that product is zero (line 308), otherwise the bucket loses its last edge and the pair is recorded (proved in NumeratorPassShape) |
| RewiringEngine.NumeratorRun | gcmpy/tools/markov_chain_monte_carlo_rewiring.py:251-309 | the numerator loop from `top = 1.0` over the left edges in order, ending at the first early return; what a completed run holds is stated in NumeratorRunPairs and NumeratorRunProduct |
| RewiringEngine.DenominatorPass | gcmpy/tools/markov_chain_monte_carlo_rewiring.py:315-336 | one zipped pair: the left edge's topology index and key, then the right edge's; an exception is passed on, a missing weight is False, and otherwise both weights are multiplied in (proved in DenominatorPassShape) |
| RewiringEngine.DenominatorRun | gcmpy/tools/markov_chain_monte_carlo_rewiring.py:311-336 | the denominator loop from `bottom = 1.0` over `zip(e0s, e1s)`, ending at the first early return; DenominatorRunProduct states when it runs through and what it holds |
| RewiringEngine.SwapOutcome | gcmpy/tools/markov_chain_monte_carlo_rewiring.py:250-345 | what `swap_condition` returns: the numerator loop's early return, else the denominator loop's, else the engine's error for a zero bottom (lines 338-339), else whether `(top + 0.0) / bottom` exceeds the draw; SwapOutcomeMeaning states what True means |
| RewiringEngine.NumeratorPassPaired | gcmpy/tools/markov_chain_monte_carlo_rewiring.py:277-309 | after a pair pass went through, the numerator pass returns False exactly when the product with the pair's factor is zero, and otherwise pops the bucket and records the pair |
| RewiringEngine.PairPassFactor | gcmpy/tools/markov_chain_monte_carlo_rewiring.py:259-306 | a pair pass that went through popped the last edge of the bucket of e0's topology and found the pair's factor |
| RewiringEngine.PairPassErrors | gcmpy/tools/markov_chain_monte_carlo_rewiring.py:259-306 | every exception a pair pass raises is a KeyError, IndexError, TypeError, NameError or the engine's error |
| RewiringEngine.NumeratorPassShape | gcmpy/tools/markov_chain_monte_carlo_rewiring.py:258-309 | one numerator pass either stops with False or a listed error, or pops the bucket's last edge, pairs it with e0 and multiplies in the pair's non-zero factor |
| RewiringEngine.NumeratorRunLast | gcmpy/tools/markov_chain_monte_carlo_rewiring.py:258-309 | the loop over one more left edge is the loop so far followed by one more pass, unless it already stopped |
| RewiringEngine.NumeratorRunStopped | gcmpy/tools/markov_chain_monte_carlo_rewiring.py:258-309 | an early return of the numerator loop is its outcome: later edges change nothing |
| RewiringEngine.NumeratorPassPairs | gcmpy/tools/markov_chain_monte_carlo_rewiring.py:258-309 | one numerator pass keeps the pairing invariant: each left edge so far paired, in order, with a same-topology right edge popped from the hashmap |
| RewiringEngine.NumeratorRunPairs | gcmpy/tools/markov_chain_monte_carlo_rewiring.py:250-309 | a numerator loop that ran through has paired every left edge, in order, with a same-topology right edge popped from the hashmap; one that stopped returned False or raised a listed error |
| RewiringEngine.PairedStep | gcmpy/tools/markov_chain_monte_carlo_rewiring.py:259-275 | pairing e0 with the last edge of its bucket extends the pairing by e0 and keeps every right edge either in its bucket or taken |
| RewiringEngine.HashmapStart | gcmpy/tools/markov_chain_monte_carlo_rewiring.py:250-252 | before any pop, the hashmap accounts for every right edge in the bucket of its topology |
| RewiringEngine.NumeratorPassProduct | gcmpy/tools/markov_chain_monte_carlo_rewiring.py:294-309 | a numerator pass that keeps running multiplies one more factor into the product and keeps it non-zero |
| RewiringEngine.NumeratorRunProduct | gcmpy/tools/markov_chain_monte_carlo_rewiring.py:250-309 | a numerator loop that ran through holds the non-zero product of its pairs' factors |
| RewiringEngine.NumeratorSoFarStep | gcmpy/tools/markov_chain_monte_carlo_rewiring.py:258-309 | a numerator pass that went through extends the loop's description by one edge: one more pair, one more factor in the non-zero product, the state of the run over one more edge |
| RewiringEngine.DenominatorPassShape | gcmpy/tools/markov_chain_monte_carlo_rewiring.py:315-336 | one denominator pass continues exactly when both zipped edges have weights, multiplying them in; otherwise it returns False or a listed error |
| RewiringEngine.DenominatorRunLast | gcmpy/tools/markov_chain_monte_carlo_rewiring.py:311-336 | the loop over one more zipped pair is the loop so far followed by one more pass, unless it already returned |
| RewiringEngine.DenominatorRunHalted | gcmpy/tools/markov_chain_monte_carlo_rewiring.py:311-336 | an early return of the denominator loop is its outcome: later pairs change nothing |
| RewiringEngine.DenominatorStep | gcmpy/tools/markov_chain_monte_carlo_rewiring.py:325-329 | a pass over a pair with both weights extends the weights, the product and the run alike |
| RewiringEngine.DenominatorLast | gcmpy/tools/markov_chain_monte_carlo_rewiring.py:311-336 | the weights of the zipped pairs are those of all but the last followed by the last pair's, when every pair has both |
| RewiringEngine.DenominatorPartialStep | gcmpy/tools/markov_chain_monte_carlo_rewiring.py:315-336 | the pass after a running prefix multiplies in the last pair's weights when it has both, and otherwise returns |
| RewiringEngine.DenominatorRunStep | gcmpy/tools/markov_chain_monte_carlo_rewiring.py:311-336 | one more denominator pass keeps the loop's description: running exactly when every pair so far has both weights, with their product |
| RewiringEngine.DenominatorRunProduct | gcmpy/tools/markov_chain_monte_carlo_rewiring.py:311-336 | the denominator loop runs through exactly when every zipped pair has both weights, and then holds their product; an early return is False or a listed error |
| RewiringEngine.TalliesAccepted | gcmpy/tools/markov_chain_monte_carlo_rewiring.py:338-345 | two loops that ran through with a non-zero denominator and a ratio above the draw describe an accepted swap |
| RewiringEngine.SwapOutcomeMeaning | gcmpy/tools/markov_chain_monte_carlo_rewiring.py:250-345 | every exception swap_condition raises is one of the listed ones, and True means every left edge was paired with a right edge of its topology, the proposals are those pairs' new edges, both products are defined, the denominator is not zero and the ratio beats the draw |
| RewiringEngine.InsertFails | gcmpy/tools/markov_chain_monte_carlo_rewiring.py:410-415 | a proposal already in the graph ends the insertion loop with an error, whatever proposals follow |
| RewiringEngine.InsertExtendErr | gcmpy/tools/markov_chain_monte_carlo_rewiring.py:410-415 | once an insertion has failed, more proposals do not change the outcome |
| RewiringEngine.RemoveExtendErr | gcmpy/tools/markov_chain_monte_carlo_rewiring.py:421-424 | once a removal has failed, more removals do not change the outcome |
| RewiringEngine.Accept | gcmpy/tools/markov_chain_monte_carlo_rewiring.py:405-434 | the accept branch gives exactly the outcome of inserting the proposals, removing the zipped originals and checking the edge count; the draw set then holds exactly the graph's edges |
| RewiringEngine.InsertAll | gcmpy/tools/markov_chain_monte_carlo_rewiring.py:410-419 | the insertion loop gives exactly the result of inserting the proposals in order, fails only with the error raised for an edge already present, and keeps the draw set equal to the graph's edges |
| RewiringEngine.RemoveAll | gcmpy/tools/markov_chain_monte_carlo_rewiring.py:421-428 | the removal loop gives exactly the result of removing the zipped originals in order, fails only with networkx's error for a missing edge, and keeps the draw set equal to the graph's edges |
| RewiringEngine.RemovePair | gcmpy/tools/markov_chain_monte_carlo_rewiring.py:423-428 | one round of the removal loop removes e0 and then e1 from the graph and from the draw set |
| RewiringEngine.PreservedDegrees | gcmpy/tools/markov_chain_monte_carlo_rewiring.py:430-434 | graphs with equal endpoint bags give every vertex the same degree |
| RewiringEngine.Swaps | gcmpy/tools/markov_chain_monte_carlo_rewiring.py:362-407 | a run with convergence limit L accepts L+1 swaps when L is non-negative and none otherwise |
| RewiringEngine.SwapPreserves | gcmpy/tools/markov_chain_monte_carlo_rewiring.py:405-434 | a swap that the Metropolis test accepted and the accept branch carried out keeps the edge count, the endpoint bag, the label bag and the joint degrees of the original network |
| RewiringEngine.DefaultConvergenceLimit | gcmpy/tools/markov_chain_monte_carlo_rewiring.py:44-45 | the intended default limit is ten swaps per edge of the network |
| RewiringEngine.LimitsAsWritten | gcmpy/tools/markov_chain_monte_carlo_rewiring.py:38-52 | as written, construction succeeds exactly when the network, the ejks and a convergence limit are all given; the limit is the one given |
| RewiringEngine.Limits | gcmpy/tools/markov_chain_monte_carlo_rewiring.py:38-52 | construction succeeds exactly when the network and the ejks are given; a missing convergence limit becomes ten per edge and a missing search limit becomes 25 |
| RewiringEngine.DefaultLimitUnreachable | gcmpy/tools/markov_chain_monte_carlo_rewiring.py:44-45 | without a convergence limit the constructor as written always fails, while the intended reading uses ten times the number of edges |
| RewiringEngine.LimitsAgree | gcmpy/tools/markov_chain_monte_carlo_rewiring.py:41-47 | when a convergence limit is given, the constructor as written and the intended one agree |
| RewiringEngine.MarkovChainMonteCarloRewiring.constructor | gcmpy/tools/markov_chain_monte_carlo_rewiring.py:28-37 | a new rewiring engine keeps the given network, ejks and limits, and starts with no proposals, zero counters and no recorded ratios |
| RewiringEngine.MarkovChainMonteCarloRewiring.Rewire | gcmpy/tools/markov_chain_monte_carlo_rewiring.py:347-436 | a completed rewiring returns a graph with the network's edge count, endpoint bag, label bag, joint degrees and so every vertex's degree; it accepts exactly L+1 swaps for a convergence limit L; any failure is one of the errors the source can raise |
| RewiringEngine.MarkovChainMonteCarloRewiring.Round | gcmpy/tools/markov_chain_monte_carlo_rewiring.py:363-434 | one round of the outer loop keeps the graph equivalent to the network and the draw set equal to its edges, and counts one accepted swap exactly when it accepted one |
| RewiringEngine.MarkovChainMonteCarloRewiring.Attempt | gcmpy/tools/markov_chain_monte_carlo_rewiring.py:405-434 | a rejected swap leaves the graph alone; an accepted one keeps it equivalent to the network and the draw set in step |
| RewiringEngine.MarkovChainMonteCarloRewiring.Search | gcmpy/tools/markov_chain_monte_carlo_rewiring.py:375-401 | the partner search returns corners that pass the suitability check, or stops after the search limit |
| RewiringEngine.MarkovChainMonteCarloRewiring.AppendProposalEdges | gcmpy/tools/markov_chain_monte_carlo_rewiring.py:211-226 | a proposal is appended exactly when u0 lies on the new edge; it keeps the old edge's topology and motif id and is oriented away from u0; otherwise the list is unchanged |
| RewiringEngine.MarkovChainMonteCarloRewiring.SwapCondition | gcmpy/tools/markov_chain_monte_carlo_rewiring.py:228-345 | every call counts one proposal and counts one acceptance exactly when it returns True; True means every left edge was paired with a right edge of its topology, the proposals are those pairs' new edges, both products are defined, the denominator is not zero and their ratio beats the random draw; its result is exactly RewiringEngine.SwapOutcome of its inputs |
| RewiringEngine.MarkovChainMonteCarloRewiring.SwapTest | gcmpy/tools/markov_chain_monte_carlo_rewiring.py:250-345 | the undecorated test returns exactly RewiringEngine.SwapOutcome of the network, the corners and the draw, and True only for an accepted swap as described for SwapCondition |
| RewiringEngine.MarkovChainMonteCarloRewiring.NumeratorLoop | gcmpy/tools/markov_chain_monte_carlo_rewiring.py:250-309 | the loop's early return, or its running product and pairs, are exactly those of RewiringEngine.NumeratorRun over the v-corner hashmap; a loop that runs to the end has paired each left edge with a same-topology right edge, recorded exactly those pairs' proposals and multiplied their nonzero weights; otherwise it returns False or one of the source's errors |
| RewiringEngine.MarkovChainMonteCarloRewiring.PairNext | gcmpy/tools/markov_chain_monte_carlo_rewiring.py:258-309 | one pass of the numerator loop is exactly RewiringEngine.NumeratorPass: it stops with False or a listed error, or pairs e0 with a popped right edge of its topology, records the pair's proposals and multiplies in the pair's factor, keeping the product non-zero |
| RewiringEngine.MarkovChainMonteCarloRewiring.PopPartner | gcmpy/tools/markov_chain_monte_carlo_rewiring.py:259-275 | the lookup and pop fail exactly when RewiringEngine.Pop does, with its error; otherwise the partner is the last edge of its topology's bucket, the bucket loses exactly that edge, the partner is a remaining right edge of the same topology, and the proposals grow by that pair |
| RewiringEngine.MarkovChainMonteCarloRewiring.PopFrom | gcmpy/tools/markov_chain_monte_carlo_rewiring.py:259-270 | the topology index lookup and the pop fail exactly when RewiringEngine.Pop does, with the same error (the index error, KeyError for a missing bucket, the engine's error for an empty one); otherwise the popped edge is the last of the bucket, the bucket loses exactly it, and it is a right edge of that topology not yet taken |
| RewiringEngine.MarkovChainMonteCarloRewiring.PopLast | gcmpy/tools/markov_chain_monte_carlo_rewiring.py:262-270 | `hashmap_e1s[topology].pop()` fails with KeyError exactly when the bucket is missing and with the engine's error exactly when it is empty; otherwise it returns the bucket's last edge and the bucket without it |
| RewiringEngine.MarkovChainMonteCarloRewiring.ProposePair | gcmpy/tools/markov_chain_monte_carlo_rewiring.py:274-275 | the two append_proposal_edges calls of one pair extend the proposals by that pair's two new edges |
| RewiringEngine.MarkovChainMonteCarloRewiring.FactorOf | gcmpy/tools/markov_chain_monte_carlo_rewiring.py:277-306 | an exception is raised exactly when the keys view fails, and is that error; False is returned exactly when the swapped keys change nothing or one of the two weights is missing; otherwise the two weights are those of the proposed keys, the pair's factor |
| RewiringEngine.MarkovChainMonteCarloRewiring.DenominatorLoop | gcmpy/tools/markov_chain_monte_carlo_rewiring.py:311-336 | the loop's early return or its product is exactly that of RewiringEngine.DenominatorRun over the zipped corners; a loop that runs to the end has multiplied exactly the weights of the zipped corner pairs; a missing weight returns False |
| RewiringEngine.MarkovChainMonteCarloRewiring.ZipWeights | gcmpy/tools/markov_chain_monte_carlo_rewiring.py:315-336 | the step continues exactly when both zipped edges have a weight under their own topology, and then returns those two weights; its outcome is the denominator pass from any running product |
| RewiringEngine.MarkovChainMonteCarloRewiring.New | gcmpy/tools/markov_chain_monte_carlo_rewiring.py:28-52 | construction succeeds exactly when the network and the ejks are given, and fails with the engine's own error otherwise; the limits are the given ones, or ten swaps per edge and 25 searches by default; the proposals, counters and recorded ratios start empty |
| RewiringEngine.RatiosNeverRecorded | gcmpy/tools/markov_chain_monte_carlo_rewiring.py:365-368 | as written, a constructed engine that completes its rewiring has logged no acceptance ratio at all, while the class counters show the L+1 accepted swaps and a positive proposal count (the counters the log reads are set to 0 at lines 35-36 and never changed) |
| RewiringEngine.MarkovChainMonteCarloRewiring.FillPool | gcmpy/tools/markov_chain_monte_carlo_rewiring.py:356-360 | the draw set starts out holding exactly the network's edges, each under its sorted tuple |
| RewiringLegacy.OtherNode | gcmpy/tools/MCMC_rewiring.py:120-126 | the other endpoint is returned exactly when u lies on e; otherwise the raised string is refused by Python with a TypeError |
| RewiringLegacy.CheckZipSuitable | gcmpy/tools/MCMC_rewiring.py:65-118 | the answer is true exactly when the corners have equal size and equal topology counts and every zipped pair has different motif ids and creates no edge already present |
| RewiringLegacy.ZipPairsSuitable | gcmpy/tools/MCMC_rewiring.py:107-118 | the zipped loop passes exactly when every zipped pair is suitable |
| RewiringLegacy.SuitableTargetsAbsent | gcmpy/tools/MCMC_rewiring.py:107-117 | suitable corners create no edge that is already in the graph, on either side |
| RewiringLegacy.NewerSuitableSuffices | gcmpy/tools/MCMC_rewiring.py:65-118 | corners listed in matching topology order that pass the newer engine's suitability check also pass the legacy zipped check (also lines 83-153 of gcmpy/tools/markov_chain_monte_carlo_rewiring.py) |
| RewiringLegacy.SwappedKeyPairMeaning | gcmpy/tools/MCMC_rewiring.py:145-170 | the legacy swapped keys exist exactly when the newer key view does, and are the excess keys of (u0, v1) and (u1, v0) |
| RewiringLegacy.NumeratorRunPairs | gcmpy/tools/MCMC_rewiring.py:189-214 | while the numerator loop runs, each left edge seen so far is paired, by position, with a distinct right edge of the same topology |
| RewiringLegacy.NumeratorPartners | gcmpy/tools/MCMC_rewiring.py:194-199 | the right edges popped by the numerator loop are drawn from the right corner, each at most as often as it occurs there |
| RewiringLegacy.NumeratorRunStopped | gcmpy/tools/MCMC_rewiring.py:194-214 | once the numerator loop has returned, later left edges change nothing |
| RewiringLegacy.DenominatorRunTopologies | gcmpy/tools/MCMC_rewiring.py:217-223 | a denominator loop that runs to the end met only zipped pairs of equal topology |
| RewiringLegacy.DenominatorRunHalted | gcmpy/tools/MCMC_rewiring.py:217-237 | once the denominator loop has returned or raised, later pairs change nothing |
| RewiringLegacy.NumeratorRun | gcmpy/tools/MCMC_rewiring.py:189-214 | the first version's numerator loop from `top = 1.0` over the left edges in order, ending at the first early return; NumeratorRunPairs, NumeratorPartners and NumeratorRunStopped state its meaning |
| RewiringLegacy.DenominatorRun | gcmpy/tools/MCMC_rewiring.py:216-237 | the first version's denominator loop over `zip(e0s, e1s)`: a topology mismatch raises a string (a TypeError), a missing weight is False, and otherwise both weights under the shared topology are multiplied in; DenominatorRunTopologies and DenominatorRunHalted state its meaning |
| RewiringLegacy.SwapOutcome | gcmpy/tools/MCMC_rewiring.py:189-245 | what the first version's `swap_condition` returns: the numerator's early return, else the denominator's, else a TypeError for a zero bottom (line 239), else whether the ratio exceeds the draw; SwapOutcomeShape and SwapOutcomeMeaning state its meaning |
| RewiringLegacy.SwapOutcomeShape | gcmpy/tools/MCMC_rewiring.py:189-245 | the outcome is the numerator's early return, else the denominator's early return, else a TypeError on a zero denominator, else the Metropolis comparison |
| RewiringLegacy.SwapOutcomeMeaning | gcmpy/tools/MCMC_rewiring.py:172-245 | the test returns False or one of the source's errors, or True; True means every left edge was paired by position with a same-topology right edge and the zipped corners agree in topology |
| RewiringLegacy.MismatchedOrderRaises | gcmpy/tools/MCMC_rewiring.py:107-118 | corners whose topologies appear in different orders pass the suitability check and the numerator loop, yet the denominator raises a string and so a TypeError (also lines 217-223) |
| RewiringLegacy.MoveCorner | gcmpy/tools/MCMC_rewiring.py:300-322 | moving a corner keeps every existing edge and the joint degrees |
| RewiringLegacy.MoveCornerCount | gcmpy/tools/MCMC_rewiring.py:300-322 | moving a corner adds at most one edge per corner edge |
| RewiringLegacy.MoveCornerFresh | gcmpy/tools/MCMC_rewiring.py:300-322 | when every add was new, the endpoint and label bags grow by exactly the moved edges |
| RewiringLegacy.MoveCornerPlaces | gcmpy/tools/MCMC_rewiring.py:300-322 | when every add was new, each moved edge is in the graph, was not there before, and carries the labels of the corner edge it copies |
| RewiringLegacy.MovedBalance | gcmpy/tools/MCMC_rewiring.py:300-338 | the edges the two moves add have the same endpoints and labels, together, as the zipped originals that are removed |
| RewiringLegacy.AcceptStepParts | gcmpy/tools/MCMC_rewiring.py:297-343 | a successful accept step is the two moves followed by the zipped removals and leaves the starting number of edges |
| RewiringLegacy.AcceptStepCounts | gcmpy/tools/MCMC_rewiring.py:300-343 | in a successful accept step each move added exactly one new edge per corner edge |
| RewiringLegacy.AcceptStepPreserves | gcmpy/tools/MCMC_rewiring.py:297-343 | a successful accept step keeps the edge count, the endpoint bag, the label bag and the joint degrees |
| RewiringLegacy.AcceptStepMoves | gcmpy/tools/MCMC_rewiring.py:300-338 | after a successful accept step each moved edge is in the graph with the labels of the corner edge it replaced |
| RewiringLegacy.MoveCornerIn | gcmpy/tools/MCMC_rewiring.py:300-322 | the add loop builds exactly the moved graph and keeps the draw set equal to its edges |
| RewiringLegacy.AddIn | gcmpy/tools/MCMC_rewiring.py:304-310 | one add joins the other focal vertex to the corner edge's far end, with that edge's labels, and adds the sorted edge to the draw set |
| RewiringLegacy.Accept | gcmpy/tools/MCMC_rewiring.py:297-343 | the accept branch yields exactly the accept step's outcome and keeps the draw set equal to the graph's edges; failures are networkx's missing-edge error or the TypeError of a raised string |
| RewiringLegacy.MarkovChainMonteCarlo.constructor | gcmpy/tools/MCMC_rewiring.py:24-29 | the engine keeps the given network, ejks and limits |
| RewiringLegacy.MarkovChainMonteCarlo.New | gcmpy/tools/MCMC_rewiring.py:24-31 | construction succeeds exactly when all four parameters are present; a missing one ends in a TypeError, because the constructor raises a string |
| RewiringLegacy.MarkovChainMonteCarlo.Rewire | gcmpy/tools/MCMC_rewiring.py:247-343 | a rewiring that returns normally leaves the network, changed in place, with its edge count, endpoint bag, label bag, joint degrees and vertex degrees, after exactly L+1 accepted swaps for a convergence limit L |
| RewiringLegacy.MarkovChainMonteCarlo.Round | gcmpy/tools/MCMC_rewiring.py:264-343 | one round of the outer loop keeps the graph equivalent to where it started and the draw set in step; without an accepted swap the graph is unchanged |
| RewiringLegacy.MarkovChainMonteCarlo.Search | gcmpy/tools/MCMC_rewiring.py:271-291 | the partner search returns corners that pass the suitability check, or stops after the search limit |
| RewiringLegacy.MarkovChainMonteCarlo.Attempt | gcmpy/tools/MCMC_rewiring.py:295-343 | a rejected swap leaves the graph alone; an accepted one keeps it equivalent and the draw set in step |
| RewiringLegacy.MarkovChainMonteCarlo.SwapCondition | gcmpy/tools/MCMC_rewiring.py:172-245 | the method computes exactly the swap outcome specified by SwapOutcome, failing only with the errors the source can raise |
| RewiringLegacy.MarkovChainMonteCarlo.NumeratorLoop | gcmpy/tools/MCMC_rewiring.py:189-214 | the numerator loop computes exactly the specified run over the left corner |
| RewiringLegacy.MarkovChainMonteCarlo.PairNext | gcmpy/tools/MCMC_rewiring.py:195-214 | one pass of the numerator loop is exactly the specified step |
| RewiringLegacy.MarkovChainMonteCarlo.DenominatorLoop | gcmpy/tools/MCMC_rewiring.py:216-237 | the denominator loop computes exactly the specified run over the zipped corners |
| RewiringLegacy.MarkovChainMonteCarlo.ZipPass | gcmpy/tools/MCMC_rewiring.py:217-237 | one pass of the denominator loop is exactly the specified step |
| EjkMatrices.FirstHalf | gcmpy/tools/joint_excess_joint_degree_matrices.py:34-35 | the first half has length len // 2 and, followed by the second half, gives back the key |
| EjkMatrices.SecondHalf | gcmpy/tools/joint_excess_joint_degree_matrices.py:34-36 | the second half takes the rest, one longer than the first for a key of odd length |
| EjkMatrices.HalvesOfAdd | gcmpy/tools/joint_excess_joint_degree_matrices.py:32-38 | adding one more key to the set adds exactly its two halves |
| EjkMatrices.CollectHalves | gcmpy/tools/joint_excess_joint_degree_matrices.py:31-38 | the collected set is exactly the set of first and second halves of the topology's keys |
| EjkMatrices.TopologyIndex | gcmpy/tools/joint_excess_joint_degree_matrices.py:17-22 | the index is found exactly when the topology is named, and it is the first position holding that name; with no names the error is the NameError of the unbound loop variable, otherwise the TypeError of raising a string |
| EjkMatrices.SetToList | gcmpy/tools/joint_excess_joint_degree_matrices.py:40 | the list holds every element of the set exactly once and nothing else |
| EjkMatrices.JointExcessJointDegreeMatrices.constructor | gcmpy/tools/joint_excess_joint_degree_matrices.py:5-15 | without parameters all three attributes are empty; with parameters the ejks and names are the given ones and the excess-degree keys are computed |
| EjkMatrices.JointExcessJointDegreeMatrices.GetTopologyIndex | gcmpy/tools/joint_excess_joint_degree_matrices.py:17-22 | the method returns the index specified by TopologyIndex |
| EjkMatrices.JointExcessJointDegreeMatrices.GetExcessDegreeKeys | gcmpy/tools/joint_excess_joint_degree_matrices.py:24-40 | afterwards there is one key list per topology, with no duplicate, holding exactly the halves of that topology's keys |
| EjkExtraction.SpreadAdd | gcmpy/tools/joint_excess_joint_degree.py:91-92 | one more occurrence of a key adds 1/d to that key's weight and leaves the other weights alone |
| EjkExtraction.SpreadTotal | gcmpy/tools/joint_excess_joint_degree.py:90-92 | the weights of a spread bag add up to its size over d |
| EjkExtraction.SpreadTotalOne | gcmpy/tools/joint_excess_joint_degree.py:90-92 | spread over its own size, a bag's weights add up to one |
| EjkExtraction.AccumulateEnd | gcmpy/tools/joint_excess_joint_degree.py:72-94 | once every edge is visited, in whatever order, the accumulated weights are each key's multiplicity over d, or nothing at all when d is zero |
| EjkExtraction.EdgeKeys | gcmpy/tools/joint_excess_joint_degree.py:76-88 | computing an edge's two keys fails only with KeyError (an endpoint without a joint degree) or IndexError (a vector too short for the index) |
| EjkExtraction.LabelledRemove | gcmpy/tools/joint_excess_joint_degree.py:58-61 | removing an edge lowers the count of its own topology by one and leaves the other counts alone |
| EjkExtraction.KeyBagSize | gcmpy/tools/joint_excess_joint_degree.py:73-92 | every edge of the topology contributes exactly two keys, so the key bag has twice as many keys as such edges |
| EjkExtraction.EjkSymmetric | gcmpy/tools/joint_excess_joint_degree.py:87-92 | for joint degrees of one common length, the pattern gives the key a+b and the key b+a the same weight |
| EjkExtraction.EjkTotal | gcmpy/tools/joint_excess_joint_degree.py:90-92 | when the count is the number of edges of the topology and there is at least one, the weights add up to one |
| EjkExtraction.EjkWeight | gcmpy/tools/joint_excess_joint_degree.py:90-92 | each key weighs its number of occurrences over twice the stored count |
| EjkExtraction.KeyBagOrigin | gcmpy/tools/joint_excess_joint_degree.py:73-92 | every key in the pattern is one of the two keys of some edge of the topology |
| EjkExtraction.EjkLoopEnd | gcmpy/tools/joint_excess_joint_degree.py:72-94 | when the loop finishes, every edge of the topology had its keys, the count was positive if such an edge exists, and the map built is the pattern |
| EjkExtraction.EjkEdgeFails | gcmpy/tools/joint_excess_joint_degree.py:76-85 | one edge of the topology without keys means the pattern cannot be computed |
| EjkExtraction.ExcessKeysInverse | gcmpy/tools/joint_excess_joint_degree.py:43-51 | k is an excess key of topology i exactly when its component i is non-negative and raising that component by one gives a degree key |
| EjkExtraction.ResolvedKeys | gcmpy/tools/joint_excess_joint_degree.py:38-51 | the keys resolve exactly when every degree key is long enough for every topology, and an IndexError otherwise; then there is one set per topology, the excess keys of that topology |
| EjkExtraction.EjkStore.constructor | gcmpy/tools/joint_excess_joint_degree.py:10 | the shared list of patterns starts empty |
| EjkExtraction.JointExcessJointDegreeDistribution.constructor | gcmpy/tools/joint_excess_joint_degree.py:21-36 | the extractor keeps the network, the names and the degree keys, and starts with a zero count per topology |
| EjkExtraction.JointExcessJointDegreeDistribution.New | gcmpy/tools/joint_excess_joint_degree.py:21-36 | construction succeeds exactly when the network and the names are given, every node has a joint degree if no jdd is given, and the keys resolve; a failure in the guarded block is a TypeError, a resolution failure an IndexError; the degree keys are the jdd's keys or the nodes' distinct vectors |
| EjkExtraction.JointExcessJointDegreeDistribution.ResolveExcessDegreeKeys | gcmpy/tools/joint_excess_joint_degree.py:38-51 | resolution succeeds exactly when every degree key is long enough for every topology, and then stores one set of excess keys per topology; on an IndexError the sets of the earlier topologies stay behind |
| EjkExtraction.JointExcessJointDegreeDistribution.ExcessKeysAt | gcmpy/tools/joint_excess_joint_degree.py:45-51 | the inner loop succeeds exactly when every degree key has component i, and then yields the excess keys of topology i |
| EjkExtraction.JointExcessJointDegreeDistribution.CountEdgeTypes | gcmpy/tools/joint_excess_joint_degree.py:53-61 | every topology's count grows by the number of edges of that topology, so a second call doubles the counts |
| EjkExtraction.JointExcessJointDegreeDistribution.CountLabelled | gcmpy/tools/joint_excess_joint_degree.py:59-61 | the inner loop counts exactly the edges of the given topology |
| EjkExtraction.JointExcessJointDegreeDistribution.GetEjk | gcmpy/tools/joint_excess_joint_degree.py:63-94 | the pattern is computed exactly when every edge of the topology has its keys and the stored count is positive if such an edge exists; it then is each key's multiplicity over twice the count; otherwise the error is IndexError or ZeroDivisionError as the source raises |
| EjkExtraction.JointExcessJointDegreeDistribution.GetEjks | gcmpy/tools/joint_excess_joint_degree.py:96-103 | the counts are updated first, then the pattern of each topology is appended in order to the shared list, keeping what was there; the list is returned when every topology succeeds |
| EjkExtraction.GetExcessDegreeEjk | gcmpy/tools/joint_excess_degree.py:5-32 | the loop computes exactly the excess-degree pattern: each (j,k) weighs its occurrences over twice the number of edges |
| EjkExtraction.ExcessDegreeEnd | gcmpy/tools/joint_excess_degree.py:18-30 | once every edge is visited, the accumulated weights are the network's excess-degree pattern |
| EjkExtraction.ExcessDegreeSymmetric | gcmpy/tools/joint_excess_degree.py:26-30 | the excess-degree pattern gives (j,k) and (k,j) the same weight |
| EjkExtraction.DegreeBagSize | gcmpy/tools/joint_excess_degree.py:18-30 | each edge contributes two keys, so there are twice as many keys as edges |
| EjkExtraction.ExcessDegreeTotal | gcmpy/tools/joint_excess_degree.py:15-32 | the weights add up to one, or to zero for a network without edges |
| EjkExtraction.ExcessDegreeOrigin | gcmpy/tools/joint_excess_degree.py:18-30 | every key in the pattern is the pair of excess degrees of some edge's endpoints, in one order or the other |
| Motifs.Fan | gcmpy/motif_generators/clique_motif.py:10 | the pairs of one vertex with each later vertex, in list order |
| Motifs.CliqueLength | gcmpy/motif_generators/clique_motif.py:4-10 | n vertices give n(n-1)/2 pairs |
| Motifs.CliqueMembers | gcmpy/motif_generators/clique_motif.py:4-10 | (a, b) is a pair of the clique exactly when a comes before b in the vertex list (also lines 38-44 of gcmpy/motif_generators.py) |
| Motifs.CliqueEnds | gcmpy/motif_generators/clique_motif.py:10 | every pair joins two of the given vertices |
| Motifs.CliqueNoLoops | gcmpy/motif_generators/clique_motif.py:10 | distinct vertices give no self-loop |
| Motifs.CliqueDistinct | gcmpy/motif_generators/clique_motif.py:10 | distinct vertices give pairwise different unordered pairs and no self-loop |
| Motifs.Path | gcmpy/motif_generators/cycle_motif.py:13-15 | the zipped pairs are the consecutive pairs of the list |
| Motifs.CycleMotif | gcmpy/motif_generators/cycle_motif.py:4-17 | an empty list is an IndexError; otherwise the cycle has one edge per vertex (also lines 24-36 of gcmpy/motif_generators.py) |
| Motifs.PathEnds | gcmpy/motif_generators/cycle_motif.py:13-15 | the path meets every vertex twice except its first and last, which it meets once |
| Motifs.CycleEnds | gcmpy/motif_generators/cycle_motif.py:13-16 | every occurrence of a vertex in the list puts it at exactly two edge ends of the cycle |
| Motifs.CycleDegreeTwo | gcmpy/motif_generators/cycle_motif.py:13-16 | on two or more distinct vertices, every vertex has degree two in the cycle |
| Motifs.CycleSmall | gcmpy/motif_generators/cycle_motif.py:13-16 | one vertex gives the self-loop (v, v); two vertices give the same pair twice |
| Motifs.DiamondMotif | gcmpy/motif_generators/diamond_motif.py:5-18 | the diamond exists exactly for four vertices; fewer is the TypeError of raising a string, more the ValueError of the four-way unpacking (also lines 46-61 of gcmpy/motif_generators.py) |
| Motifs.UnorderedPairs | gcmpy/motif_generators/diamond_motif.py:14-17 | two unordered pairs are equal exactly when they match in one order or the other |
| Motifs.DiamondShape | gcmpy/motif_generators/diamond_motif.py:14-17 | the diamond of n0..n3 is the cycle n0-n1-n2-n3 closed by (n0, n3), then the chords (n0, n2) and (n1, n3) |
| Motifs.FourDistinct | gcmpy/motif_generators/diamond_motif.py:14 | four vertices without duplicates are pairwise different |
| Motifs.DiamondDistinct | gcmpy/motif_generators/diamond_motif.py:14-17 | on distinct vertices no two of the six edges are the same unordered pair |
| Motifs.DiamondCovers | gcmpy/motif_generators/diamond_motif.py:14-17 | every pair of the four vertices is one of the six edges, so the diamond is a 4-clique |
| Motifs.DiamondEnds | gcmpy/motif_generators/diamond_motif.py:14-17 | on distinct vertices the diamond has six edges, each joining two different vertices of the four |
| Motifs.Insert | gcmpy/gcm_algorithm.py:21 | insertion adds exactly the one vertex |
| Motifs.InsertAscending | gcmpy/gcm_algorithm.py:21 | inserting into an ascending list keeps it ascending |
| Motifs.SortNodes | gcmpy/gcm_algorithm.py:21-39 | sorting gives the same vertices in ascending order |
| Motifs.SortedCliquePairs | gcmpy/gcm_algorithm.py:27-31 | every pair of the older, sorting clique builder has its smaller vertex first and joins two of the given vertices |
| Motifs.SortedCycleShape | gcmpy/gcm_algorithm.py:14-24 | the older cycle has one edge per vertex, each with its smaller vertex first, and is closed by the pair (smallest, largest) |
| Motifs.AscendingCycle | gcmpy/gcm_algorithm.py:19-24 | on an ascending list the closing edge is (first, last), which are the smallest and largest vertices |
| Motifs.SortedDiamondAgrees | gcmpy/gcm_algorithm.py:32-45 | the older diamond rejects exactly the lists the current one rejects, with the same error when the length is not four (also lines 5-18 of gcmpy/motif_generators/diamond_motif.py) |
| Common.ChunksFlatten | gcmpy/gcm_algorithm/gcm_algorithm.py:56 | the groups the grouper cuts, concatenated, give back the whole stub list |
| Common.ChunksCount | gcmpy/gcm_algorithm/gcm_algorithm.py:56 | a list of length L is cut into ceil(L / n) groups |
| Common.ChunksSizes | gcmpy/gcm_algorithm/gcm_algorithm.py:56 | every group has between 1 and n vertices, all but the last exactly n, and all exactly n when n divides the length |
| Common.ChunksExact | gcmpy/gcm_algorithm/gcm_algorithm.py:56 | when n divides the length there are exactly L / n full groups |
| Stubs.Columns | gcmpy/gcm_algorithm/gcm_algorithm.py:37-38 | zip(*jds) yields as many columns as the shortest row has entries, and none for an empty sequence |
| Stubs.StubCount | gcmpy/gcm_algorithm/gcm_algorithm.py:37-38 | vertex v occurs in stub list k exactly jds[v][k] times, and no other value occurs |
| Stubs.StubLength | gcmpy/gcm_algorithm/gcm_algorithm.py:37-38 | stub list k is as long as column k's total |
| Stubs.StubVertices | gcmpy/gcm_algorithm/gcm_algorithm.py:37-38 | every stub is a vertex 0 .. N-1 |
| Stubs.AllStubs | gcmpy/gcm_algorithm/gcm_algorithm.py:37-38 | there is one stub list per column zip yields |
| Stubs.ShuffledCount | gcmpy/gcm_algorithm/gcm_algorithm.py:40-42 | after shuffling, vertex v still occurs jds[v][k] times in list k, and every stub is a vertex |
| Stubs.Shuffle | gcmpy/gcm_algorithm/gcm_algorithm.py:42 | a shuffle returns a permutation of the list |
| Stubs.ShuffledStubs | gcmpy/gcm_algorithm/gcm_algorithm.py:37-42 | the generators start from one permutation of every column's stub list (also lines 35-40 of gcmpy/gcm_algorithm/gcm_algorithm_fast.py) |
| Gcm.VerticesInPrefix | gcmpy/gcm_algorithm/gcm_algorithm.py:62-63 | a prefix of a group holds only vertices of the group |
| Gcm.ChunksIn | gcmpy/gcm_algorithm/gcm_algorithm.py:56 | the groups cut from a stub list hold only vertices of the graph |
| Gcm.KeySet | gcmpy/gcm_algorithm/gcm_algorithm.py:59 | an edge of the simple graph is stored once, under its sorted pair |
| Gcm.KeySetConcat | gcmpy/gcm_algorithm/gcm_algorithm.py:59 | the edges of two lists added in turn are the union of their edges |
| Gcm.AddEdgesEffect | gcmpy/gcm_algorithm/gcm_algorithm.py:59 | add_edges_from adds exactly the new unordered pairs and keeps the attributes of edges already present |
| Gcm.NameEdgesEffect | gcmpy/gcm_algorithm/gcm_algorithm.py:66-68 | naming a motif's edges sets the topology name of exactly those edges and changes no other edge |
| Gcm.Increment | gcmpy/gcm_algorithm/gcm_algorithm.py:62-63 | counting a motif keeps the shape of the joint-degree table |
| Gcm.IncrementCount | gcmpy/gcm_algorithm/gcm_algorithm.py:62-63 | entry k of vertex n grows by the number of times n occurs in the group; no other entry changes |
| Gcm.PlaceGroup | gcmpy/gcm_algorithm/gcm_algorithm.py:56-68 | placing one motif keeps one joint-degree vector of the motif-size width per vertex |
| Gcm.PlaceGroups | gcmpy/gcm_algorithm/gcm_algorithm.py:56-68 | placing the motifs of one stub list keeps the shape of the joint-degree table |
| Gcm.PlaceColumns | gcmpy/gcm_algorithm/gcm_algorithm.py:54-68 | placing every topology's motifs keeps the shape of the joint-degree table |
| Gcm.PlacedSized | gcmpy/gcm_algorithm/gcm_algorithm.py:54-56 | placing the stub lists succeeds only when each has a motif size and it is positive (grouper refuses 0 with ValueError) |
| Gcm.ColumnStep | gcmpy/gcm_algorithm/gcm_algorithm.py:54-56 | one stub list's groups lie in the graph, and the rest of the lists are placed on the network they give |
| Gcm.EmptyNetwork | gcmpy/gcm_algorithm/gcm_algorithm.py:45-51 | the new graph has vertices 0 .. N-1, each with an all-zero joint-degree vector, and no edges |
| Gcm.AddMotif | gcmpy/gcm_algorithm/gcm_algorithm.py:58-68 | the loop body builds the motif, counts it at its vertices and names its edges, as PlaceGroup says; a missing builder or edge name raises IndexError and a failing builder passes its error on |
| Gcm.RandomClusteredGraph | gcmpy/gcm_algorithm/gcm_algorithm.py:30-71 | the networkx generator returns the graph its shuffled stub lists determine |
| Gcm.GeneratedSized | gcmpy/gcm_algorithm/gcm_algorithm.py:54-56 | the networkx generator returns a graph only when every stub list has a positive motif size, and a first motif size of 0 raises ValueError (grouper refuses it) |
| Gcm.AddMotifs | gcmpy/gcm_algorithm/gcm_algorithm.py:56-68 | the inner loop places the groups of one stub list in order |
| Gcm.PlaceGroupCounts | gcmpy/gcm_algorithm/gcm_algorithm.py:62-63 | a placed motif adds one to entry k of each of its vertices per occurrence in the group |
| Gcm.PlaceGroupsCounts | gcmpy/gcm_algorithm/gcm_algorithm.py:56-63 | the motifs of stub list k add to entry k of vertex n the number of times n occurs in the list |
| Gcm.PlaceColumnsCounts | gcmpy/gcm_algorithm/gcm_algorithm.py:54-63 | every entry of a vertex's vector grows by its number of stubs in that topology's list |
| Gcm.GeneratedJointDegrees | gcmpy/gcm_algorithm/gcm_algorithm.py:30-71 | every vertex n ends with joint degree jds[n][k] in each topology k zip reaches, and 0 beyond |
| Gcm.FastRandomClusteredGraph | gcmpy/gcm_algorithm/gcm_algorithm_fast.py:28-54 | the fast generator returns the builder outputs concatenated in topology order and then group order; it succeeds only when every stub list has a positive motif size, and a first motif size of 0 raises ValueError |
| Gcm.ExtendGroups | gcmpy/gcm_algorithm/gcm_algorithm_fast.py:48-51 | the inner loop appends the builder outputs of one stub list's groups in order |
| Gcm.FastSized | gcmpy/gcm_algorithm/gcm_algorithm_fast.py:46-48 | the fast generator succeeds only when each stub list has a motif size and it is positive |
| Gcm.GroupsAgree | gcmpy/gcm_algorithm/gcm_algorithm.py:56-59 | for one stub list both generators fail together, and on success the graph's edges are the unordered pairs of the fast edge list (also lines 48-51 of gcmpy/gcm_algorithm/gcm_algorithm_fast.py) |
| Gcm.ColumnsAgree | gcmpy/gcm_algorithm/gcm_algorithm.py:54-59 | over all stub lists both generators fail together and produce the same unordered edges (also lines 46-51 of gcmpy/gcm_algorithm/gcm_algorithm_fast.py) |
| Gcm.GeneratedMatchesFast | gcmpy/gcm_algorithm/gcm_algorithm.py:30-71 | for the same shuffles the networkx graph has exactly the edges of the fast generator's list, without duplicates (also lines 28-54 of gcmpy/gcm_algorithm/gcm_algorithm_fast.py) |
| Gcm.GroupsNames | gcmpy/gcm_algorithm/gcm_algorithm.py:66-68 | placing a stub list's motifs keeps every edge named when names are given, and every edge unnamed otherwise |
| Gcm.ColumnsNames | gcmpy/gcm_algorithm/gcm_algorithm.py:54-68 | across all topologies, every edge is named when names are given and no edge is named otherwise |
| Gcm.GeneratedNames | gcmpy/gcm_algorithm/gcm_algorithm.py:30-71 | without edge names no edge of the graph has a topology; with them every edge has one of the names |
| Gcm.CliqueGroups | gcmpy/gcm_algorithm/gcm_algorithm_fast.py:48-51 | with clique builders, groups of m vertices add m(m-1)/2 edges each |
| Gcm.CliqueColumns | gcmpy/gcm_algorithm/gcm_algorithm_fast.py:46-51 | with clique builders and stub lists the motif sizes divide, the fast generator succeeds with the sum of the cliques' edge counts |
| Gcm.FastCliqueCount | gcmpy/gcm_algorithm/gcm_algorithm_fast.py:28-54 | when every column total is a multiple of its clique size, the fast generator returns sum over k of (total_k / m_k) * m_k(m_k - 1)/2 edges |
| Gcm.CliqueEdgesLengths | gcmpy/gcm_algorithm/gcm_algorithm_fast.py:48 | the clique edge count depends only on the lengths of the stub lists |
| GcmCustomMotifs.Partition | gcmpy/gcm_algorithm/gcm_algorithm_custom_motifs.py:18-23 | partition fails exactly when the slice size is zero, the ValueError of a zero range step |
| GcmCustomMotifs.PartitionMeaning | gcmpy/gcm_algorithm/gcm_algorithm_custom_motifs.py:18-23 | the partitions concatenate back to the list; there are ceil(len / n) of them, each of 1 .. n items, all but the last exactly n |
| GcmCustomMotifs.PartitionLast | gcmpy/gcm_algorithm/gcm_algorithm_custom_motifs.py:18-23 | a list whose length n does not divide is cut silently: the last partition holds len mod n items |
| GcmCustomMotifs.PartitionsPrefixErr | gcmpy/gcm_algorithm/gcm_algorithm_custom_motifs.py:43-45 | an error while partitioning one stub list is the error of the whole loop |
| GcmCustomMotifs.PartitionsShape | gcmpy/gcm_algorithm/gcm_algorithm_custom_motifs.py:43-45 | on success there is one partition list per stub list, each cut with that topology's positive motif size |
| GcmCustomMotifs.AvailableRest | gcmpy/gcm_algorithm/gcm_algorithm_custom_motifs.py:63-64 | popping the first slot and then the others takes the same partitions as popping them all, when the slots are distinct |
| GcmCustomMotifs.TakeVerticesMeaning | gcmpy/gcm_algorithm/gcm_algorithm_custom_motifs.py:61-66 | with distinct slots that each have a partition left, a motif's vertices are the last partitions of its slots in slot order, and exactly those are popped |
| GcmCustomMotifs.RandomClusteredGraph | gcmpy/gcm_algorithm/gcm_algorithm_custom_motifs.py:25-84 | the generator returns the edge list its shuffled stub lists determine |
| GcmCustomMotifs.PlaceAllTypes | gcmpy/gcm_algorithm/gcm_algorithm_custom_motifs.py:54-82 | the outer loop places the motif types one after another |
| GcmCustomMotifs.MakePartitions | gcmpy/gcm_algorithm/gcm_algorithm_custom_motifs.py:43-45 | the partition loop builds one partition list per stub list or raises the first error |
| GcmCustomMotifs.PlaceType | gcmpy/gcm_algorithm/gcm_algorithm_custom_motifs.py:57-82 | the middle loop places the given number of motifs of one type |
| GcmCustomMotifs.PlaceMotif | gcmpy/gcm_algorithm/gcm_algorithm_custom_motifs.py:61-82 | the loop body pops the slots' partitions, builds the motif, repeats a fresh id once per edge and appends edges and names |
| GcmCustomMotifs.PairMotifIds | gcmpy/gcm_algorithm/gcm_algorithm_custom_motifs.py:73-78 | a builder result of length two adds one edge entry and one topology but two motif ids |
| GcmCustomMotifs.PlaceOneSkew | gcmpy/gcm_algorithm/gcm_algorithm_custom_motifs.py:73-82 | when each names callback matches its builder, one motif keeps len(edge_list) - len(topologies) unchanged |
| GcmCustomMotifs.PlaceManySkew | gcmpy/gcm_algorithm/gcm_algorithm_custom_motifs.py:59-82 | the motifs of one type keep that difference unchanged |
| GcmCustomMotifs.PlaceTypesSkew | gcmpy/gcm_algorithm/gcm_algorithm_custom_motifs.py:54-82 | all motif types keep that difference unchanged |
| GcmCustomMotifs.EdgesMatchTopologies | gcmpy/gcm_algorithm/gcm_algorithm_custom_motifs.py:25-84 | when the names match the builders, the generated edge list has exactly one topology per entry |
| GcmCustomMotifs.PlaceOneIds | gcmpy/gcm_algorithm/gcm_algorithm_custom_motifs.py:71-73 | one motif writes an id not used before, once per edge, after the unchanged earlier ids |
| GcmCustomMotifs.PlaceManyIds | gcmpy/gcm_algorithm/gcm_algorithm_custom_motifs.py:59-73 | n motifs advance the id counter by n and write only ids from the first id below the counter |
| GcmCustomMotifs.PlaceTypesIds | gcmpy/gcm_algorithm/gcm_algorithm_custom_motifs.py:54-73 | all motif types advance the counter by the total number of motifs and write only ids in that range |
| GcmCustomMotifs.GeneratedIds | gcmpy/gcm_algorithm/gcm_algorithm_custom_motifs.py:25-84 | every motif id in the result lies between the first id and the first id plus the number of motifs |
| GcmCustomMotifs.GeneratedKeepsJds | gcmpy/gcm_algorithm/gcm_algorithm_custom_motifs.py:37-38 | the edge list stores the joint degree sequence unchanged |
| GcmCustomMotifs.JdsKept | gcmpy/gcm_algorithm/gcm_algorithm_custom_motifs.py:54-82 | placing motifs never changes the stored joint degree sequence |
| GcmCustomMotifs.ManyKeepJds | gcmpy/gcm_algorithm/gcm_algorithm_custom_motifs.py:59-82 | placing the motifs of one type never changes the stored joint degree sequence |
| GcmLegacy.Reversed | gcmpy/gcm_algorithm.py:134-135 | popping from the end reads the stubs last first: entry i is the list's entry counted i from the end |
| GcmLegacy.ReversedMultiset | gcmpy/gcm_algorithm.py:134-135 | reading the stubs last first uses each of them exactly once |
| GcmLegacy.BuildStubs | gcmpy/gcm_algorithm.py:106-118 | there is one stub list per entry of the first row, and list k holds vertex n once per motif of topology k, vertices in increasing order |
| GcmLegacy.RandomClusteredGraph | gcmpy/gcm_algorithm.py:96-141 | the older generator returns the edge list its shuffled stub lists determine: ValueError without builders, IndexError for an empty sequence or a row shorter than the first; whenever builders exist and the rows are long enough, the stub lists are a shuffle of the stubs of jds, success or not |
| GcmLegacy.DrainList | gcmpy/gcm_algorithm.py:129-138 | the while loop pops motifs of the motif size off the end of one stub list and appends their builders' edges, raising IndexError when the list runs out mid-motif |
| GcmLegacy.RandomClusteredGraphsFromResampledJds | gcmpy/gcm_algorithm.py:157-166 | on success there is one result per requested network, result i has experiment index i, the model's name and a network built from some shuffle; a failure happens only when at least one network is requested, and its exception is the one generating from some shuffle of the stubs raises, so a run whose every shuffle generates succeeds; without builders or with a short row the run fails |
| GcmLegacy.GroupsStep | gcmpy/gcm_algorithm.py:131-135 | popping one motif off the end leaves the motifs of the rest of the list |
| GcmLegacy.OutputsStep | gcmpy/gcm_algorithm.py:138 | the edges of a first motif and the rest are its builder's edges followed by the rest's |
| GcmLegacy.DrainStep | gcmpy/gcm_algorithm.py:131-138 | one turn of the loop builds the last size stubs, last first, and continues on the rest of the list |
| GcmLegacy.DrainMeaning | gcmpy/gcm_algorithm.py:128-138 | when the motif size divides the list and every motif builds, draining appends the builders' edges of all the motifs read from the end |
| GcmLegacy.DrainEmpty | gcmpy/gcm_algorithm.py:131 | an empty stub list adds no edges |
| GcmLegacy.DrainTurn | gcmpy/gcm_algorithm.py:131-138 | the first turn's edges are the first motif's edges, and the rest of the loop drains the rest of the list |
| GcmLegacy.DrainIndivisible | gcmpy/gcm_algorithm.py:131-135 | a stub list whose length the motif size does not divide always ends in an error |
| GcmLegacy.GroupsUseStubs | gcmpy/gcm_algorithm.py:131-135 | the drained motifs use every stub of the list exactly once |
| GcmLegacy.DrainedStubCount | gcmpy/gcm_algorithm.py:106-135 | vertex n occurs in the drained motifs of topology k exactly jds[n][k] times |
| Covers.Fact | gcmpy/covers.py:30-31 | the factorial of the binom docstring is at least 1 |
| Covers.ChooseAbove | gcmpy/covers.py:29-31 | there are no ways to choose more items than there are |
| Covers.ChooseAll | gcmpy/covers.py:29-31 | there is one way to choose all items |
| Covers.ChooseFactorial | gcmpy/covers.py:30-31 | the coefficient is n! / (r! (n - r)!), as the docstring says |
| Covers.ChooseSymmetric | gcmpy/covers.py:36 | choosing r equals choosing n - r, so binom may loop to min(r, n - r) |
| Covers.BinomStep | gcmpy/covers.py:37-38 | each multiply-then-floor-divide step of binom is exact and gives the next coefficient |
| Covers.Binom | gcmpy/covers.py:29-40 | for 0 <= r <= n binom returns n choose r; when min(r, n - r) is not positive it returns 1 |
| Covers.Prefixed | gcmpy/covers.py:73 | putting a vertex in front of each combination |
| Covers.CombinationsLength | gcmpy/covers.py:73 | every combination has m0 vertices |
| Covers.FirstCombination | gcmpy/covers.py:73 | the first combination is the clique's first m0 vertices |
| Covers.CombinationsCount | gcmpy/covers.py:73 | a clique of n vertices has n choose m0 combinations |
| Covers.CombinationsMembers | gcmpy/covers.py:73 | a combination takes its vertices from its clique |
| Covers.ReplacementsSound | gcmpy/covers.py:69-74 | every appended sub-clique is a combination of m0 vertices of some clique larger than m0 |
| Covers.ReplacementsComplete | gcmpy/covers.py:69-74 | every combination of m0 vertices of every clique larger than m0 is appended |
| Covers.CandidatesMeaning | gcmpy/covers.py:67-81 | a candidate row has at most m0 vertices and is either a kept clique, sorted, or a combination of a larger clique |
| Covers.InsertByKey | gcmpy/covers.py:87 | inserting into the key-ordered list adds exactly the one row |
| Covers.InsertByKeySorted | gcmpy/covers.py:87 | inserting keeps the list ordered by (-len, first vertex, second vertex or 0) |
| Covers.InsertByKeyMembers | gcmpy/covers.py:87 | an inserted list holds only the new row and the old rows |
| Covers.ConsSorted | gcmpy/covers.py:87 | a row whose key is at most every key of an ordered list can go in front |
| Covers.SortByKey | gcmpy/covers.py:87 | sorting by the key gives a key-ordered permutation of the rows |
| Covers.OrderByKey | gcmpy/covers.py:87 | ordering by the key succeeds exactly when every row has the vertices the key reads (one, or two for the cover's key), failing with IndexError otherwise, and then is a key-ordered permutation (also line 240) |
| Covers.EnumerationExists | gcmpy/covers.py:81 | the rows of a set can be listed in some order |
| Covers.SortEach | gcmpy/covers.py:84-85 | each row is replaced by its vertices in ascending order |
| Covers.SortedRows | gcmpy/covers.py:84-85 | each sorted candidate row is ascending and has at most m0 vertices |
| Covers.LimitedFails | gcmpy/covers.py:84-87 | limited_maximal_cliques fails in its sort key exactly when some candidate row is empty |
| Covers.LimitedBounded | gcmpy/covers.py:62-87 | every returned clique has at most m0 vertices, ascending |
| Covers.LimitedMembers | gcmpy/covers.py:62-87 | the returned cliques are exactly the candidate rows, sorted |
| Covers.NoEmptyCandidate | gcmpy/covers.py:62-81 | with m0 >= 1 and no empty maximal clique, no candidate row is empty |
| Covers.DuplicatesSurvive | gcmpy/covers.py:73-85 | two maximal cliques whose first m0 vertices are one set in two orders leave the same clique twice in the result |
| Covers.SameOnceSorted | gcmpy/covers.py:81-85 | two different rows with the same vertices become equal once sorted, so the result repeats a clique |
| Covers.ChooseOne | gcmpy/covers.py:29-40 | choosing one item gives n |
| Covers.ChooseTwo | gcmpy/covers.py:113 | a clique of n vertices has n(n-1)/2 edges |
| Covers.RowSharedBound | gcmpy/covers.py:116-127 | a vertex's pairs held by another clique are at most its later pairs |
| Covers.SharedBound | gcmpy/covers.py:115-131 | at most every pair of the clique is shared |
| Covers.RowSharedZero | gcmpy/covers.py:116-127 | a vertex shares no pair exactly when no other clique holds it with a later vertex |
| Covers.SharedZero | gcmpy/covers.py:115-131 | the shared count is zero exactly when no pair of the clique lies in another clique |
| Covers.ScoreMeaning | gcmpy/covers.py:107-131 | a clique's score lies in [0, 1], and is 0 exactly when it has at most two vertices or no other clique holds any of its edges |
| Covers.RatioIs | gcmpy/covers.py:113-131 | for more than two vertices the score is the shared count over n choose 2 |
| Covers.ChoosePositive | gcmpy/covers.py:113 | two or more vertices have at least one edge |
| Covers.RatioBounds | gcmpy/covers.py:131 | a share of edges lies in [0, 1] and is zero only for none |
| Covers.ZeroFlags | gcmpy/covers.py:134 | one zero-score flag per clique |
| Covers.Orders | gcmpy/covers.py:109 | ord keeps its length |
| Covers.Rescored | gcmpy/covers.py:131 | r keeps its length |
| Covers.ScoredFails | gcmpy/covers.py:104-109 | compute_scores raises IndexError when ord or r is shorter than C |
| Covers.ScoredSucceeds | gcmpy/covers.py:104-136 | otherwise it sorts each clique, writes its order and adds its score, and appends the zero-score cliques and their indexes |
| Covers.IndexesMembers | gcmpy/covers.py:134-136 | an index is recorded exactly when it is below the count and its clique scored 0 |
| Covers.IndexesIncreasing | gcmpy/covers.py:136 | the indexes are recorded in increasing order |
| Covers.PickedMatch | gcmpy/covers.py:134-136 | the cover gains the sorted cliques at exactly the recorded indexes, in the same order |
| Covers.PickedLast | gcmpy/covers.py:135-136 | appending a clique and its index keeps cover and indexes matched |
| Covers.ZeroScoreCover | gcmpy/covers.py:134-136 | starting from zero scores, a clique joins the cover exactly when it has at most two vertices or shares no edge |
| Covers.InOtherSame | gcmpy/covers.py:123 | sorting the cliques in place does not change which cliques hold a pair |
| Covers.RowSharedSame | gcmpy/covers.py:116-127 | so a vertex's shared count is the same after sorting |
| Covers.SharedSame | gcmpy/covers.py:115-131 | so the clique's shared count is the same after sorting |
| Covers.FoundInOther | gcmpy/covers.py:118-127 | the while loop finds another clique holding the pair exactly when one exists |
| Covers.AddShared | gcmpy/covers.py:115-131 | the pair loops add shared / size to the score |
| Covers.ScoreClique | gcmpy/covers.py:111-131 | scoring one clique adds its score to r[c] |
| Covers.Collect | gcmpy/covers.py:134-136 | a clique at score 0 is appended to the cover and its index recorded |
| Covers.ScoreStep | gcmpy/covers.py:105-136 | after clique c, C, ord and r are updated up to c and the zero test agrees with the score |
| Covers.SortedBags | gcmpy/covers.py:108 | sorting cliques in place keeps each clique's vertex set |
| Covers.ScoreLoop | gcmpy/covers.py:105-136 | the scoring loop leaves C sorted, ord and r rescored, and the zero-score cliques and indexes appended |
| Covers.ComputeScores | gcmpy/covers.py:90-136 | compute_scores has exactly the effect Scored describes, IndexError included |
| Covers.VisitedStart | gcmpy/covers.py:67-68 | before the loop nothing is visited |
| Covers.ReplacementsStep | gcmpy/covers.py:69-74 | visiting one more clique appends its sub-cliques when it is larger than m0 |
| Covers.VisitedReplace | gcmpy/covers.py:71-74 | a clique larger than m0 has its sub-cliques appended |
| Covers.VisitedKeep | gcmpy/covers.py:75-76 | a clique of at most m0 vertices is sorted in place |
| Covers.VisitedAll | gcmpy/covers.py:67-80 | after the loop, the rows not dropped are exactly the candidate rows |
| Covers.RowPairsMembers | gcmpy/covers.py:172-174 | one row of the pair loops removes the pairs of vertex i with each later vertex |
| Covers.PairsSplit | gcmpy/covers.py:172-174 | the pairs of a clique are the pairs of its first vertex and the pairs of the rest |
| Covers.DonePairsAll | gcmpy/covers.py:172-174 | the pair loops remove every pair of the clique |
| Covers.CoveredStep | gcmpy/covers.py:170-174 | the edges of a cover grow by each clique's pairs |
| Covers.CoveredAppend | gcmpy/covers.py:170-174 | the edges of two covers in turn are the union of their edges |
| Covers.RoundCovered | gcmpy/covers.py:199-238 | a round's cover extends the old cover with the chosen clique and the zero-score cliques |
| Covers.CoveredSameCliques | gcmpy/covers.py:240 | ordering the cover does not change the edges it covers |
| Covers.KeptMembers | gcmpy/covers.py:157 | an index is kept exactly when it is below the count and did not score 0 (also line 219) |
| Covers.KeptIncreasing | gcmpy/covers.py:162 | the kept indexes are increasing and in range (also line 224) |
| Covers.Prune | gcmpy/covers.py:156-169 | C, ord and r keep the entries at the kept indexes, in index order |
| Covers.MinScore | gcmpy/covers.py:180 | min fails with ValueError exactly on an empty list; otherwise it returns the smallest score |
| Covers.Select | gcmpy/covers.py:179-195 | ValueError exactly when no clique is left; otherwise (when orders are non-negative) an index of minimal score whose order is the largest among the minimal ones |
| Covers.LimitedErrors | gcmpy/covers.py:62-87 | limited_maximal_cliques fails only with ValueError or the IndexError of its key |
| Covers.SurvivorsScored | gcmpy/covers.py:215-232 | a clique survives a scoring pass exactly when its score is not 0 |
| Covers.VisitOne | gcmpy/covers.py:69-76 | one turn of the loop visits clique c and records it as dropped exactly when it is larger than m0 |
| Covers.VisitCliques | gcmpy/covers.py:67-76 | a negative m0 fails exactly when there is a clique to cut down; otherwise every clique is visited and exactly those larger than m0 are dropped |
| Covers.SortRows | gcmpy/covers.py:84-85 | the loop sorts every row |
| Covers.ZeroReals | gcmpy/covers.py:150 | a list of n zero scores (also line 212) |
| Covers.ZeroInts | gcmpy/covers.py:149 | a list of n zero orders (also line 211) |
| Covers.PassZero | gcmpy/covers.py:215 | one zero-score flag per clique of the pass |
| Covers.ScorePass | gcmpy/covers.py:211-232 | the pass appends the zero-score cliques to the cover and keeps the others, sorted, with their orders and scores |
| Covers.LimitedFromRows | gcmpy/covers.py:81-87 | ordering any listing of the candidate rows is an outcome of limited_maximal_cliques |
| Covers.EmptyListing | gcmpy/covers.py:81-87 | with no candidate rows the result is empty |
| Covers.FirstListed | gcmpy/covers.py:81 | a listing of the rows starts with one of them |
| Covers.CoverOrdered | gcmpy/covers.py:240 | once no edge is left, the ordered cover covers every original edge and each of its cliques has at least two vertices |
| Covers.Eecc.constructor | gcmpy/covers.py:55-57 | a new cover object has no vertices, no edges and m0 = 2 |
| Covers.Eecc.AddEdge | gcmpy/network/network.py:8-13 | adding an edge adds its end points and its unordered pair |
| Covers.Eecc.SetMaxCliqueSize | gcmpy/covers.py:59-60 | set_max_clique_size sets m0 and nothing else |
| Covers.Eecc.RemoveEdge | gcmpy/network/network.py:28-35 | remove_edge drops one unordered pair, in either orientation, and ignores a missing one |
| Covers.Eecc.HasEdges | gcmpy/network/network.py:37-41 | has_edges is true exactly when an edge is left |
| Covers.Eecc.LimitedMaximalCliques | gcmpy/covers.py:62-87 | the result is an outcome of limited_maximal_cliques for the graph's maximal cliques, and every returned clique has at most m0 vertices |
| Covers.Eecc.RemoveClique | gcmpy/covers.py:202-205 | removing a chosen clique drops exactly its pairs |
| Covers.Eecc.RemoveCover | gcmpy/covers.py:170-174 | the cover loop drops exactly the pairs the cover covers (also lines 233-238) |
| Covers.Eecc.Rescore | gcmpy/covers.py:207-238 | rescoring extends the cover, keeps ord and r aligned with C and leaves the graph's edges those the cover does not cover; cliques of at most m0 vertices stay so in the kept list and the cover |
| Covers.Eecc.Round | gcmpy/covers.py:176-238 | a round strictly extends the cover and keeps the graph's edges equal to the original edges minus those covered; when the cliques and the cover have at most m0 vertices each, so do the new ones |
| Covers.LimitedWithinSize | gcmpy/covers.py:62-87 | every clique `limited_maximal_cliques` returns has at most m0 vertices |
| Covers.Eecc.GetEecc | gcmpy/covers.py:138-240 | on success the graph has no edges left, every original edge is covered, and the cover is ordered by the key with every clique having from two to m0 vertices |
| Mpcc.Combinations2Members | gcmpy/covers/mpcc.py:27 | every pair of positions a < b of the clique is visited |
| Mpcc.Combinations2Count | gcmpy/covers/mpcc.py:27 | a clique of n vertices has n(n-1)/2 pairs |
| Mpcc.PairsOfTwo | gcmpy/covers/mpcc.py:27 | a 2-clique has exactly its one edge |
| Mpcc.InsertBySize | gcmpy/covers/mpcc.py:23 | inserting by length adds exactly the one clique |
| Mpcc.InsertSorted | gcmpy/covers/mpcc.py:23 | inserting keeps the cliques ordered from largest to smallest |
| Mpcc.SortBySizeMeaning | gcmpy/covers/mpcc.py:23 | the cliques are visited largest first, each exactly once |
| Mpcc.CoveredMembers | gcmpy/covers/mpcc.py:36-39 | an edge is covered exactly when some cover clique spans it |
| Mpcc.JoinKeepsInvariant | gcmpy/covers/mpcc.py:31-33 | a clique whose edges are all still in the working graph joins the cover and its edges leave the graph: the cover stays edge-disjoint and covers exactly the removed edges |
| Mpcc.GreedyInvariant | gcmpy/covers/mpcc.py:25-33 | the pass only extends the cover and keeps it edge-disjoint, covering exactly the edges removed |
| Mpcc.SmallCliquesJoin | gcmpy/covers/mpcc.py:25-33 | a clique of fewer than two vertices has no pair to miss, so it always joins the cover |
| Mpcc.GreedyKeepsCover | gcmpy/covers/mpcc.py:25-33 | nothing is ever taken out of the cover |
| Mpcc.TwoCliqueCovered | gcmpy/covers/mpcc.py:25-33 | an edge of the graph whose 2-clique is visited ends up covered |
| Mpcc.TwoCliqueFirst | gcmpy/covers/mpcc.py:25-33 | when the edge's 2-clique comes first, it is covered by the end |
| Mpcc.CoverMeaning | gcmpy/covers/mpcc.py:5-41 | the cover is edge-disjoint, spans only edges of G, and every edge whose 2-clique is enumerated lies in exactly one cover clique |
| Mpcc.CoverDisjoint | gcmpy/covers/mpcc.py:22-33 | the cover is edge-disjoint and spans only edges of G |
| Mpcc.CoverSpansEdge | gcmpy/covers/mpcc.py:22-33 | every edge whose 2-clique is enumerated is covered |
| Mpcc.SortedKeeps | gcmpy/covers/mpcc.py:23 | sorting keeps every enumerated clique |
| Mpcc.ApplyLabelsMeaning | gcmpy/covers/mpcc.py:35-39 | labelling keeps the edges of G; an edge spanned by a cover clique gets that clique's label, and any other edge is untouched |
| Mpcc.MpccLabels | gcmpy/covers/mpcc.py:35-39 | every edge of cover clique t carries the label len-c-t and keeps its other attributes |
| Mpcc.MpccLabelReadBack | gcmpy/covers/mpcc.py:10 | the label's topology, id, vertex list and edges read back through the message-passing getters as the clique's size, its id, its vertices and its id (also lines 42-79 of gcmpy/message_passing/message_passing_mixin.py) |
| Mpcc.LabelAttributeMismatch | gcmpy/covers/mpcc.py:39 | MPCC writes the attribute "clique" but the message-passing reader looks for "CoverLabel", so reading a covered edge's label raises KeyError (also lines 30-40 of gcmpy/message_passing/message_passing_mixin.py) |
| Mpcc.MPCC | gcmpy/covers/mpcc.py:5-41 | MPCC returns G labelled from the greedy cover of its cliques, largest first |
| Mpcc.HasMissingEdge | gcmpy/covers/mpcc.py:26-30 | a clique is skipped exactly when one of its pairs is no longer in the working graph |
| Mpcc.LabelClique | gcmpy/covers/mpcc.py:38-39 | every edge of the clique gets its label and no other edge changes |
| JointDegrees.New | gcmpy/joint_degree/joint_degree.py:25-30 | instantiating the abstract base raises TypeError; every subclass gets its instance |
| JointDegrees.Totals | gcmpy/joint_degree/joint_degree.py:45 | one total per column zip yields, each the sum of that column |
| JointDegrees.ColumnTotalAgrees | gcmpy/joint_degree/joint_degree.py:45 | a column total is the length of that column's stub list |
| JointDegrees.ColumnTotalBump | gcmpy/joint_degree/joint_degree.py:51-53 | adding one to an entry raises that column's total by one and leaves the others |
| JointDegrees.DeficitCompletes | gcmpy/joint_degree/joint_degree.py:47-49 | the added increments make the column total a multiple of the motif size, and are fewer than it |
| JointDegrees.DeficitLeast | gcmpy/joint_degree/joint_degree.py:47-49 | fewer increments would not reach a multiple: the total is rounded up to the next multiple |
| JointDegrees.FirstAbort | gcmpy/joint_degree/joint_degree.py:46-47 | the correction stops at the first column without a motif size or with size 0, or runs through |
| JointDegrees.FirstAbortAt | gcmpy/joint_degree/joint_degree.py:46-47 | it stops exactly at the first such column |
| JointDegrees.CorrectedDivisible | gcmpy/joint_degree/joint_degree.py:44-54 | after the correction every corrected column with a positive motif size totals a multiple of it |
| JointDegrees.BumpStep | gcmpy/joint_degree/joint_degree.py:50-53 | one increment at a random row keeps the sequence's shape and moves only column i |
| JointDegrees.FixColumn | gcmpy/joint_degree/joint_degree.py:49-53 | the inner loop adds the deficit to column i at rows of its choosing and changes nothing else |
| JointDegrees.CorrectedStep | gcmpy/joint_degree/joint_degree.py:46-53 | fixing column i extends the correction by one column and leaves later totals unchanged |
| JointDegrees.HandshakingLemma | gcmpy/joint_degree/joint_degree.py:38-54 | every column before the first one lacking a usable motif size is raised to a multiple of its size by increments only; success exactly when no column stops it, ZeroDivisionError for size 0 and IndexError for a missing size |
| JointDegrees.SumValues | gcmpy/joint_degree/joint_degree.py:70 | the sum of the weights |
| JointDegrees.Scaled | gcmpy/joint_degree/joint_degree.py:71-72 | dividing every weight keeps the keys |
| JointDegrees.ScaledRemove | gcmpy/joint_degree/joint_degree.py:71-72 | dividing commutes with removing a key |
| JointDegrees.TotalScaledStep | gcmpy/joint_degree/joint_degree.py:70-72 | the step of the proof that divided weights sum to the sum divided |
| JointDegrees.TotalScaledEmpty | gcmpy/joint_degree/joint_degree.py:70-72 | the empty case of that proof |
| JointDegrees.TotalScaled | gcmpy/joint_degree/joint_degree.py:70-72 | the weights divided by t sum to the old sum divided by t |
| JointDegrees.NormalisedKeys | gcmpy/joint_degree/joint_degree.py:69-72 | normalising keeps the keys |
| JointDegrees.NormaliseJdd | gcmpy/joint_degree/joint_degree.py:69-72 | normalise_jdd leaves the distribution Normalised describes |
| JointDegrees.NormalisedMeaning | gcmpy/joint_degree/joint_degree.py:69-72 | only a non-empty distribution summing to zero fails, with ZeroDivisionError; otherwise the keys stay, each weight times the old sum is the old weight, and a non-empty result sums to one |
| JointDegrees.ConvertJdsToJdd | gcmpy/joint_degree/joint_degree.py:74-79 | the keys are the distinct entries of the sequence, each weighted by the fraction of the sequence it makes up, so the weights sum to one |
| JointDegrees.SampleJds | gcmpy/joint_degree/joint_degree.py:56-67 | an empty distribution raises IndexError and a non-positive total ValueError; otherwise max(N, 0) keys of the distribution are drawn and then corrected by the handshaking lemma |
| SplitDegree.WeightedNonNegative | gcmpy/joint_degree/joint_degree_loaders/joint_degree_split_degree.py:41-45 | a split of non-negative counts has a non-negative weighted degree |
| SplitDegree.Appended | gcmpy/joint_degree/joint_degree_loaders/joint_degree_split_degree.py:45 | each recursive row gains the count i at its end |
| SplitDegree.ValidJointDegrees | gcmpy/joint_degree/joint_degree_loaders/joint_degree_split_degree.py:30-45 | get_valid_joint_degrees over zero topologies raises ZeroDivisionError; otherwise it yields the splits Valid lists |
| SplitDegree.ValidSound | gcmpy/joint_degree/joint_degree_loaders/joint_degree_split_degree.py:30-45 | every yielded row has T entries whose weighted sum (topology t counting t edges) is the degree |
| SplitDegree.AppendSplits | gcmpy/joint_degree/joint_degree_loaders/joint_degree_split_degree.py:41-45 | appending i motifs of the largest topology to a split of the rest splits the whole degree |
| SplitDegree.ExtendedSound | gcmpy/joint_degree/joint_degree_loaders/joint_degree_split_degree.py:41-45 | the rows of the loop from i on are splits whose last count is at least i |
| SplitDegree.ExtendedContains | gcmpy/joint_degree/joint_degree_loaders/joint_degree_split_degree.py:41-45 | every split of the remainder extended by a count in range is yielded |
| SplitDegree.ValidComplete | gcmpy/joint_degree/joint_degree_loaders/joint_degree_split_degree.py:30-45 | every non-negative split of the degree over T topologies is yielded |
| SplitDegree.ValidDistinct | gcmpy/joint_degree/joint_degree_loaders/joint_degree_split_degree.py:30-45 | no split is yielded twice |
| SplitDegree.ExtendedDistinct | gcmpy/joint_degree/joint_degree_loaders/joint_degree_split_degree.py:41-45 | the loop from i on yields no row twice |
| SplitDegree.ValidNegative | gcmpy/joint_degree/joint_degree_loaders/joint_degree_split_degree.py:41 | a negative degree over two or more topologies yields nothing, since the range is empty |
| SplitDegree.ValidJointDegreesMeaning | gcmpy/joint_degree/joint_degree_loaders/joint_degree_split_degree.py:30-45 | the rows are distinct; for k >= 0 they are exactly the non-negative rows of length T with weighted sum k; for k < 0 only the one-topology row [k] is yielded |
| SplitDegree.Probabilities | gcmpy/joint_degree/joint_degree_loaders/joint_degree_split_degree.py:71-73 | one probability per row, from calc_prob_of_joint_degree |
| SplitDegree.Weighting | gcmpy/joint_degree/joint_degree_loaders/joint_degree_split_degree.py:81-82 | the keys are exactly the rows |
| SplitDegree.ResolvedKeys | gcmpy/joint_degree/joint_degree_loaders/joint_degree_split_degree.py:58-82 | after resolve_degree succeeds, the keys of _jdd are exactly the splits of k |
| SplitDegree.ResolvedMass | gcmpy/joint_degree/joint_degree_loaders/joint_degree_split_degree.py:58-82 | the weights stored for degree k add up to its probability pk |
| SplitDegree.TotalOfRows | gcmpy/joint_degree/joint_degree_loaders/joint_degree_split_degree.py:81-82 | with distinct rows, the stored weights sum to the sum of the per-row values |
| SplitDegree.SumShares | gcmpy/joint_degree/joint_degree_loaders/joint_degree_split_degree.py:76-82 | pk times each share of the total sums to pk times the whole share |
| SplitDegree.WeightingStep | gcmpy/joint_degree/joint_degree_loaders/joint_degree_split_degree.py:81-82 | each turn of the last loop stores one more row |
| SplitDegree.ProbabilitiesOf | gcmpy/joint_degree/joint_degree_loaders/joint_degree_split_degree.py:71-73 | the first loop computes each row's probability |
| SplitDegree.DivideAll | gcmpy/joint_degree/joint_degree_loaders/joint_degree_split_degree.py:76-78 | the second loop divides every probability by the total |
| SplitDegree.WeighAll | gcmpy/joint_degree/joint_degree_loaders/joint_degree_split_degree.py:81-82 | the third loop stores each row under pk times its share |
| SplitDegree.ResolveRows | gcmpy/joint_degree/joint_degree_loaders/joint_degree_split_degree.py:58-82 | resolving one degree gives what Resolved describes: ZeroDivisionError for no topologies or a zero total over some splits |
| SplitDegree.FailureAdvances | gcmpy/joint_degree/joint_degree_loaders/joint_degree_split_degree.py:26-27 | a degree that resolves moves the first failure on |
| SplitDegree.FailureStops | gcmpy/joint_degree/joint_degree_loaders/joint_degree_split_degree.py:26-27 | a degree that fails is the loop's failure |
| SplitDegree.SplitLast | gcmpy/joint_degree/joint_degree_loaders/joint_degree_split_degree.py:26-65 | since every resolution starts from an empty dict, only the last degree's entries remain |
| SplitDegree.SplitNormalised | gcmpy/joint_degree/joint_degree_loaders/joint_degree_split_degree.py:25-28 | create_jdd's outcome is that distribution normalised |
| SplitDegree.SplitKeys | gcmpy/joint_degree/joint_degree_loaders/joint_degree_split_degree.py:25-28 | on success the range is non-empty and the keys are exactly the splits of the last degree, hi - 1 |
| SplitDegree.SplitDegreeLoader.constructor | gcmpy/joint_degree/joint_degree_loaders/joint_degree_split_degree.py:10-19 | the loader stores its parameters and has no distribution yet |
| SplitDegree.SplitDegreeLoader.ResolveDegree | gcmpy/joint_degree/joint_degree_loaders/joint_degree_split_degree.py:58-82 | resolve_degree resets _jdd and stores the resolved weights, or fails with Resolved's error leaving {} |
| SplitDegree.SplitDegreeLoader.ResolveNext | gcmpy/joint_degree/joint_degree_loaders/joint_degree_split_degree.py:26-27 | one turn of create_jdd's loop |
| SplitDegree.SplitDegreeLoader.ResolveRange | gcmpy/joint_degree/joint_degree_loaders/joint_degree_split_degree.py:26-27 | the loop fails with the first failing degree; otherwise _jdd holds the last degree's entries, or is never set for an empty range |
| SplitDegree.SplitDegreeLoader.CreateJdd | gcmpy/joint_degree/joint_degree_loaders/joint_degree_split_degree.py:25-28 | create_jdd succeeds exactly when SplitOutcome does, and then stores it |
| SplitDegree.NewSplitDegree | gcmpy/joint_degree/joint_degree_loaders/joint_degree_split_degree.py:10-23 | a missing parameter becomes the TypeError of raising a string; otherwise construction succeeds exactly when the distribution can be built, and stores it |
| Delta.Axis | gcmpy/joint_degree/joint_degree_loaders/joint_degree_delta.py:24-26 | the key for a degree other than the target has the degree in its first entry and zeros elsewhere |
| Delta.WeightedAxis | gcmpy/joint_degree/joint_degree_loaders/joint_degree_delta.py:24-26 | such a key carries its whole degree in the first topology |
| Delta.AxisMapStep | gcmpy/joint_degree/joint_degree_loaders/joint_degree_delta.py:25-27 | each non-target degree adds its axis key weighted fp(k) |
| Delta.NoAxisWithoutSizes | gcmpy/joint_degree/joint_degree_loaders/joint_degree_delta.py:24-26 | without motif sizes the loop gets through only the target itself, since writing zeros[0] raises IndexError |
| Delta.AxisStep | gcmpy/joint_degree/joint_degree_loaders/joint_degree_delta.py:25-27 | one more non-target degree adds its axis key |
| Delta.AxisStepPassed | gcmpy/joint_degree/joint_degree_loaders/joint_degree_delta.py:25-27 | after the target its splits stay and each later degree adds its axis key |
| Delta.TargetStep | gcmpy/joint_degree/joint_degree_loaders/joint_degree_delta.py:28-29 | resolving the target resets the dict, so right after the target only its splits are left (the reset is at line 65 of joint_degree_split_degree.py) |
| Delta.FailureFreeTarget | gcmpy/joint_degree/joint_degree_loaders/joint_degree_delta.py:21-29 | a loop that runs through has resolved the target, when it passed it, and had motif sizes for every other degree |
| Delta.FailureFreeFrom | gcmpy/joint_degree/joint_degree_loaders/joint_degree_delta.py:21-29 | a loop that runs through a range holding the target has resolved the target |
| Delta.DeltaKeys | gcmpy/joint_degree/joint_degree_loaders/joint_degree_delta.py:19-30 | with the target in range, the keys are its splits plus the axis keys of the degrees above it; otherwise the axis keys of the whole range; every key's degree lies in the range, and none is below the target |
| Delta.DeltaLoader.constructor | gcmpy/joint_degree/joint_degree_loaders/joint_degree_delta.py:9-15 | the loader stores its parameters, the bound only when given, and has no distribution yet |
| Delta.DeltaLoader.CreateJdd | gcmpy/joint_degree/joint_degree_loaders/joint_degree_delta.py:19-30 | a missing bound raises AttributeError; otherwise create_jdd succeeds exactly when DeltaOutcome does and stores it |
| Delta.NewDelta | gcmpy/joint_degree/joint_degree_loaders/joint_degree_delta.py:9-17 | a missing target, fp, probs or motif sizes raises KeyError, a missing bound AttributeError; otherwise construction succeeds exactly when the distribution can be built |
| CoverJointDegree.InsertMeaning | gcmpy/joint_degree/joint_degree_loaders/joint_degree_cover.py:16-21 | inserting keeps the list strictly increasing and adds exactly the one value |
| CoverJointDegree.SortedSetMeaning | gcmpy/joint_degree/joint_degree_loaders/joint_degree_cover.py:16-21 | the distinct values, ascending |
| CoverJointDegree.Sizes | gcmpy/joint_degree/joint_degree_loaders/joint_degree_cover.py:16 | the size of every clique |
| CoverJointDegree.MotifSizesMeaning | gcmpy/joint_degree/joint_degree_loaders/joint_degree_cover.py:16 | the motif sizes are the distinct clique sizes, ascending |
| CoverJointDegree.Largest | gcmpy/joint_degree/joint_degree_loaders/joint_degree_cover.py:27 | the largest clique size is at least every size and is one of them |
| CoverJointDegree.Slot | gcmpy/joint_degree/joint_degree_loaders/joint_degree_cover.py:37 | a vertex's row, when it lies in the table |
| CoverJointDegree.CliqueEvents | gcmpy/joint_degree/joint_degree_loaders/joint_degree_cover.py:34-37 | each vertex of a clique adds one to the column of its size minus one |
| CoverJointDegree.EventsFrom | gcmpy/joint_degree/joint_degree_loaders/joint_degree_cover.py:34-37 | every increment comes from a vertex of a clique |
| CoverJointDegree.EventIn | gcmpy/joint_degree/joint_degree_loaders/joint_degree_cover.py:34-37 | every vertex of every clique makes an increment |
| CoverJointDegree.Zeros | gcmpy/joint_degree/joint_degree_loaders/joint_degree_cover.py:29-32 | one row of zeros per distinct vertex, as long as the largest clique |
| CoverJointDegree.Table | gcmpy/joint_degree/joint_degree_loaders/joint_degree_cover.py:29-37 | the table keeps its shape under the increments |
| CoverJointDegree.TableTally | gcmpy/joint_degree/joint_degree_loaders/joint_degree_cover.py:34-37 | each cell counts the increments that land in it |
| CoverJointDegree.TallyPositive | gcmpy/joint_degree/joint_degree_loaders/joint_degree_cover.py:34-37 | a cell some increment lands in is positive |
| CoverJointDegree.TallyNone | gcmpy/joint_degree/joint_degree_loaders/joint_degree_cover.py:34-37 | a column no increment targets stays zero |
| CoverJointDegree.EventColumns | gcmpy/joint_degree/joint_degree_loaders/joint_degree_cover.py:27-37 | every increment falls in a column of the table |
| CoverJointDegree.EventsStep | gcmpy/joint_degree/joint_degree_loaders/joint_degree_cover.py:34-37 | the increments of a clique follow those of the earlier ones |
| CoverJointDegree.TableStep | gcmpy/joint_degree/joint_degree_loaders/joint_degree_cover.py:37 | one increment adds one to its cell |
| CoverJointDegree.CountClique | gcmpy/joint_degree/joint_degree_loaders/joint_degree_cover.py:35-37 | a clique with a vertex outside the table raises IndexError; otherwise its increments are added |
| CoverJointDegree.CountStep | gcmpy/joint_degree/joint_degree_loaders/joint_degree_cover.py:36-37 | one vertex's increment extends the table |
| CoverJointDegree.CountCliques | gcmpy/joint_degree/joint_degree_loaders/joint_degree_cover.py:34-37 | the counting loop builds CountTable's table or raises its IndexError |
| CoverJointDegree.Where | gcmpy/joint_degree/joint_degree_loaders/joint_degree_cover.py:40 | the indexes below n that satisfy the test, ascending |
| CoverJointDegree.WhereIncreasing | gcmpy/joint_degree/joint_degree_loaders/joint_degree_cover.py:40 | those indexes increase strictly |
| CoverJointDegree.WhereSame | gcmpy/joint_degree/joint_degree_loaders/joint_degree_cover.py:40 | the same test gives the same indexes |
| CoverJointDegree.KeepColumns | gcmpy/joint_degree/joint_degree_loaders/joint_degree_cover.py:42-45 | every row reduced to the kept columns, in order |
| CoverJointDegree.ShiftsZeroColumns | gcmpy/joint_degree/joint_degree_loaders/joint_degree_cover.py:40 | clique sizes 2 and 4 leave columns 0 and 2 of the row empty |
| CoverJointDegree.StaleDeletionShifts | gcmpy/joint_degree/joint_degree_loaders/joint_degree_cover.py:40-45 | the deletion loop turns the row [0, 1, 0, 1] into [1, 0] instead of [1, 1] |
| CoverJointDegree.ShiftsFirstPass | gcmpy/joint_degree/joint_degree_loaders/joint_degree_cover.py:43-45 | deleting column 0 leaves [1, 0, 1], and column 2 is now the second 1 |
| CoverJointDegree.ShiftsSecondPass | gcmpy/joint_degree/joint_degree_loaders/joint_degree_cover.py:43-45 | deleting column 2 of the shortened row removes a non-zero count |
| CoverJointDegree.ShiftsKept | gcmpy/joint_degree/joint_degree_loaders/joint_degree_cover.py:40-45 | removing the zero columns as intended gives [1, 1] |
| CoverJointDegree.DropStep | gcmpy/joint_degree/joint_degree_loaders/joint_degree_cover.py:43-45 | one pass of the loop deletes the index from every row |
| CoverJointDegree.DropDone | gcmpy/joint_degree/joint_degree_loaders/joint_degree_cover.py:43-45 | no indexes, no deletions |
| CoverJointDegree.DeleteColumns | gcmpy/joint_degree/joint_degree_loaders/joint_degree_cover.py:43-45 | the nested deletion loop computes the stale-index deletion: every listed index deleted in turn from every row, IndexError at the first row it overruns |
| CoverJointDegree.KeptNone | gcmpy/joint_degree/joint_degree_loaders/joint_degree_cover.py:40-45 | with no all-zero column every column is kept, in order |
| CoverJointDegree.KeptOne | gcmpy/joint_degree/joint_degree_loaders/joint_degree_cover.py:40-45 | with one all-zero column z the kept columns are those below z and those above it |
| CoverJointDegree.KeptBelow | gcmpy/joint_degree/joint_degree_loaders/joint_degree_cover.py:40-45 | an index at or beyond the width removes no column |
| CoverJointDegree.DropNone | gcmpy/joint_degree/joint_degree_loaders/joint_degree_cover.py:43-45 | deleting no column as written leaves the rows, which is the intended result |
| CoverJointDegree.DropOne | gcmpy/joint_degree/joint_degree_loaders/joint_degree_cover.py:43-45 | deleting one in-range column as written gives the intended rows |
| CoverJointDegree.RowAfterDelete | gcmpy/joint_degree/joint_degree_loaders/joint_degree_cover.py:44-45 | `del jd[z]` leaves the row's entries other than z, in order |
| CoverJointDegree.DropAgrees | gcmpy/joint_degree/joint_degree_loaders/joint_degree_cover.py:40-45 | with at most one in-range index the stale-index deletion succeeds and agrees with dropping exactly those columns |
| CoverJointDegree.KeptExample | gcmpy/joint_degree/joint_degree_loaders/joint_degree_cover.py:40-45 | in that example the kept columns are 1 and 3 |
| CoverJointDegree.StaleDeletionOverruns | gcmpy/joint_degree/joint_degree_loaders/joint_degree_cover.py:40-45 | for the row [1, 0, 0, 0, 1] the loop deletes past the shortened row and raises IndexError |
| CoverJointDegree.OverrunsFirstPass | gcmpy/joint_degree/joint_degree_loaders/joint_degree_cover.py:43-45 | the first deletion shortens the row to four entries |
| CoverJointDegree.OverrunsSecondPass | gcmpy/joint_degree/joint_degree_loaders/joint_degree_cover.py:43-45 | the second shortens it to three |
| CoverJointDegree.OverrunsThirdPass | gcmpy/joint_degree/joint_degree_loaders/joint_degree_cover.py:43-45 | index 3 is then past the end |
| CoverJointDegree.OverrunsZeroColumns | gcmpy/joint_degree/joint_degree_loaders/joint_degree_cover.py:40 | that row's zero columns are 1, 2 and 3 |
| CoverJointDegree.NonEmptyCover | gcmpy/joint_degree/joint_degree_loaders/joint_degree_cover.py:21-27 | a cover with a vertex has a clique |
| CoverJointDegree.ZeroColumnMeaning | gcmpy/joint_degree/joint_degree_loaders/joint_degree_cover.py:34-40 | column j of the table is all zeros exactly when no clique has j + 1 vertices |
| CoverJointDegree.KeptAreSizes | gcmpy/joint_degree/joint_degree_loaders/joint_degree_cover.py:40-45 | the columns kept are exactly those of the clique sizes present |
| CoverJointDegree.CoverJdsIs | gcmpy/joint_degree/joint_degree_loaders/joint_degree_cover.py:19-45 | the sequence is the counting table reduced to the columns of the clique sizes present |
| CoverJointDegree.CoverJdsRows | gcmpy/joint_degree/joint_degree_loaders/joint_degree_cover.py:21-32 | the sequence has one row per distinct vertex of the cover |
| CoverJointDegree.SizeColumnsMeaning | gcmpy/joint_degree/joint_degree_loaders/joint_degree_cover.py:16-45 | the kept columns are the sizes that occur, each clique's size is kept, and they are in ascending order |
| CoverJointDegree.SizeColumnsOccur | gcmpy/joint_degree/joint_degree_loaders/joint_degree_cover.py:40 | every kept column is a size that occurs |
| CoverJointDegree.SizeColumnsCover | gcmpy/joint_degree/joint_degree_loaders/joint_degree_cover.py:40 | every clique's size is kept |
| CoverJointDegree.CoverJdsCells | gcmpy/joint_degree/joint_degree_loaders/joint_degree_cover.py:34-45 | each cell counts how often the row's vertex sits in a clique of the column's size |
| CoverJointDegree.TableAgrees | gcmpy/joint_degree/joint_degree_loaders/joint_degree_cover.py:40-45 | a counting table with at most one missing clique size has at most one all-zero column, and the deletion as written removes just that column |
| CoverJointDegree.CoverJdsAgree | gcmpy/joint_degree/joint_degree_loaders/joint_degree_cover.py:19-45 | for a cover with at most one clique size missing below the largest, create_jdd's sequence as written equals the intended one |
| CoverJointDegree.CliqueCoverJds | gcmpy/joint_degree/joint_degree_loaders/joint_degree_cover.py:19-45 | create_jdd's computation of the sequence, before conversion, as written: ValueError for a cover without vertices, IndexError for a vertex outside the table, then the stale-index deletion; for a cover with at most one missing clique size it is the intended sequence |
| CoverJointDegree.CoverLoader.constructor | gcmpy/joint_degree/joint_degree_loaders/joint_degree_cover.py:10-16 | the loader stores the cover and its sorted distinct clique sizes |
| CoverJointDegree.CoverLoader.CreateJdd | gcmpy/joint_degree/joint_degree_loaders/joint_degree_cover.py:19-48 | create_jdd fails with the error of the sequence as written (including the IndexError of the stale deletion), and otherwise with the TypeError of counting list rows, which cannot be hashed |
| CoverJointDegree.NewCover | gcmpy/joint_degree/joint_degree_loaders/joint_degree_cover.py:10-17 | a missing cover raises the TypeError of raising a string; otherwise construction fails as create_jdd as written does |
| Marginal.Range | gcmpy/joint_degree/joint_degree_loaders/joint_degree_marginal.py:72 | range(lo, hi) has hi - lo consecutive elements starting at lo, and none when hi <= lo |
| Marginal.RangeMembers | gcmpy/joint_degree/joint_degree_loaders/joint_degree_marginal.py:72 | k lies in range(lo, hi) exactly when lo <= k < hi |
| Marginal.Ranges | gcmpy/joint_degree/joint_degree_loaders/joint_degree_marginal.py:70-72 | one range per (kmin, kmax) pair, half-open or including kmax |
| Marginal.Cons | gcmpy/joint_degree/joint_degree_loaders/joint_degree_marginal.py:73 | prefixing x keeps the number of tails and puts x in front of each |
| Marginal.PrefixedMembers | gcmpy/joint_degree/joint_degree_loaders/joint_degree_marginal.py:73 | a tuple is produced exactly when its head is among the choices and its tail among the tails |
| Marginal.PrefixedCount | gcmpy/joint_degree/joint_degree_loaders/joint_degree_marginal.py:73 | prefixing gives as many tuples as the choices times the tails |
| Marginal.ProductMembers | gcmpy/joint_degree/joint_degree_loaders/joint_degree_marginal.py:73 | itertools.product yields exactly the tuples with one coordinate from each factor |
| Marginal.ProductCount | gcmpy/joint_degree/joint_degree_loaders/joint_degree_marginal.py:73 | itertools.product yields as many tuples as the product of the factor lengths |
| Marginal.LexIrreflexive | gcmpy/joint_degree/joint_degree_loaders/joint_degree_marginal.py:73 | no tuple precedes itself lexicographically |
| Marginal.ConsAscending | gcmpy/joint_degree/joint_degree_loaders/joint_degree_marginal.py:73 | prefixing one value keeps lexicographic order |
| Marginal.AscendingConcat | gcmpy/joint_degree/joint_degree_loaders/joint_degree_marginal.py:73 | two ascending runs, the first entirely before the second, form an ascending run |
| Marginal.PrefixedAscending | gcmpy/joint_degree/joint_degree_loaders/joint_degree_marginal.py:73 | increasing heads over ascending tails give an ascending product |
| Marginal.ProductAscending | gcmpy/joint_degree/joint_degree_loaders/joint_degree_marginal.py:73 | the product of increasing ranges is in lexicographic order |
| Marginal.AllJointDegreesMeaning | gcmpy/joint_degree/joint_degree_loaders/joint_degree_marginal.py:65-73 | the tuples are exactly those inside the bounds, one per cell of the box, ascending and without repeats |
| Marginal.AllJointDegreesMembers | gcmpy/joint_degree/joint_degree_loaders/joint_degree_marginal.py:65-73 | generate_all_joint_degrees yields exactly the tuples with kmin <= k < kmax in every topology, so kmax itself is never generated |
| Marginal.EvaluateProb | gcmpy/joint_degree/joint_degree_loaders/joint_degree_marginal.py:75-84 | IndexError exactly when the tuple has more coordinates than callbacks; otherwise the product of each marginal at its coordinate |
| Marginal.JointExtend | gcmpy/joint_degree/joint_degree_loaders/joint_degree_marginal.py:81-84 | one more coordinate multiplies the joint probability by that topology's marginal |
| Marginal.JointWeights | gcmpy/joint_degree/joint_degree_loaders/joint_degree_marginal.py:60-62 | every generated tuple is a key, weighted by the product of its marginals |
| Marginal.EvaluateAll | gcmpy/joint_degree/joint_degree_loaders/joint_degree_marginal.py:60-62 | IndexError exactly when some tuple is longer than the callback list; otherwise every tuple weighted by its joint probability |
| Marginal.WeightsAre | gcmpy/joint_degree/joint_degree_loaders/joint_degree_marginal.py:60-62 | a table keyed by the generated tuples and holding their joint probabilities is the direct weight table |
| Marginal.DirectKeys | gcmpy/joint_degree/joint_degree_loaders/joint_degree_marginal.py:55-63 | the direct method fails exactly when there are more topologies than callbacks and no range is empty; otherwise the keys are exactly the tuples inside the half-open bounds |
| Marginal.DirectFails | gcmpy/joint_degree/joint_degree_loaders/joint_degree_marginal.py:55-63 | the direct weights fail exactly when there are more topologies than callbacks and every range holds a degree |
| Marginal.DirectWeightKeys | gcmpy/joint_degree/joint_degree_loaders/joint_degree_marginal.py:60-62 | the weight table's keys are the tuples inside the half-open bounds |
| Marginal.Weights | gcmpy/joint_degree/joint_degree_loaders/joint_degree_marginal.py:93 | one weight per candidate degree, the marginal evaluated at it |
| Marginal.DrawDimension | gcmpy/joint_degree/joint_degree_loaders/joint_degree_marginal.py:90-96 | random.choices over kmin..kmax inclusive: IndexError for an empty range, ValueError when the weights do not sum to a positive total, otherwise max(n, 0) degrees inside the range |
| Marginal.Stacked | gcmpy/joint_degree/joint_degree_loaders/joint_degree_marginal.py:97-99 | column_stack: n rows, row j holding the j-th draw of every column |
| Marginal.DrawColumns | gcmpy/joint_degree/joint_degree_loaders/joint_degree_marginal.py:89-96 | fails exactly at the first dimension that cannot be drawn, with its error; otherwise one column per topology, each inside its inclusive bounds |
| Marginal.StackedInBox | gcmpy/joint_degree/joint_degree_loaders/joint_degree_marginal.py:97-99 | stacking columns that keep to their bounds gives rows that keep to them |
| Marginal.DrawFromAnalyticalJoint | gcmpy/joint_degree/joint_degree_loaders/joint_degree_marginal.py:86-99 | the first failing dimension's error; ValueError from column_stack when there are no topologies; otherwise max(n, 0) tuples within the inclusive bounds |
| Marginal.MarginalLoader.constructor | gcmpy/joint_degree/joint_degree_loaders/joint_degree_marginal.py:27-46 | the loader holds the sizes, callbacks, bounds, sampling flag and sample count it was given, and no distribution yet |
| Marginal.MarginalLoader.CreateJddDirectly | gcmpy/joint_degree/joint_degree_loaders/joint_degree_marginal.py:55-63 | the direct distribution, or its error: the normalised joint probabilities over the generated tuples |
| Marginal.MarginalLoader.CreateJddBySampling | gcmpy/joint_degree/joint_degree_loaders/joint_degree_marginal.py:101-106 | the drawn tuples' error, or their relative frequencies as the distribution |
| Marginal.MarginalLoader.CreateJdd | gcmpy/joint_degree/joint_degree_loaders/joint_degree_marginal.py:49-53 | the direct method unless sampling was asked for, with that method's outcome |
| Marginal.NewMarginal | gcmpy/joint_degree/joint_degree_loaders/joint_degree_marginal.py:27-47 | a missing size, callback or bounds entry raises TypeError; use_sampling defaults to off and n_samples to 100000; construction fails exactly as create_jdd does |
| LegacyJdd.IntsInjective | gcmpy/joint_degree.py:61 | two integer rows that read back as the same literal items are the same row |
| LegacyJdd.KeyTexts | gcmpy/joint_degree.py:86 | str of a list and str of a tuple each determine the row, and no list text equals a tuple text (also line 286) |
| LegacyJdd.ListTextsDistinct | gcmpy/joint_degree.py:286 | distinct rows print as distinct list keys |
| LegacyJdd.ListKeyed | gcmpy/joint_degree.py:285-286 | every row's weight stored under str of the row as a list, and no other key |
| LegacyJdd.Texts | gcmpy/joint_degree.py:86 | one tuple text per sample, in order |
| LegacyJdd.TextsCount | gcmpy/joint_degree.py:86 | Counter over the printed samples counts each text as often as its row occurs |
| LegacyJdd.LegacyConvertJdsToJdd | gcmpy/joint_degree.py:81-86 | convert_jds_to_jdd keys each distinct sample by its tuple text, weighted by its relative frequency, and the weights sum to one |
| LegacyJdd.FlatRow | gcmpy/joint_degree.py:61 | a flat literal of integers reads back as those integers |
| LegacyJdd.ParseTexts | gcmpy/joint_degree.py:61-86 | literal_eval reads printed sample keys back as the original rows |
| LegacyJdd.PositiveEntry | gcmpy/joint_degree.py:47-50 | a distribution of positive total mass has a key numpy.random.choice can draw |
| LegacyJdd.LegacySampleJds | gcmpy/joint_degree.py:40-73 | ValueError when numpy refuses the weights; otherwise N keys of positive weight are drawn and read back, and the handshaking correction either fails with ZeroDivisionError or IndexError or makes every column sum a multiple of its motif size |
| LegacyJdd.DegreeTextsMeaning | gcmpy/joint_degree.py:235-236 | the keys the loop writes are the list texts of the splits of some degree in range(kmin, kmax) |
| LegacyJdd.SplitTextsDisjoint | gcmpy/joint_degree.py:264-286 | a split of one degree is never printed as a split of another degree, so resolve_degree never overwrites an earlier degree's entry |
| LegacyJdd.ResolvedTexts | gcmpy/joint_degree.py:271-286 | resolve_degree writes exactly the list texts of the valid splits of k |
| LegacyJdd.SplitAccKeys | gcmpy/joint_degree.py:235-236 | the loop leaves the dict's earlier keys plus the texts of every resolved degree |
| LegacyJdd.SplitAccKeeps | gcmpy/joint_degree.py:235-236 | an entry that no later degree writes keeps its weight |
| LegacyJdd.SplitAccValue | gcmpy/joint_degree.py:235-236 | each split of each degree in range keeps the weight resolve_degree gave it |
| LegacyJdd.LegacySplitMeaning | gcmpy/joint_degree.py:233-237 | before normalisation the dict holds exactly the splits of kmin .. kmax - 1, each weighted fp(k) times its share of the split probabilities |
| LegacyJdd.ResolveInto | gcmpy/joint_degree.py:264-286 | resolve_degree fails as the resolution does, and otherwise adds the weighted splits of k to the dict under their list texts |
| LegacyJdd.LegacySplitModel.constructor | gcmpy/joint_degree.py:36-38 | the model holds fp, the motif sizes, probs, kmin and kmax, and an empty dict (also lines 219-229) |
| LegacyJdd.LegacySplitModel.ResolveDegree | gcmpy/joint_degree.py:264-286 | on success the dict gains the weighted splits of k; on failure the dict is left as it was |
| LegacyJdd.LegacySplitModel.CreateJdd | gcmpy/joint_degree.py:233-237 | create_jdd leaves exactly the normalised accumulation of every degree in range(kmin, kmax), or fails as that does |
| LegacyJdd.NewLegacySplitModel | gcmpy/joint_degree.py:219-231 | construction fails as create_jdd does, and otherwise returns a new model holding its distribution |
| LegacyAnalytic.TupleTextsDistinct | gcmpy/joint_degree.py:142 | distinct tuples print as distinct keys (also line 193) |
| LegacyAnalytic.TupleKeyed | gcmpy/joint_degree.py:193-196 | every tuple's weight stored under str of the tuple, and no other key |
| LegacyAnalytic.TextsOfStep | gcmpy/joint_degree.py:141-142 | writing one more tuple adds exactly its text to the written keys |
| LegacyAnalytic.ProductInBounds | gcmpy/joint_degree.py:138-141 | the enumerated tuples are exactly the tuples inside the bounds |
| LegacyAnalytic.BoxTexts | gcmpy/joint_degree.py:138-142 | the written keys are exactly the texts of the tuples inside the bounds |
| LegacyAnalytic.WrittenStep | gcmpy/joint_degree.py:141-142 | one more loop step keeps every tuple written so far at its fp value and all other entries unchanged |
| LegacyAnalytic.LegacyJointFunction.constructor | gcmpy/joint_degree.py:114-122 | the model holds fp, the motif sizes and the bounds, and an empty dict |
| LegacyAnalytic.LegacyJointFunction.CreateJddDirectly | gcmpy/joint_degree.py:135-142 | every tuple inside the inclusive bounds is written under its text with value fp(tuple); entries already in the dict keep their value; nothing is normalised |
| LegacyAnalytic.LegacyJointFunction.CreateJddBySampling | gcmpy/joint_degree.py:130-133 | sampling the joint function always raises NotImplementedError |
| LegacyAnalytic.JointFunctionMeaning | gcmpy/joint_degree.py:135-142 | the finished dict's keys are exactly the texts of the tuples with kmin <= k <= kmax, each holding fp of the tuple |
| LegacyAnalytic.NewLegacyJointFunction | gcmpy/joint_degree.py:114-128 | NotImplementedError exactly when sampling is asked for; otherwise every tuple inside the inclusive bounds maps to fp of the tuple and nothing else is a key |
| LegacyAnalytic.ReadBack | gcmpy/joint_degree.py:196 | literal_eval of a printed tuple gives the tuple back |
| LegacyAnalytic.TextsAre | gcmpy/joint_degree.py:193 | the printed list holds exactly the printed tuples |
| LegacyAnalytic.EvaluateTexts | gcmpy/joint_degree.py:193-196 | IndexError exactly when some tuple is longer than the callback list; otherwise every printed tuple maps to its joint probability |
| LegacyAnalytic.EvaluateEach | gcmpy/joint_degree.py:195-196 | the loop over the dict's keys: IndexError exactly when some tuple is too long, otherwise each key holds the product of the marginals at its tuple |
| LegacyAnalytic.EvaluatedStep | gcmpy/joint_degree.py:195-196 | writing one key's probability keeps every earlier key at its own probability |
| LegacyAnalytic.SameText | gcmpy/joint_degree.py:193-196 | only the tuple itself prints as its own key |
| LegacyAnalytic.TupleTextsEqual | gcmpy/joint_degree.py:193-196 | equal tuple texts come from equal tuples |
| LegacyAnalytic.TupleKeyedIs | gcmpy/joint_degree.py:193-196 | a text-keyed dict agreeing with a row-keyed map on every row is that map printed |
| LegacyAnalytic.DirectWeightsAt | gcmpy/joint_degree.py:171-196 | the direct weights are keyed by the generated tuples, each holding its joint probability |
| LegacyAnalytic.TupleWeightsAre | gcmpy/joint_degree.py:193-196 | the dict the loop leaves is the newer loader's weight table with its keys printed |
| LegacyAnalytic.LegacyDirectKeys | gcmpy/joint_degree.py:171-198 | the direct dict's keys are exactly the texts of the tuples with kmin <= k < kmax |
| LegacyAnalytic.TupleKeyedKeys | gcmpy/joint_degree.py:193 | printing a map over the rows gives the printed rows as keys |
| LegacyAnalytic.InBoundsGenerated | gcmpy/joint_degree.py:171-177 | every tuple inside the half-open bounds is generated |
| LegacyAnalytic.OutcomeIs | gcmpy/joint_degree.py:189-198 | the legacy direct distribution is the newer loader's weights printed and normalised |
| LegacyAnalytic.LegacyDirectValue | gcmpy/joint_degree.py:189-198 | each tuple inside the half-open bounds has its joint probability divided by the total as its weight |
| LegacyAnalytic.TupleKeyedAt | gcmpy/joint_degree.py:193 | a row's weight can be read back under its printed key |
| LegacyAnalytic.NormalisedValue | gcmpy/joint_degree.py:75-79 | normalise_jdd divides each weight by the total |
| LegacyAnalytic.IntCountDraws | gcmpy/joint_degree.py:200-209 | with an integer sample count the legacy draw fails exactly where the newer draw does |
| LegacyAnalytic.FloatCountFails | gcmpy/joint_degree.py:208 | a float sample count makes random.choices fail, with TypeError when the weights themselves are acceptable |
| LegacyAnalytic.AsWrittenDefaultFails | gcmpy/joint_degree.py:159 | the default n_samples of 1e5 makes every sampling construction with at least one topology fail (also line 208) |
| LegacyAnalytic.DefaultSamplesDraw | gcmpy/joint_degree.py:159 | an integer default of 100000 fails only where the draw itself does (also line 208) |
| LegacyAnalytic.LegacyDrawColumns | gcmpy/joint_degree.py:203-208 | fails exactly at the first dimension that cannot be drawn; a float count succeeds only with no topologies; otherwise one column per topology of max(n, 0) degrees inside its inclusive bounds |
| LegacyAnalytic.LegacyDrawFromAnalyticalJoint | gcmpy/joint_degree.py:200-209 | the first failing dimension's error; ValueError from column_stack with no topologies; otherwise max(n, 0) tuples inside the inclusive bounds |
| LegacyAnalytic.LegacyMarginals.constructor | gcmpy/joint_degree.py:155-168 | the model holds the callbacks, sizes, bounds, sampling flag and sample count, and an empty dict |
| LegacyAnalytic.LegacyMarginals.CreateJddDirectly | gcmpy/joint_degree.py:189-198 | the direct dict is the normalised joint probabilities over the generated tuples, or the direct method's error |
| LegacyAnalytic.LegacyMarginals.CreateJddBySampling | gcmpy/joint_degree.py:211-214 | the draw's error, or the drawn tuples' relative frequencies under their tuple texts, summing to one (also lines 81-86) |
| LegacyAnalytic.NewLegacyMarginals | gcmpy/joint_degree.py:155-169 | the direct outcome unless sampling is asked for; with sampling, the draw's outcome with the given count or an integer default of 100000 |
| LegacyAnalytic.LegacyCliqueCover.constructor | gcmpy/joint_degree.py:318-321 | the motif sizes are the cover's distinct clique sizes, ascending, and the dict starts empty |
| LegacyAnalytic.LegacyCliqueCover.CreateJdd | gcmpy/joint_degree.py:324-354 | fails exactly as building the cover's joint degree sequence as written fails (including the stale deletion's IndexError), leaving the dict as it was; otherwise each row of that sequence is keyed by its tuple text with its relative frequency, summing to one |
| LegacyAnalytic.NewLegacyCliqueCover | gcmpy/joint_degree.py:318-322 | construction fails exactly as the cover's sequence as written does; otherwise the model holds the sorted clique sizes and the relative frequencies of that sequence's rows |
| LegacyDelta.DeltaAccKeys | gcmpy/joint_degree.py:304-310 | the loop leaves the dict's earlier keys plus every axis text and target split it writes |
| LegacyDelta.DeltaAccKeeps | gcmpy/joint_degree.py:304-310 | an entry the loop no longer writes keeps its weight |
| LegacyDelta.AxisTextOnce | gcmpy/joint_degree.py:305-308 | an earlier degree's axis tuple is never written again by a later degree |
| LegacyDelta.SplitTextOnce | gcmpy/joint_degree.py:306-310 | a split's list text is never an axis tuple's text, so the target's splits are not overwritten |
| LegacyDelta.DeltaAccValues | gcmpy/joint_degree.py:304-310 | each non-target degree keeps fp(k) under the text of (k, 0, ..., 0), and each split of the target keeps its resolved weight |
| LegacyDelta.LegacyDeltaMeaning | gcmpy/joint_degree.py:302-310 | before normalisation the dict holds exactly the axis tuples of the non-target degrees with weight fp(k) and the target's splits with their resolved weights |
| LegacyDelta.LegacyDeltaModel.constructor | gcmpy/joint_degree.py:292-300 | the model holds fp, sizes, probs, the target degree, kmin and kmax, and an empty dict |
| LegacyDelta.LegacyDeltaModel.CreateJdd | gcmpy/joint_degree.py:302-312 | create_jdd leaves exactly the normalised accumulation over range(kmin, kmax), or fails as that does |
| LegacyDelta.NewLegacyDeltaModel | gcmpy/joint_degree.py:292-300 | construction fails as create_jdd does, and otherwise returns a new model holding its distribution and target |

## Left out

- Floating-point arithmetic: weights, probabilities and the Metropolis ratio are reals. Rounding, and the tolerance numpy allows when weights do not sum to exactly one, are not modelled.
- LegacyJdd.LegacySampleJds: numpy's `p` check accepts weights whose sum is within a small tolerance of one. The model accepts only an exact sum of one.
- The analytical distribution functions, the message-passing and percolation equations and the float transforms between distributions are float numerics outside this core.
- Randomness is nondeterministic choice. `random.shuffle` gives any permutation; `random.choice`, `random.choices`, `randrange` and `numpy.random.choice` give any allowed element. Uniformity and the sampling frequencies are not modelled.
- networkx is replaced by the labelled-graph map. The order in which neighbours and edges are listed, and the cliques `find_cliques` / `enumerate_all_cliques` produce, are inputs of the model.
- The expected cliques, scores and covers for the 14-vertex test graph are not modelled, because that graph's clique list comes from networkx.
- RewiringEngine.MarkovChainMonteCarloRewiring.Rewire: the source loop may run forever when no partner is ever found. The model takes a `fuel` bound and reports OutOfFuel when it is used up.
- RewiringLegacy.MarkovChainMonteCarlo.Rewire: bounded by `fuel` in the same way.
- Covers.Eecc.GetEecc: the rounds are bounded by `fuel`, and OutOfFuel stands for a loop the source would still be running.
- Covers.Eecc.GetEecc: it is not proved that the cover uses only edges the graph had. The clique finder `find_cliques` is a parameter of the model with no contract, so nothing says its cliques lie in the graph.
- GcmLegacy.DrainList: with motif size 0 the source loop never ends. The model reports OutOfFuel.
- After a failed accept step the source has already changed part of the graph. The model leaves the network at its state before the swap, so that partial state is not modelled.
- GcmCustomMotifs.RandomClusteredGraph: as written the custom-motif generator cannot run. Its constructor calls `super().__init__(params)` with one argument where the base constructor needs at least two (gcmpy/gcm_algorithm/gcm_algorithm_custom_motifs.py:14 against gcmpy/gcm_algorithm/gcm_algorithm.py:22-24). The TypeError is caught and re-raised as a string, which is itself a TypeError (line 16). `self.infinite_sequence()` (line 51) is defined nowhere, so it would raise AttributeError. The model describes the generator as if construction succeeded and an id generator existed, a counter starting at `firstId`.
- `ast.literal_eval` is modelled only on the canonical text `str` produces for integers and for lists and tuples of integers, which is all the keys and labels carry. Other text is a SyntaxError. `int` itself is modelled the same way (PyText.ParseInt): an optional sign and ASCII digits, without the surrounding whitespace and digit underscores Python also accepts, which this text never has. A first-version key that reads back as something other than a flat row of integers is reported as TypeError from `zip` and `sum`. The exact exception for nested literals is not modelled.
- The first version's sampled marginal keys are `str` of tuples of numpy integers. Under numpy 2 these print as `np.int64(…)`. The model uses the plain integer form.
- `gcmpy/joint_degree/joint_degree_loaders/joint_degree_delta.py` imports `gcmpy.joint_degree.joint_degree_types`, a module that does not exist in the repository. The model describes the loader as if that import succeeded.
- The first version's joint-function loader ignores `n_samples`, because its sampling raises NotImplementedError.
- LegacyJdd.ResolveInto: the source writes the resolved entries into the dict one at a time. The model adds them as one map update, which gives the same dict because the keys are distinct.
- The thin loaders `joint_degree_manual.py`, `joint_degree_empirical.py` and `joint_degree_function.py`, and the first version's `JDD_manual` and `JDD_empirical_data`, only store or convert; conversion is `JointDegrees.ConvertJdsToJdd` and `LegacyJdd.LegacyConvertJdsToJdd`.
- The factories, names, types, network wrappers, converters and `number_connected_graphs.py` are dispatch, plumbing or networkx-bound, and are not part of this model.
- Logging and printing are dropped.
- Covers.Eecc: covers.py imports `edge_list` from the package, which exports no such name, and the package's one `edge_list` class (gcmpy/gcm_algorithm.py:52-60) has no `find_cliques`, `remove_edge`, `has_edges` or `add_edge`. The model gives those methods the semantics of gcmpy/network/network.py, so the ImportError or AttributeError the code as written would meet is not modelled.
- Stubs.Jds: joint degree counts are `nat`. The source accepts a negative count. `starmap(repeat, r)` (gcmpy/gcm_algorithm/gcm_algorithm.py:37, gcmpy/gcm_algorithm/gcm_algorithm_fast.py:35, gcmpy/gcm_algorithm/gcm_algorithm_custom_motifs.py:28) and `for _ in range(joint_degree[k])` (gcmpy/gcm_algorithm.py:117) repeat a vertex no times for it, as for 0; negative counts are not modelled.
- Gcm.RandomClusteredGraph and Gcm.FastRandomClusteredGraph: motif sizes are `nat`. The ValueError grouper raises for a negative size is not modelled; the one for size 0 is.
- GcmLegacy.RandomClusteredGraph: motif sizes are `nat`. With a negative size, `range(motif_size)` is empty, so nothing is popped and `while k_list` never ends; that endless loop is not modelled.
- GcmCustomMotifs.Partition: the slice size is `nat`. With a negative size, `range(0, len(lst), n)` is empty and `partition` returns no slices; that case is not modelled.
- RewiringLegacy: the first-version engine draws edges from epydemic's DrawSet, which is not part of this model. The package's own DrawSet stands in for it, with the same add, draw and remove operations.
- The rewiring engine keeps the acceptance-ratio logging as written. The corrected step is a function beside it, not a second engine.

## Findings

| source | as written | input that shows it | evidently intended | confidence | as-written member | corrected member |
|---|---|---|---|---|---|---|
| gcmpy/tools/markov_chain_monte_carlo_rewiring.py:44-45 | without a convergence limit the constructor computes `10 * self._network.G.edges()`, which multiplies an int by an edge view; the TypeError is re-raised as ErrorMarkovChainMonteCarloRewiring | parameters holding a network and ejks but no CONVERGENCE_LIMIT | a default of ten swaps per edge, `10 * number_of_edges()` | high, not executed | RewiringEngine.DefaultLimitUnreachable (about RewiringEngine.LimitsAsWritten) | RewiringEngine.Limits, with RewiringEngine.LimitsAgree; used by RewiringEngine.MarkovChainMonteCarloRewiring.New |
| gcmpy/joint_degree/joint_degree_loaders/joint_degree_cover.py:40-45 | the all-zero column indexes are computed once and then deleted in ascending order from rows that earlier deletions already shortened (the first version does the same at gcmpy/joint_degree.py:346-351) | cliques of sizes 2 and 4 sharing one vertex give the row [0, 1, 0, 1], which becomes [1, 0] instead of [1, 1]; the row [1, 0, 0, 0, 1] raises IndexError | drop exactly the all-zero columns and keep the others in order | high, not executed | CoverJointDegree.StaleDeletionShifts and CoverJointDegree.StaleDeletionOverruns (about CoverJointDegree.DropAsWritten, which CoverJointDegree.DeleteColumns computes and CoverJointDegree.CliqueCoverJds, CoverJointDegree.CoverLoader.CreateJdd, CoverJointDegree.NewCover and the first version's LegacyAnalytic.LegacyCliqueCover.CreateJdd follow) | CoverJointDegree.KeptAreSizes and CoverJointDegree.CoverJdsCells (about CoverJointDegree.DropColumns), with CoverJointDegree.CoverJdsAgree for the covers where both agree |
| gcmpy/joint_degree.py:159 | the default `n_samples = 1e5` is a float, so `random.choices(..., k=1e5)` at line 208 raises TypeError | `JDD_marginals(arr_fp, motif_sizes, bounds, use_sampling=True)` with at least one topology | the integer 100000 that the current loader uses (gcmpy/joint_degree/joint_degree_loaders/joint_degree_marginal.py:31) | high, not executed | LegacyAnalytic.AsWrittenDefaultFails, with LegacyAnalytic.FloatCountFails | LegacyAnalytic.DefaultSamplesDraw; used by LegacyAnalytic.NewLegacyMarginals |
| gcmpy/tools/markov_chain_monte_carlo_rewiring.py:365-368 | the acceptance ratio is logged from the engine's own `_proposal_count` and `_proposals_accepted`, which `__init__` sets to 0 (lines 35-36) and nothing changes; the decorator at gcmpy/tools/markov_chain_monte_carlo.py:14-28 counts on the class attributes | any completed `rewire` with a convergence limit of 0 or more | log the share of accepted proposals every 50 swaps from the counters the decorator updates | high, not executed | RewiringEngine.RatiosNeverRecorded (about RewiringEngine.MarkovChainMonteCarloRewiring.Rewire) | Mcmc.LogRatio |
