# graph_builder in Dafny

A model of the graph generator `gen` and the edge symmetriser `bidir` of the
Rust library graph_builder (`src/lib.rs`), together with the helpers and
closures of its example `examples/eq.rs`, with proofs of what they compute.

`gen` grows a graph from a seed: each node is expanded with each step `j < n`
by a rule `f`, and new nodes are deduplicated through an index map. The node
and edge ceilings of `GenerateSettings` end the expansion. Then the nodes
failing a filter `g` are removed. Before that, every edge into a removed node
is composed, by `h`, with the edges leaving it, so paths through removed nodes
survive as direct edges. Finally the kept nodes are renumbered and the edges
rewritten. One error slot runs through all three phases, and the result is
`Ok(graph)` or `Err((graph, error))` with the same graph.

`bidir` puts each edge's endpoints in ascending order and sorts the edges by
endpoint pair. It then walks the sorted list from the end in pairs and keeps
one element of each pair.

The modules follow the structure of the library:

- `Graphs` (graph.dfy): the shared types and `Vec::swap_remove`.
- `Sorting` (sorting.dfy): the promise of a stable sort by key.
- `Expansion`, `Composition`, `Compaction` (expansion.dfy, composition.dfy,
  compaction.dfy): the three phases of `gen`, each an imperative method over
  lists, maps and sets, proved against ghost specification functions.
- `GraphBuilder` (gen.dfy): `gen` itself.
- `Pairing` and `Symmetrize` (pairing.dfy, symmetrize.dfy): `bidir`. Its pair
  walk is proved against the function `Uppers`, which lists the element kept
  from each pair.
- `EqExample` (eq_example.dfy): the equation example.

What `bidir` does differs from its documentation comment
(`src/lib.rs:224-231`). The model follows the code:

- An edge that exists in one direction only is not necessarily removed.
  Whether it stays depends on where sorting puts it and on whether the edge
  it is paired with equals it. A lone edge is kept
  (`LoneEdgeSurvives`), and with an odd number of edges the first sorted edge
  has no partner and is always kept. Paired with an edge of other endpoints,
  a one-way edge is dropped when it is the lower one of the pair
  (`OneWayEdgeLost`).
- Two edges with the same endpoints but different labels that form one pair
  of the walk (for instance when they are the only two edges) keep the one
  sorted later (`UnequalPairKeepsUpper`). The comparison `edges[j] == edges[k]`
  (`src/lib.rs:248`) only decides which copy is removed; a copy of the upper
  edge stays either way, so two directions that disagree are not dropped.
- Where every canonical edge occurs exactly twice with equal labels, `bidir`
  keeps exactly one copy of each (`DocumentedCase`).
- `bidir` is not idempotent. A second pass halves any list of two or more
  edges again (`NotIdempotent`).

Nodes are any type with equality. Labels and errors are type parameters. The
caller's conversion `From<GenerateError>` is a function parameter `into`.

## Model

| member | source | states |
|---|---|---|
| Graphs.SwapRemove | src/lib.rs:213 | `swap_remove(j)`: length drops by one, elements before `j` stay, the last element moves into slot `j`, the elements from `j` on are those after `j` before, and the multiset loses exactly `s[j]` |
| Sorting.SortBy | src/lib.rs:240 | the stable sort `sort_by_key`: the result is ordered by key, is a permutation of the input, and lists the elements of each key in input order |
| Sorting.TiedStay | src/lib.rs:240 | sorting two elements with equal keys leaves them in place |
| Sorting.AscendingStay | src/lib.rs:240 | sorting two elements whose keys are strictly ordered leaves them in place |
| Sorting.SortedUnique | src/lib.rs:240 | for an antisymmetric total order, two lists ordered by key that list the elements of each key alike are equal |
| Sorting.SortByUnique | src/lib.rs:240 | for an antisymmetric total order, `SortBy` is the only ordered list that keeps each key's elements in input order, so every stable sort returns it |
| Expansion.Seed | src/lib.rs:119-127 | every seed node is mapped to index 0 in `has`, and `has_edge` holds exactly the endpoint pairs of the seed edges |
| Expansion.Step | src/lib.rs:131-158 | one step `f(nodes[i], j)`: on success the loop either runs on at `(i, j + 1)` with nodes, map, edges and edge set extended by that step, or halts at the first ceiling reached with the error slot set only if it was empty; on failure the slot holds that error and nothing else changes |
| Expansion.ExpandNode | src/lib.rs:130-159 | all steps of node `i`: the loop runs through every step, or halts at a ceiling right after a successful step; without a halt the node list grew only below the node ceiling |
| Expansion.ExpandAll | src/lib.rs:128-161 | the outer loop ends at the end of the growing node list with every step processed, or halted at a ceiling; either way every node it expanded was already in the list when its round began (`Grounded`), because the loop only reaches node `i` while `i < nodes.len()` |
| Expansion.Expand | src/lib.rs:119-161 | `Expanded`: after expansion the nodes are the seed followed by each new candidate once, in the order found, and each expanded node was in the list when its round began; the edges are the seed edges followed by one edge `[i, has[cand]]` per successful step, in order; `has_edge` is their pair set; which ceiling stopped the loop and why; both counts stayed below the ceilings before the last step; the error slot holds the last failing step's error, else the ceiling's; with `n == 0` nothing changes |
| Expansion.Concluded | src/lib.rs:128-161 | the state in which the loop exits, run to the end or halted, meets `Expanded`, the whole contract of the expansion |
| Expansion.Succeeded | src/lib.rs:140-153 | after a successful step the ceilings are checked in order, nodes first: below both the loop runs on, and at one of them it halts with the right `GenerateError` |
| Expansion.FreshDistinct | src/lib.rs:133-139 | the nodes admitted by deduplication are pairwise distinct and none is a seed node |
| Expansion.FreshCovers | src/lib.rs:133-139 | every candidate is a seed node or an admitted node, and every admitted node is some step's candidate |
| Expansion.FreshGrows | src/lib.rs:137 | the node list only grows, by at most one node per successful step |
| Expansion.Targets | src/lib.rs:133-141 | each step's edge points to 0 when its candidate is a seed node, and otherwise to the appended node equal to the candidate |
| Expansion.WithinCeilings | src/lib.rs:143-153 | when the seed is below both ceilings, expansion never passes either of them |
| Expansion.LastFailureNone | src/lib.rs:155-157 | the error slot is empty after expansion's steps exactly when no step failed |
| Expansion.StepsFrame | src/lib.rs:131 | a step reads only the node it expands, so appending nodes changes no earlier step |
| Expansion.GroundedFrame | src/lib.rs:128-137 | appending nodes keeps every earlier node grounded |
| Expansion.Agree | src/lib.rs:128-139 | two node lists built by the steps before their points agree on every node the first has grounded, since such a node is fixed by the steps before its round |
| Expansion.NotBefore | src/lib.rs:128-153 | no state meeting `Expanded` stops strictly before another: a run to the end leaves no node for the other to expand, and a ceiling reached earlier would be among the other's steps, all below the ceilings |
| Expansion.ExpandDeterminate | src/lib.rs:119-161 | the expansion is determinate: two states meeting `Expanded` for the same inputs are equal in nodes, edges, `has`, `has_edge`, error slot, ceiling and stopping point |
| Expansion.SelfDerivationExcluded | src/lib.rs:128-131 | from seed `[0]` whose one step fails, a list `[0, 1]` in which `1` derives itself is not grounded, so it is no expansion result |
| Composition.Removed | src/lib.rs:162-164 | `removed` holds exactly the indices of the nodes failing `g` |
| Composition.ComposeStep | src/lib.rs:175-191 | one pair `(j, k)`: the new edge list and slot are exactly `AfterStep`: when edge `k` starts where edge `j` ends and `[a, d]` is absent, `Ok` appends `[a, d]` with `h`'s label, `Err(None)` changes nothing, and `Err(Some(e))` fills the slot when it is empty; otherwise nothing changes; `has_edge` stays the pair set of the list, and the pair is settled |
| Composition.ComposeFrom | src/lib.rs:171-193 | the inner loop for edge `j`: the new edge list and slot are exactly `AfterRow`, the visits of `(j, 0)`, ..., `(j, edges_count - 1)` in this order; every such pair is settled |
| Composition.ComposeAll | src/lib.rs:165-195 | the loop over the growing edge list: the edge list and slot are exactly `AfterFrom` from edge 0, appended edges visited too; every pair of any edge and one of the first `edges_count` edges is settled |
| Composition.FilterAndCompose | src/lib.rs:162-195 | `removed` is the indices failing `g`; the edge list and slot are exactly `AfterFrom`, the visits in the loops' order; so the edge list only grows, each appended edge has a new endpoint pair and is the `h`-labelled composition of an earlier edge and a continuing original one, every continuing pair ends composed or rejected, an error already in the slot is kept, and one filled during the phase was reported by `h` on a continuing pair |
| Composition.Witnessed | src/lib.rs:176-190 | every appended edge and every reported error comes from a pair the loop visited |
| Composition.Shrinks | src/lib.rs:181-182 | each appended edge adds a new pair to `has_edge`, so the composition loop terminates |
| Composition.ComposeNext | src/lib.rs:170-194 | one round of the outer loop: edge `j` is composed onwards by `AfterRow` exactly when its target is removed, and otherwise nothing changes |
| Composition.KeepsError | src/lib.rs:184-186 | only the first error is reported: once the slot is filled, the rest of the composition leaves it as it is |
| Composition.Silent | src/lib.rs:183 | a composer that only rejects with `Err(None)` leaves the slot as it was, whatever it rejects |
| Composition.FromGrows | src/lib.rs:168-194 | composition only appends to the edge list, stays within the nodes, and adds endpoint pairs whenever it changes the list |
| Composition.ErrorBeforeComposition | src/lib.rs:173-188 | with node 1 removed, an error `h` reports on `[0, 1], [1, 2]` stays in the slot although a parallel `[1, 2]` then composes `[0, 2]`, so `gen` returns `Err` |
| Composition.FirstPairLabels | src/lib.rs:176-181 | with nodes 1 and 2 removed and two paths from 0 to 3, the composed `[0, 3]` carries the label from the first pair visited, and `h` is not asked for the second |
| Compaction.Renumber | src/lib.rs:197-207 | the new node list is the kept nodes in order, and `map_nodes[i]` is `None` exactly for removed `i` and otherwise the position of node `i` in the new list, increasing in `i` |
| Compaction.RenumberingHolds | src/lib.rs:199-206 | the new index of a kept node is the number of kept nodes before it |
| Compaction.KeptGrows | src/lib.rs:199-206 | the kept list only grows as the loop advances |
| Compaction.Visit | src/lib.rs:209-214 | one reverse step: edge `j` is rewritten in place when both its endpoints are kept, and swap-removed otherwise |
| Compaction.RewriteKept | src/lib.rs:210-211 | rewriting a kept edge in place extends the visited part by its image |
| Compaction.RewriteDropped | src/lib.rs:212-213 | swap-removing a dropped edge keeps the visited part, since the edge moved into slot `j` was already visited |
| Compaction.RewriteEdges | src/lib.rs:208-215 | the reverse pass leaves, in some order, the images under `map_nodes` of exactly the edges whose endpoints are both kept |
| Compaction.Compact | src/lib.rs:197-215 | compaction is the renumbering followed by the rewriting of the edges |
| Compaction.RemappedKept | src/lib.rs:208-215 | every surviving edge is the image of an input edge with both endpoints kept, and indexes the new node list |
| Compaction.KeptRemapped | src/lib.rs:208-215 | the image of every input edge with both endpoints kept survives |
| GraphBuilder.KeptIsFilter | src/lib.rs:164 | the nodes whose index is not in `removed` are the nodes satisfying `g`, in order |
| GraphBuilder.SurvivorsPass | src/lib.rs:197-215 | every edge of the compacted graph indexes the new node list and joins two nodes satisfying `g` |
| GraphBuilder.Gen | src/lib.rs:103-222 | `gen`: the expansion meets `Expanded`, which by `ExpandDeterminate` fixes it: it appends to the seed each new candidate once, in the order the steps find them, each expanded node being in the list when its round began, with one edge per successful step to the candidate's index, up to the point where a ceiling stopped it; a ceiling reached always makes the result an `Err`; the expansion's error slot holds the last failing step's error, else the ceiling's; the composed edges and slot are exactly `AfterFrom` over the expanded edges, the failing nodes and the expansion's slot, so composition only appends edges with new endpoint pairs, each the `h`-labelled composition of an earlier edge and a continuing original one, and every continuing pair ends composed or rejected; the result's nodes are the expanded nodes passing `g`, in order; its edges are, in some order, the renumbered composed edges with both endpoints passing `g`; the slot holds the expansion's error, else a reported composition error; the result is `Ok` exactly when the slot is empty, and otherwise carries the slot's error with the same graph |
| Pairing.PairUp | src/lib.rs:241-258 | the pair walk leaves, in some order, the element kept from each pair of the sorted list (`Uppers`), half the edges rounded up |
| Pairing.Complete | src/lib.rs:247-253 | completing a pair removes its upper element when the two are equal and its lower one otherwise; either way a copy of the upper one stays |
| Pairing.PairStep | src/lib.rs:247-252 | both removals extend the walked part by the pair's upper element |
| Pairing.UppersLength | src/lib.rs:241-258 | the walk keeps one element per pair, plus the unpaired first one |
| Pairing.UppersSub | src/lib.rs:241-258 | the kept elements are elements of the list, no more often than they occur |
| Symmetrize.Canonicalize | src/lib.rs:236-239 | every edge's endpoints are put in ascending order, the labels are kept, and the order of the edges is unchanged |
| Symmetrize.PairLeTotal | src/lib.rs:240 | the order of `[usize; 2]` keys is total and transitive |
| Symmetrize.Bidir | src/lib.rs:232-259 | `bidir` leaves nothing for an empty input; otherwise it leaves, in some order, one edge per pair of the sorted canonical list, half the edges rounded up, each with ascending endpoints |
| Symmetrize.SurvivorsCanonical | src/lib.rs:232-259 | every surviving edge is a canonicalised input edge, no more often than it occurs |
| Symmetrize.DocumentedCase | src/lib.rs:224-231 | under the documented assumption, where every canonical edge occurs exactly twice with equal labels, `bidir` keeps exactly one copy of each |
| Symmetrize.LoneEdgeSurvives | src/lib.rs:226 | a lone edge, which exists in one direction only, is kept, not removed |
| Symmetrize.UnequalPairKeepsUpper | src/lib.rs:247-252 | of two edges with the same endpoints and different labels, the one sorted later is kept and the other is lost |
| Symmetrize.OneWayEdgeLost | src/lib.rs:240-251 | an edge that exists in one direction only, sorted before an edge of other endpoints in a two-edge list, is removed and the other is kept |
| Symmetrize.TiedPairStays | src/lib.rs:240 | sorting keeps two edges with the same endpoints in input order |
| Symmetrize.AscendingPairStays | src/lib.rs:240 | sorting two canonical edges whose endpoint pairs ascend strictly keeps their order |
| Symmetrize.SortedCanonicalUnique | src/lib.rs:240 | every list that `sort_by_key` could return for the canonical edges (ordered by endpoint pair, ties in input order) is `SortedCanonical` |
| Symmetrize.NotIdempotent | src/lib.rs:232-259 | on three or more edges, applying `bidir` again to its output shrinks it, so `bidir` is not idempotent |
| EqExample.CountTrue | examples/eq.rs:123 | the filtered count is the number of indices whose entry is `true` |
| EqExample.LenRight | examples/eq.rs:122-124 | `len_right` is the number of terms on the right side |
| EqExample.UniqueRight | examples/eq.rs:127-136 | `unique_right` is `Some` exactly when one term is on the right side, and then it is that term's index |
| EqExample.Signs | examples/eq.rs:139-144 | the signs are swapped to `("-", "+")` exactly when a single term is on the right side and it is negative |
| EqExample.F | examples/eq.rs:68-73 | `f` always succeeds; it flips the side and sign of term `ind` only, and labels the edge `Swap([ind])` |
| EqExample.FInvolution | examples/eq.rs:68-73 | moving the same term twice gives back the equation |
| EqExample.FMovesOne | examples/eq.rs:68-75 | one move changes the number of right-side terms by exactly one |
| EqExample.G | examples/eq.rs:75 | `g` holds exactly when the number of right-side terms is `solution_terms` |
| EqExample.FLeavesFilter | examples/eq.rs:68-75 | no neighbour of a node passing `g` passes `g` itself |
| EqExample.LexLeTotal | examples/eq.rs:78 | the order of `Vec<usize>` labels is total |
| EqExample.LexLeAntisymmetric | examples/eq.rs:78 | the order of `Vec<usize>` labels is antisymmetric |
| EqExample.H | examples/eq.rs:78-83 | `h` rejects silently exactly when `a >= b`; otherwise it joins the moves into a sorted permutation of both lists |
| EqExample.HOneOrder | examples/eq.rs:78-83 | of two different labels, exactly one order is joined |
| EqExample.Start | examples/eq.rs:54-65 | the seed has `n` positive terms, all on the right except the last one when `solution_terms == 1` |
| EqExample.StartRight | examples/eq.rs:54-65 | the seed has `n - 1` right-side terms when `solution_terms == 1` and `n > 0`, and `n` otherwise |

## Left out

- Integer width: `usize` is modelled by unbounded `nat`. The counts `n`, the ceilings and the edge indices never wrap in the source either.
- The hashing behind `HashMap`/`HashSet` is left out. The index map is a `map`, the edge set and `removed` are `set`s, and only their contents matter.
- The sorting algorithm of the standard library is left out. `Sorting.SortBy` stands for any stable sort by key. For `bidir` this loses nothing: the endpoint-pair order is antisymmetric, so only one list is a stable sort of the canonical edges (`Symmetrize.SortedCanonicalUnique`).
- Symmetrize.Bidir: the order of the returned edges is stated only up to permutation, as a multiset. The source promises no order ("unsorted afterwards").
- Compaction.RewriteEdges: the order of the returned edges is stated only up to permutation. The exact order that `swap_remove` produces is not stated.
- `removed_edges` (src/lib.rs:166, 172) is written but never read, so it is not modelled.
- Pairing.PairUp: the branch at src/lib.rs:245-246 cannot be reached, because the waiting index always has its partner. The model proves it dead and does nothing there.
- EqExample.F: indexing out of range panics in the source. The model requires `ind` to index both vectors.
- EqExample.Signs: the model requires that the index `unique_right` finds also indexes `positive`. Outside that the source panics.
- Expansion.Expand and GraphBuilder.Gen require the seed edges to index seed nodes. The source accepts any seed edges: one whose endpoint lies beyond the seed ends up pointing at whatever node expansion appends at that index, and, if there is none, the source panics when it rewrites the edge (`map_nodes[a]`, src/lib.rs:210). Neither case is modelled.
- The `Display` impls, the `Error` impl and the `From<GenerateError> for ()` plumbing (src/lib.rs:42-55), and the `Display` of `Eq` in the example. They only format, or they convert to the unit type, which `into` covers.
- The `main` of examples/eq.rs: reading arguments, the fixed settings, printing, and the final `edges.sort()` are left out. They are I/O around `gen` and `bidir`.
