/** `gen` (src/lib.rs): expansion, then filter and composition, then
    compaction, with one error slot threaded through the three phases. The
    result is `Ok(graph)` when the slot ends empty and `Err((graph, e))` when
    it holds `e`; the graph is the same compacted graph either way. */
module GraphBuilder {
  import opened Graphs
  import opened Expansion
  import opened Composition
  import opened Compaction

  /** The nodes of `nodes` satisfying `g`, in order. */
  ghost function Filter<T>(nodes: seq<T>, g: T -> bool): seq<T>
    decreases |nodes|
  {
    if nodes == [] then []
    else Filter(nodes[..|nodes| - 1], g) + (if g(nodes[|nodes| - 1]) then [nodes[|nodes| - 1]] else [])
  }

  /** The indices of the nodes failing `g`. */
  ghost function Failing<T>(nodes: seq<T>, g: T -> bool): set<nat> {
    set i | 0 <= i < |nodes| && !g(nodes[i])
  }

  /** The graph a result of `gen` carries, in either case. */
  function GraphOf<T, U, E>(r: Result<Graph<T, U>, (Graph<T, U>, E)>): Graph<T, U> {
    if r.Ok? then r.value else r.error.0
  }

  /** Keeping the nodes whose index is not among the failing ones is keeping
      the nodes that satisfy `g`. */
  lemma {:induction false} KeptIsFilter<T>(nodes: seq<T>, g: T -> bool, k: nat)
    requires k <= |nodes|
    ensures Kept(nodes[..k], Failing(nodes, g)) == Filter(nodes[..k], g)
    decreases k
  {
    if k > 0 {
      KeptIsFilter(nodes, g, k - 1);
      KeptPrefix(nodes, Failing(nodes, g), k - 1);
      assert nodes[..k][..k - 1] == nodes[..k - 1];
    }
  }

  /** An edge of the compacted graph joins two nodes that satisfy `g`. */
  lemma SurvivorsPass<T, U>(nodes: seq<T>, g: T -> bool, newNodes: seq<T>, mapNodes: seq<Option<nat>>,
                            edges: seq<Edge<U>>, out: seq<Edge<U>>)
    requires Renumbering(nodes, Failing(nodes, g), newNodes, mapNodes)
    requires ValidEdges(edges, |mapNodes|)
    requires multiset(out) == multiset(Remapped(mapNodes, edges))
    ensures ValidEdges(out, |newNodes|)
    ensures forall t | 0 <= t < |out| :: g(newNodes[out[t].src]) && g(newNodes[out[t].dst])
  {
    forall t | 0 <= t < |out|
      ensures out[t].src < |newNodes| && out[t].dst < |newNodes|
      ensures g(newNodes[out[t].src]) && g(newNodes[out[t].dst])
    {
      var e := out[t];
      assert e in multiset(Remapped(mapNodes, edges));
      RemappedKept(nodes, Failing(nodes, g), newNodes, mapNodes, edges, e);
      var s :| 0 <= s < |edges| && edges[s].src !in Failing(nodes, g) && edges[s].dst !in Failing(nodes, g) &&
               e == Edge(mapNodes[edges[s].src].value, mapNodes[edges[s].dst].value, edges[s].data);
      assert newNodes[e.src] == nodes[edges[s].src];
      assert newNodes[e.dst] == nodes[edges[s].dst];
    }
  }

  /** `gen((seedNodes, seedEdges), n, f, g, h, settings)`. `into` converts a
      ceiling to the caller's error type. The ghost results name the
      intermediate values the contract speaks of: the nodes, edges and index
      map after expansion, the ceiling that stopped it (if any) and the point
      `(ei, ej)` it reached, the error slot after expansion, the edges after
      composition, the renumbering and the final error slot. */
  method Gen<T(==), U, E>(seedNodes: seq<T>, seedEdges: seq<Edge<U>>, n: nat,
                          f: (T, nat) -> Result<(T, U), E>, g: T -> bool, h: (U, U) -> Result<U, Option<E>>,
                          settings: GenerateSettings, into: GenerateError -> E)
    returns (r: Result<Graph<T, U>, (Graph<T, U>, E)>,
             ghost expanded: seq<T>, ghost expandedEdges: seq<Edge<U>>, ghost index: map<T, nat>,
             ghost halt: Option<GenerateError>, ghost ei: nat, ghost ej: nat, ghost expandError: Option<E>,
             ghost composed: seq<Edge<U>>, ghost mapNodes: seq<Option<nat>>, ghost slot: Option<E>)
    requires ValidEdges(seedEdges, |seedNodes|)
    // expansion: exactly the steps before the point `(ei, ej)` the loop
    // reached, each expanded node present when its round began
    ensures Expanded(seedNodes, seedEdges, n, f, settings, into, expanded, expandedEdges, index,
                     Pairs(expandedEdges), expandError, halt, ei, ej)
    // expansion only appends to the seed, and does nothing without steps
    ensures seedNodes <= expanded
    ensures n == 0 ==> expanded == seedNodes && expandedEdges == seedEdges
    ensures |seedNodes| < settings.maxNodes && |seedEdges| < settings.maxEdges ==>
              |expanded| <= settings.maxNodes && |expandedEdges| <= settings.maxEdges
    // composition: the exact result of visiting the pairs in the loops' order
    ensures ValidEdges(expandedEdges, |expanded|)
    ensures (composed, slot) == AfterFrom(|expanded|, |expandedEdges|, Failing(expanded, g), h,
                                          expandedEdges, expandError, 0)
    // composition only appends, with endpoint pairs not seen before
    ensures expandedEdges <= composed && FreshPairs(composed, |expandedEdges|)
    ensures ValidEdges(composed, |expanded|)
    ensures forall t | |expandedEdges| <= t < |composed| ::
              Composite(composed, |expandedEdges|, Failing(expanded, g), h, t)
    ensures forall j, k | 0 <= j < |composed| && 0 <= k < |expandedEdges| ::
              Settled(composed, Failing(expanded, g), h, slot, j, k)
    // the final nodes: the expanded nodes that pass the filter, in order
    ensures GraphOf(r).0 == Filter(expanded, g)
    ensures Renumbering(expanded, Failing(expanded, g), GraphOf(r).0, mapNodes)
    // the final edges: in some order, the renumbered composed edges whose
    // endpoints both pass the filter
    ensures |mapNodes| == |expanded|
    ensures multiset(GraphOf(r).1) == multiset(Remapped(mapNodes, composed))
    ensures ValidEdges(GraphOf(r).1, |GraphOf(r).0|)
    ensures forall t | 0 <= t < |GraphOf(r).1| ::
              g(GraphOf(r).0[GraphOf(r).1[t].src]) && g(GraphOf(r).0[GraphOf(r).1[t].dst])
    // the error slot: what expansion left, else a reported composition error
    ensures expandError.Some? ==> slot == expandError
    ensures expandError.None? && slot.Some? ==>
              Reported(composed, |expandedEdges|, Failing(expanded, g), h, slot.value)
    ensures r.Ok? <==> slot.None?
    // reaching a ceiling always makes the result an `Err`
    ensures halt.Some? ==> r.Err?
    ensures r.Err? ==> r.error.1 == slot.value
  {
    var nodes, edges, has, hasEdge, error, stop, i, j := Expand(seedNodes, seedEdges, n, f, settings, into);
    expanded, expandedEdges, index, halt, ei, ej, expandError := nodes, edges, has, stop, i, j, error;
    var removed;
    removed, edges, error := FilterAndCompose(nodes, edges, hasEdge, g, h, error);
    composed := edges;
    var newNodes, out;
    newNodes, mapNodes, out := Compact(nodes, edges, removed);
    slot := error;
    calc {
      newNodes;
      Kept(nodes, removed);
      { assert nodes[..|nodes|] == nodes; KeptIsFilter(nodes, g, |nodes|); }
      Filter(nodes, g);
    }
    SurvivorsPass(nodes, g, newNodes, mapNodes, edges, out);
    if error.Some? {
      r := Err(((newNodes, out), error.value));
    } else {
      r := Ok((newNodes, out));
    }
  }
}
