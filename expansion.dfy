/** Phase 1 of `gen` (src/lib.rs): expansion.

    The node list is walked by index while it grows. For node `i` and every step
    `j < n` the rule `f(nodes[i], j)` is tried. A successful step looks its
    candidate up in the index map `has`: a known candidate keeps its index (every
    seed node is known under index 0), a new one is appended. Either way an edge
    `[i, id]` with the returned label is appended. After each successful step the
    ceilings are checked, and the first one reached ends the whole phase. A
    failing step overwrites the error slot and expansion goes on.

    The specification of the phase is stated over the steps the loop has
    processed: `Derivations` lists the successful ones in processing order,
    `LastFailure` gives the error of the last failing one, and `Fresh` gives the
    candidates that deduplication admits as new nodes. Because these read the
    node list they describe, `Grounded` adds that the loop only expands nodes
    it already has; with it the exit contract `Expanded` has exactly one
    solution (`ExpandDeterminate`). */
module Expansion {
  import opened Graphs

  /** A successful step: `f(nodes[src], step) == Ok((cand, data))`. */
  datatype Derivation<T, U> = Derivation(src: nat, step: nat, cand: T, data: U)

  /** `(i, j)` is a point of the loop over `count` nodes and `n` steps: the steps
      processed before it are all steps of the nodes before `i` and the steps
      before `j` of node `i`. */
  ghost predicate Position(count: nat, n: nat, i: nat, j: nat) {
    i <= count && j <= n && (j > 0 ==> i < count)
  }

  /** The successful steps before `(i, j)`, in processing order. */
  ghost function Derivations<T, U, E>(nodes: seq<T>, n: nat, f: (T, nat) -> Result<(T, U), E>, i: nat, j: nat)
    : seq<Derivation<T, U>>
    requires Position(|nodes|, n, i, j)
    decreases i, j
  {
    if j > 0 then
      var before := Derivations(nodes, n, f, i, j - 1);
      match f(nodes[i], j - 1)
      case Ok(r) => before + [Derivation(i, j - 1, r.0, r.1)]
      case Err(_) => before
    else if i > 0 then Derivations(nodes, n, f, i - 1, n)
    else []
  }

  /** The error of the last failing step before `(i, j)`, if any. */
  ghost function LastFailure<T, U, E>(nodes: seq<T>, n: nat, f: (T, nat) -> Result<(T, U), E>, i: nat, j: nat)
    : Option<E>
    requires Position(|nodes|, n, i, j)
    decreases i, j
  {
    if j > 0 then
      match f(nodes[i], j - 1)
      case Err(e) => Some(e)
      case Ok(_) => LastFailure(nodes, n, f, i, j - 1)
    else if i > 0 then LastFailure(nodes, n, f, i - 1, n)
    else None
  }

  /** The candidates of `ds` that are neither seed nodes nor earlier
      candidates: the nodes deduplication appends, in the order appended. */
  ghost function Fresh<T, U>(seed: seq<T>, ds: seq<Derivation<T, U>>): seq<T>
    decreases |ds|
  {
    if ds == [] then []
    else
      var before := Fresh(seed, ds[..|ds| - 1]);
      var c := ds[|ds| - 1].cand;
      if c in seed || c in before then before else before + [c]
  }

  /** The content of `has`: every node is a key, every seed node is mapped to
      0, and every appended node to its own index. */
  ghost predicate IndexMap<T>(has: map<T, nat>, seed: seq<T>, nodes: seq<T>) {
    && has.Keys == (set x | x in nodes)
    && (forall x | x in seed :: x in has && has[x] == 0)
    && (forall q | |seed| <= q < |nodes| :: nodes[q] in has && has[nodes[q]] == q)
  }

  /** The edges after the first `base` are one per derivation, in order, from
      the derivation's node to the index `has` gives its candidate. */
  ghost predicate EdgesFollow<T, U>(edges: seq<Edge<U>>, base: nat, ds: seq<Derivation<T, U>>, has: map<T, nat>) {
    && |edges| == base + |ds|
    && forall t | 0 <= t < |ds| ::
         ds[t].cand in has && edges[base + t] == Edge(ds[t].src, has[ds[t].cand], ds[t].data)
  }

  /** After the first `t` successful steps both counts were below their ceilings. */
  ghost predicate BelowAfter<T, U>(seed: seq<T>, seedEdgeCount: nat, ds: seq<Derivation<T, U>>, t: nat,
                                   settings: GenerateSettings)
    requires t <= |ds|
  {
    && |seed| + |Fresh(seed, ds[..t])| < settings.maxNodes
    && seedEdgeCount + t < settings.maxEdges
  }

  /** The candidates that deduplication admits are pairwise distinct and are
      not seed nodes. */
  lemma {:induction false} FreshDistinct<T, U>(seed: seq<T>, ds: seq<Derivation<T, U>>)
    ensures forall p, q | 0 <= p < q < |Fresh(seed, ds)| :: Fresh(seed, ds)[p] != Fresh(seed, ds)[q]
    ensures forall x | x in Fresh(seed, ds) :: x !in seed
    decreases |ds|
  {
    if ds != [] {
      FreshDistinct(seed, ds[..|ds| - 1]);
    }
  }

  /** Every candidate ends up as a seed node or an admitted node, and every
      admitted node is the candidate of some derivation. */
  lemma {:induction false} FreshCovers<T, U>(seed: seq<T>, ds: seq<Derivation<T, U>>)
    ensures forall t | 0 <= t < |ds| :: ds[t].cand in seed || ds[t].cand in Fresh(seed, ds)
    ensures forall x | x in Fresh(seed, ds) :: exists t :: 0 <= t < |ds| && ds[t].cand == x
    decreases |ds|
  {
    if ds != [] {
      var ds' := ds[..|ds| - 1];
      FreshCovers(seed, ds');
      forall x | x in Fresh(seed, ds) ensures exists t :: 0 <= t < |ds| && ds[t].cand == x {
        if x in Fresh(seed, ds') {
          var t :| 0 <= t < |ds'| && ds'[t].cand == x;
          assert ds[t] == ds'[t];
        } else {
          assert ds[|ds| - 1].cand == x;
        }
      }
    }
  }

  /** The node list only grows: the nodes admitted after the first `t`
      derivations are a prefix of those admitted after all of them. */
  lemma {:induction false} FreshGrows<T, U>(seed: seq<T>, ds: seq<Derivation<T, U>>, t: nat)
    requires t <= |ds|
    ensures Fresh(seed, ds[..t]) <= Fresh(seed, ds)
    ensures |Fresh(seed, ds)| <= |Fresh(seed, ds[..t])| + (|ds| - t)
    decreases |ds|
  {
    if t < |ds| {
      var ds' := ds[..|ds| - 1];
      assert ds'[..t] == ds[..t];
      FreshGrows(seed, ds', t);
    } else {
      assert ds[..t] == ds;
    }
  }

  /** A failure-free prefix of steps is exactly one on which `LastFailure` is
      `None`. */
  lemma {:induction false} LastFailureNone<T, U, E>(nodes: seq<T>, n: nat, f: (T, nat) -> Result<(T, U), E>, i: nat, j: nat)
    requires Position(|nodes|, n, i, j)
    ensures LastFailure(nodes, n, f, i, j).None? <==>
            (forall a: nat, b: nat | a < i && b < n :: f(nodes[a], b).Ok?) && (forall b: nat | b < j :: f(nodes[i], b).Ok?)
    decreases i, j
  {
    if j > 0 {
      LastFailureNone(nodes, n, f, i, j - 1);
    } else if i > 0 {
      LastFailureNone(nodes, n, f, i - 1, n);
    }
  }

  /** The specification functions depend only on the nodes before the point
      they describe, so appending nodes does not change them. */
  lemma {:induction false} StepsFrame<T, U, E>(nodes: seq<T>, nodes': seq<T>, n: nat, f: (T, nat) -> Result<(T, U), E>, i: nat, j: nat)
    requires Position(|nodes|, n, i, j)
    requires nodes <= nodes'
    ensures Position(|nodes'|, n, i, j)
    ensures Derivations(nodes', n, f, i, j) == Derivations(nodes, n, f, i, j)
    ensures LastFailure(nodes', n, f, i, j) == LastFailure(nodes, n, f, i, j)
    decreases i, j
  {
    if j > 0 {
      StepsFrame(nodes, nodes', n, f, i, j - 1);
    } else if i > 0 {
      StepsFrame(nodes, nodes', n, f, i - 1, n);
    }
  }

  /** Every node before `k` was already in the list when its round began: the
      seed and the candidates admitted by the steps before `(p, 0)` reach past
      `p`. The loop only expands nodes it has. */
  ghost predicate Grounded<T, U, E>(seedNodes: seq<T>, nodes: seq<T>, n: nat, f: (T, nat) -> Result<(T, U), E>, k: nat)
    requires k <= |nodes|
  {
    forall p: nat | p < k :: p < |seedNodes| + |Fresh(seedNodes, Derivations(nodes, n, f, p, 0))|
  }

  /** Appending nodes keeps the earlier nodes grounded. */
  lemma GroundedFrame<T, U, E>(seedNodes: seq<T>, nodes: seq<T>, nodes': seq<T>, n: nat,
                               f: (T, nat) -> Result<(T, U), E>, k: nat)
    requires k <= |nodes| && nodes <= nodes'
    requires Grounded(seedNodes, nodes, n, f, k)
    ensures Grounded(seedNodes, nodes', n, f, k)
  {
    forall p: nat | p < k
      ensures p < |seedNodes| + |Fresh(seedNodes, Derivations(nodes', n, f, p, 0))|
    {
      StepsFrame(nodes, nodes', n, f, p, 0);
    }
  }

  /** The node a round works on is grounded: at the start of round `i` the
      node list is what the steps before it built, and `i` lies within it. */
  lemma Grounds<T, U, E>(seedNodes: seq<T>, nodes: seq<T>, n: nat, f: (T, nat) -> Result<(T, U), E>, i: nat, j: nat)
    requires Position(|nodes|, n, i, j) && i < |nodes|
    requires nodes == seedNodes + Fresh(seedNodes, Derivations(nodes, n, f, i, j))
    requires Grounded(seedNodes, nodes, n, f, if j > 0 then i + 1 else i)
    ensures Grounded(seedNodes, nodes, n, f, i + 1)
  {
  }

  lemma IndexMapBound<T>(has: map<T, nat>, seed: seq<T>, nodes: seq<T>, x: T)
    requires seed <= nodes
    requires IndexMap(has, seed, nodes)
    requires x in has
    ensures has[x] < |nodes|
  {
    assert x in nodes;
    var q :| 0 <= q < |nodes| && nodes[q] == x;
    if q < |seed| {
      assert seed[q] == x;
    }
  }

  /** Where a derivation's edge points: to 0 when its candidate is a seed node,
      otherwise to the appended node equal to the candidate. */
  lemma Targets<T, U>(seed: seq<T>, seedEdgeCount: nat, ds: seq<Derivation<T, U>>, nodes: seq<T>,
                      edges: seq<Edge<U>>, has: map<T, nat>, t: nat)
    requires nodes == seed + Fresh(seed, ds)
    requires IndexMap(has, seed, nodes)
    requires EdgesFollow(edges, seedEdgeCount, ds, has)
    requires t < |ds|
    ensures ds[t].cand in seed ==> edges[seedEdgeCount + t].dst == 0
    ensures ds[t].cand !in seed ==>
              |seed| <= edges[seedEdgeCount + t].dst < |nodes| && nodes[edges[seedEdgeCount + t].dst] == ds[t].cand
  {
    var c := ds[t].cand;
    FreshCovers(seed, ds);
    if c !in seed {
      var fr := Fresh(seed, ds);
      var p :| 0 <= p < |fr| && fr[p] == c;
      assert nodes[|seed| + p] == c;
    }
  }

  /** When the seed is strictly below both ceilings, expansion never passes them. */
  lemma WithinCeilings<T, U>(seed: seq<T>, seedEdgeCount: nat, ds: seq<Derivation<T, U>>, settings: GenerateSettings)
    requires |seed| < settings.maxNodes && seedEdgeCount < settings.maxEdges
    requires forall t | 0 < t < |ds| :: BelowAfter(seed, seedEdgeCount, ds, t, settings)
    ensures |seed| + |Fresh(seed, ds)| <= settings.maxNodes
    ensures seedEdgeCount + |ds| <= settings.maxEdges
  {
    if ds != [] {
      var t := |ds| - 1;
      FreshGrows(seed, ds, t);
      if t > 0 {
        assert BelowAfter(seed, seedEdgeCount, ds, t, settings);
      } else {
        assert ds[..t] == [];
      }
    }
  }

  /** What the expansion loop keeps true at point `(i, j)`: the node list, the
      index map, the edge list and the edge set all describe the steps
      processed so far. */
  ghost predicate Reached<T, U, E>(seedNodes: seq<T>, seedEdges: seq<Edge<U>>, n: nat,
                                   f: (T, nat) -> Result<(T, U), E>, nodes: seq<T>, edges: seq<Edge<U>>,
                                   has: map<T, nat>, hasEdge: set<(nat, nat)>, i: nat, j: nat)
  {
    && Position(|nodes|, n, i, j)
    && nodes == seedNodes + Fresh(seedNodes, Derivations(nodes, n, f, i, j))
    && IndexMap(has, seedNodes, nodes)
    && seedEdges <= edges
    && EdgesFollow(edges, |seedEdges|, Derivations(nodes, n, f, i, j), has)
    && ValidEdges(edges, |nodes|)
    && hasEdge == Pairs(edges)
  }

  /** Both counts stayed below the ceilings after each of the first `upto`
      successful steps. */
  ghost predicate BelowUpTo<T, U>(seed: seq<T>, seedEdgeCount: nat, ds: seq<Derivation<T, U>>, upto: nat,
                                  settings: GenerateSettings)
    requires upto <= |ds|
  {
    forall t | 0 < t <= upto :: BelowAfter(seed, seedEdgeCount, ds, t, settings)
  }

  /** One successful step of the loop body: the candidate is looked up, appended
      when new, and the edge is appended. */
  lemma SuccessfulStep<T, U, E>(seedNodes: seq<T>, seedEdges: seq<Edge<U>>, n: nat,
                                f: (T, nat) -> Result<(T, U), E>, settings: GenerateSettings,
                                nodes: seq<T>, edges: seq<Edge<U>>, has: map<T, nat>, hasEdge: set<(nat, nat)>,
                                i: nat, j: nat, id: nat,
                                nodes': seq<T>, edges': seq<Edge<U>>, has': map<T, nat>, hasEdge': set<(nat, nat)>)
    requires Reached(seedNodes, seedEdges, n, f, nodes, edges, has, hasEdge, i, j)
    requires i < |nodes| && j < n && f(nodes[i], j).Ok?
    requires var c := f(nodes[i], j).value.0;
             if c in has then nodes' == nodes && has' == has && id == has[c]
             else id == |nodes| && nodes' == nodes + [c] && has' == has[c := id]
    requires edges' == edges + [Edge(i, id, f(nodes[i], j).value.1)]
    requires hasEdge' == hasEdge + {(i, id)}
    ensures Reached(seedNodes, seedEdges, n, f, nodes', edges', has', hasEdge', i, j + 1)
    ensures var ds, ds' := Derivations(nodes, n, f, i, j), Derivations(nodes', n, f, i, j + 1);
            && |ds'| == |ds| + 1
            && (BelowUpTo(seedNodes, |seedEdges|, ds, |ds|, settings) ==>
                  BelowUpTo(seedNodes, |seedEdges|, ds', |ds|, settings))
            && (BelowAfter(seedNodes, |seedEdges|, ds', |ds'|, settings) <==>
                  |nodes'| < settings.maxNodes && |edges'| < settings.maxEdges)
    ensures LastFailure(nodes', n, f, i, j + 1) == LastFailure(nodes, n, f, i, j)
  {
    var c := f(nodes[i], j).value.0;
    var l := f(nodes[i], j).value.1;
    var ds := Derivations(nodes, n, f, i, j);
    StepsFrame(nodes, nodes', n, f, i, j);
    var ds' := Derivations(nodes', n, f, i, j + 1);
    assert ds' == ds + [Derivation(i, j, c, l)];
    StepNodes(seedNodes, ds, nodes, has, Derivation(i, j, c, l), id, nodes', has');
    StepEdges(seedEdges, ds, has, edges, hasEdge, |nodes|, Derivation(i, j, c, l), id, |nodes'|, edges', has', hasEdge');
    StepBelow(seedNodes, |seedEdges|, ds, Derivation(i, j, c, l), settings);
  }

  lemma StepNodes<T, U>(seedNodes: seq<T>, ds: seq<Derivation<T, U>>, nodes: seq<T>, has: map<T, nat>,
                        d: Derivation<T, U>, id: nat, nodes': seq<T>, has': map<T, nat>)
    requires nodes == seedNodes + Fresh(seedNodes, ds)
    requires IndexMap(has, seedNodes, nodes)
    requires if d.cand in has then nodes' == nodes && has' == has && id == has[d.cand]
             else id == |nodes| && nodes' == nodes + [d.cand] && has' == has[d.cand := id]
    ensures nodes' == seedNodes + Fresh(seedNodes, ds + [d])
    ensures IndexMap(has', seedNodes, nodes')
    ensures id < |nodes'| && d.cand in has' && has'[d.cand] == id
    ensures forall x | x in has :: x in has' && has'[x] == has[x]
  {
    var ds' := ds + [d];
    assert ds'[..|ds|] == ds;
    if d.cand in has {
      IndexMapBound(has, seedNodes, nodes, d.cand);
    }
  }

  lemma StepEdges<T, U>(seedEdges: seq<Edge<U>>, ds: seq<Derivation<T, U>>, has: map<T, nat>,
                        edges: seq<Edge<U>>, hasEdge: set<(nat, nat)>, count: nat,
                        d: Derivation<T, U>, id: nat, count': nat,
                        edges': seq<Edge<U>>, has': map<T, nat>, hasEdge': set<(nat, nat)>)
    requires seedEdges <= edges
    requires EdgesFollow(edges, |seedEdges|, ds, has)
    requires ValidEdges(edges, count)
    requires hasEdge == Pairs(edges)
    requires count <= count' && d.src < count && id < count'
    requires d.cand in has' && has'[d.cand] == id
    requires forall x | x in has :: x in has' && has'[x] == has[x]
    requires edges' == edges + [Edge(d.src, id, d.data)]
    requires hasEdge' == hasEdge + {(d.src, id)}
    ensures seedEdges <= edges'
    ensures EdgesFollow(edges', |seedEdges|, ds + [d], has')
    ensures ValidEdges(edges', count')
    ensures hasEdge' == Pairs(edges')
  {
    PairsAppend(edges, Edge(d.src, id, d.data));
    var ds' := ds + [d];
    forall t | 0 <= t < |ds'|
      ensures ds'[t].cand in has' && edges'[|seedEdges| + t] == Edge(ds'[t].src, has'[ds'[t].cand], ds'[t].data)
    {
      if t < |ds| {
        assert ds'[t] == ds[t];
      }
    }
  }

  lemma StepBelow<T, U>(seedNodes: seq<T>, seedEdgeCount: nat, ds: seq<Derivation<T, U>>, d: Derivation<T, U>,
                        settings: GenerateSettings)
    ensures BelowUpTo(seedNodes, seedEdgeCount, ds, |ds|, settings) ==>
              BelowUpTo(seedNodes, seedEdgeCount, ds + [d], |ds|, settings)
    ensures BelowAfter(seedNodes, seedEdgeCount, ds + [d], |ds| + 1, settings) <==>
              |seedNodes| + |Fresh(seedNodes, ds + [d])| < settings.maxNodes && seedEdgeCount + |ds| + 1 < settings.maxEdges
  {
    var ds' := ds + [d];
    if BelowUpTo(seedNodes, seedEdgeCount, ds, |ds|, settings) {
      forall t | 0 < t <= |ds| ensures BelowAfter(seedNodes, seedEdgeCount, ds', t, settings) {
        assert ds'[..t] == ds[..t];
        assert BelowAfter(seedNodes, seedEdgeCount, ds, t, settings);
      }
    }
    assert ds'[..|ds'|] == ds';
  }

  /** A failing step: nothing but the error slot changes. */
  lemma FailedStep<T, U, E>(seedNodes: seq<T>, seedEdges: seq<Edge<U>>, n: nat,
                            f: (T, nat) -> Result<(T, U), E>,
                            nodes: seq<T>, edges: seq<Edge<U>>, has: map<T, nat>, hasEdge: set<(nat, nat)>,
                            i: nat, j: nat)
    requires Reached(seedNodes, seedEdges, n, f, nodes, edges, has, hasEdge, i, j)
    requires i < |nodes| && j < n && f(nodes[i], j).Err?
    ensures Reached(seedNodes, seedEdges, n, f, nodes, edges, has, hasEdge, i, j + 1)
    ensures Derivations(nodes, n, f, i, j + 1) == Derivations(nodes, n, f, i, j)
    ensures LastFailure(nodes, n, f, i, j + 1) == Some(f(nodes[i], j).error)
  {
  }

  /** With no steps per node nothing is derived. */
  lemma {:induction false} NoSteps<T, U, E>(nodes: seq<T>, f: (T, nat) -> Result<(T, U), E>, i: nat)
    requires i <= |nodes|
    ensures Derivations(nodes, 0, f, i, 0) == []
    ensures LastFailure(nodes, 0, f, i, 0) == None
    decreases i
  {
    if i > 0 {
      NoSteps(nodes, f, i - 1);
    }
  }

  /** The loop state at `(i, j)` while no ceiling has been reached. */
  ghost predicate Running<T, U, E>(seedNodes: seq<T>, seedEdges: seq<Edge<U>>, n: nat,
                                   f: (T, nat) -> Result<(T, U), E>, settings: GenerateSettings,
                                   nodes: seq<T>, edges: seq<Edge<U>>, has: map<T, nat>, hasEdge: set<(nat, nat)>,
                                   error: Option<E>, i: nat, j: nat)
  {
    && Reached(seedNodes, seedEdges, n, f, nodes, edges, has, hasEdge, i, j)
    && Grounded(seedNodes, nodes, n, f, if j > 0 then i + 1 else i)
    && BelowUpTo(seedNodes, |seedEdges|, Derivations(nodes, n, f, i, j), |Derivations(nodes, n, f, i, j)|, settings)
    && error == LastFailure(nodes, n, f, i, j)
  }

  /** The loop state right after the successful step `(i, j - 1)` reached the
      ceiling `stop`. */
  ghost predicate Halted<T, U, E>(seedNodes: seq<T>, seedEdges: seq<Edge<U>>, n: nat,
                                  f: (T, nat) -> Result<(T, U), E>, settings: GenerateSettings,
                                  into: GenerateError -> E,
                                  nodes: seq<T>, edges: seq<Edge<U>>, has: map<T, nat>, hasEdge: set<(nat, nat)>,
                                  error: Option<E>, stop: GenerateError, i: nat, j: nat)
  {
    && Reached(seedNodes, seedEdges, n, f, nodes, edges, has, hasEdge, i, j)
    && j > 0 && i < |nodes| && f(nodes[i], j - 1).Ok?
    && Grounded(seedNodes, nodes, n, f, i + 1)
    && |Derivations(nodes, n, f, i, j)| > 0
    && BelowUpTo(seedNodes, |seedEdges|, Derivations(nodes, n, f, i, j), |Derivations(nodes, n, f, i, j)| - 1, settings)
    && (stop == MaxNodes ==> |nodes| >= settings.maxNodes)
    && (stop == MaxEdges ==> |nodes| < settings.maxNodes && |edges| >= settings.maxEdges)
    && error == match LastFailure(nodes, n, f, i, j)
                case Some(e) => Some(e)
                case None => Some(into(stop))
  }

  /** Finishing the steps of node `i` is reaching the start of node `i + 1`. */
  lemma NextNode<T, U, E>(seedNodes: seq<T>, seedEdges: seq<Edge<U>>, n: nat,
                          f: (T, nat) -> Result<(T, U), E>, settings: GenerateSettings,
                          nodes: seq<T>, edges: seq<Edge<U>>, has: map<T, nat>, hasEdge: set<(nat, nat)>,
                          error: Option<E>, i: nat)
    requires i < |nodes|
    requires Running(seedNodes, seedEdges, n, f, settings, nodes, edges, has, hasEdge, error, i, n)
    ensures Running(seedNodes, seedEdges, n, f, settings, nodes, edges, has, hasEdge, error, i + 1, 0)
  {
    assert Derivations(nodes, n, f, i + 1, 0) == Derivations(nodes, n, f, i, n);
    assert LastFailure(nodes, n, f, i + 1, 0) == LastFailure(nodes, n, f, i, n);
  }

  /** After a successful step the ceilings are checked: below both the loop
      runs on, and at the first one reached it halts, with the error slot
      filled unless it was already set. */
  lemma Succeeded<T, U, E>(seedNodes: seq<T>, seedEdges: seq<Edge<U>>, n: nat,
                           f: (T, nat) -> Result<(T, U), E>, settings: GenerateSettings,
                           into: GenerateError -> E,
                           nodes0: seq<T>, edges0: seq<Edge<U>>, has0: map<T, nat>, hasEdge0: set<(nat, nat)>,
                           error0: Option<E>, i: nat, j: nat, id: nat,
                           nodes: seq<T>, edges: seq<Edge<U>>, has: map<T, nat>, hasEdge: set<(nat, nat)>,
                           error: Option<E>, stop: Option<GenerateError>)
    requires Running(seedNodes, seedEdges, n, f, settings, nodes0, edges0, has0, hasEdge0, error0, i, j)
    requires i < |nodes0| && j < n && f(nodes0[i], j).Ok?
    requires var c := f(nodes0[i], j).value.0;
             if c in has0 then nodes == nodes0 && has == has0 && id == has0[c]
             else id == |nodes0| && nodes == nodes0 + [c] && has == has0[c := id]
    requires edges == edges0 + [Edge(i, id, f(nodes0[i], j).value.1)]
    requires hasEdge == hasEdge0 + {(i, id)}
    requires stop == if |nodes| >= settings.maxNodes then Some(MaxNodes)
                     else if |edges| >= settings.maxEdges then Some(MaxEdges)
                     else None
    requires error == if stop.Some? && error0.None? then Some(into(stop.value)) else error0
    ensures |nodes0| <= |nodes|
    ensures stop.None? ==> Running(seedNodes, seedEdges, n, f, settings, nodes, edges, has, hasEdge, error, i, j + 1)
    ensures stop.None? ==> |nodes| == |nodes0| || |nodes| < settings.maxNodes
    ensures stop.Some? ==> Halted(seedNodes, seedEdges, n, f, settings, into, nodes, edges, has, hasEdge, error, stop.value, i, j + 1)
  {
    SuccessfulStep(seedNodes, seedEdges, n, f, settings, nodes0, edges0, has0, hasEdge0, i, j, id,
                   nodes, edges, has, hasEdge);
    Grounds(seedNodes, nodes0, n, f, i, j);
    GroundedFrame(seedNodes, nodes0, nodes, n, f, i + 1);
    var ds0, ds := Derivations(nodes0, n, f, i, j), Derivations(nodes, n, f, i, j + 1);
    assert BelowUpTo(seedNodes, |seedEdges|, ds, |ds| - 1, settings);
    if stop.None? {
      BelowExtend(seedNodes, |seedEdges|, ds, settings);
    }
  }

  lemma BelowExtend<T, U>(seed: seq<T>, seedEdgeCount: nat, ds: seq<Derivation<T, U>>, settings: GenerateSettings)
    requires |ds| > 0
    requires BelowUpTo(seed, seedEdgeCount, ds, |ds| - 1, settings)
    requires BelowAfter(seed, seedEdgeCount, ds, |ds|, settings)
    ensures BelowUpTo(seed, seedEdgeCount, ds, |ds|, settings)
  {
  }

  /** The seed nodes are all mapped to 0 and the seed edges' pairs collected:
      the two loops at the start of `gen`. */
  method Seed<T, U>(seedNodes: seq<T>, seedEdges: seq<Edge<U>>) returns (has: map<T, nat>, hasEdge: set<(nat, nat)>)
    ensures IndexMap(has, seedNodes, seedNodes)
    ensures hasEdge == Pairs(seedEdges)
  {
    has := map[];
    hasEdge := {};
    for k := 0 to |seedNodes|
      invariant has.Keys == (set x | x in seedNodes[..k])
      invariant forall x | x in has :: has[x] == 0
    {
      assert seedNodes[..k + 1] == seedNodes[..k] + [seedNodes[k]];
      has := has[seedNodes[k] := 0];
    }
    for k := 0 to |seedEdges|
      invariant hasEdge == Pairs(seedEdges[..k])
    {
      assert seedEdges[..k + 1] == seedEdges[..k] + [seedEdges[k]];
      PairsAppend(seedEdges[..k], seedEdges[k]);
      hasEdge := hasEdge + {seedEdges[k].Ends()};
    }
    assert seedNodes[..|seedNodes|] == seedNodes;
    assert seedEdges[..|seedEdges|] == seedEdges;
  }

  /** One step `(i, j)` of the loop body: on success the candidate is looked
      up, appended when new, its edge appended and the ceilings checked; on
      failure the error slot is overwritten. */
  method Step<T(==), U, E>(seedNodes: seq<T>, seedEdges: seq<Edge<U>>, n: nat,
                           f: (T, nat) -> Result<(T, U), E>, settings: GenerateSettings,
                           into: GenerateError -> E,
                           nodes0: seq<T>, edges0: seq<Edge<U>>, has0: map<T, nat>, hasEdge0: set<(nat, nat)>,
                           error0: Option<E>, i: nat, j: nat)
    returns (nodes: seq<T>, edges: seq<Edge<U>>, has: map<T, nat>, hasEdge: set<(nat, nat)>,
             error: Option<E>, stop: Option<GenerateError>)
    requires i < |nodes0| && j < n
    requires Running(seedNodes, seedEdges, n, f, settings, nodes0, edges0, has0, hasEdge0, error0, i, j)
    ensures |nodes0| <= |nodes|
    ensures stop.None? ==> Running(seedNodes, seedEdges, n, f, settings, nodes, edges, has, hasEdge, error, i, j + 1)
    ensures stop.None? ==> |nodes| == |nodes0| || |nodes| < settings.maxNodes
    ensures stop.Some? ==> Halted(seedNodes, seedEdges, n, f, settings, into, nodes, edges, has, hasEdge, error, stop.value, i, j + 1)
  {
    nodes, edges, has, hasEdge, error, stop := nodes0, edges0, has0, hasEdge0, error0, None;
    match f(nodes[i], j) {
    case Ok(r) =>
      var (newNode, newEdge) := r;
      var id;
      if newNode in has {
        id := has[newNode];
      } else {
        id := |nodes|;
        has := has[newNode := id];
        nodes := nodes + [newNode];
      }
      hasEdge := hasEdge + {(i, id)};
      edges := edges + [Edge(i, id, newEdge)];
      if |nodes| >= settings.maxNodes {
        if error.None? {
          error := Some(into(MaxNodes));
        }
        stop := Some(MaxNodes);
      } else if |edges| >= settings.maxEdges {
        if error.None? {
          error := Some(into(MaxEdges));
        }
        stop := Some(MaxEdges);
      }
      Succeeded(seedNodes, seedEdges, n, f, settings, into, nodes0, edges0, has0, hasEdge0, error0, i, j, id,
                nodes, edges, has, hasEdge, error, stop);
    case Err(err) =>
      FailedStep(seedNodes, seedEdges, n, f, nodes, edges, has, hasEdge, i, j);
      Grounds(seedNodes, nodes, n, f, i, j);
      error := Some(err);
    }
  }

  /** The inner loop of the expansion: every step of node `i`, stopping at the
      first ceiling reached. Without a ceiling every step was processed and the
      node list grew only below the node ceiling. */
  method ExpandNode<T(==), U, E>(seedNodes: seq<T>, seedEdges: seq<Edge<U>>, n: nat,
                                 f: (T, nat) -> Result<(T, U), E>, settings: GenerateSettings,
                                 into: GenerateError -> E,
                                 nodes0: seq<T>, edges0: seq<Edge<U>>, has0: map<T, nat>, hasEdge0: set<(nat, nat)>,
                                 error0: Option<E>, i: nat)
    returns (nodes: seq<T>, edges: seq<Edge<U>>, has: map<T, nat>, hasEdge: set<(nat, nat)>,
             error: Option<E>, stop: Option<GenerateError>, j: nat)
    requires i < |nodes0|
    requires Running(seedNodes, seedEdges, n, f, settings, nodes0, edges0, has0, hasEdge0, error0, i, 0)
    ensures |nodes0| <= |nodes|
    ensures stop.None? ==> j == n && Running(seedNodes, seedEdges, n, f, settings, nodes, edges, has, hasEdge, error, i, n)
    ensures stop.None? ==> |nodes| == |nodes0| || |nodes| < settings.maxNodes
    ensures stop.Some? ==> Halted(seedNodes, seedEdges, n, f, settings, into, nodes, edges, has, hasEdge, error, stop.value, i, j)
  {
    nodes, edges, has, hasEdge, error, stop := nodes0, edges0, has0, hasEdge0, error0, None;
    j := 0;
    while j < n
      invariant j <= n
      invariant |nodes0| <= |nodes|
      invariant Running(seedNodes, seedEdges, n, f, settings, nodes, edges, has, hasEdge, error, i, j)
      invariant |nodes| == |nodes0| || |nodes| < settings.maxNodes
      invariant stop.None?
    {
      nodes, edges, has, hasEdge, error, stop :=
        Step(seedNodes, seedEdges, n, f, settings, into, nodes, edges, has, hasEdge, error, i, j);
      j := j + 1;
      if stop.Some? {
        return;
      }
    }
  }

  /** The state the expansion loop leaves at the point `(ei, ej)` it reached,
      run to the end (`stop.None?`) or halted at the ceiling `stop`: exactly
      the steps before that point were processed, in order. */
  ghost predicate Expanded<T, U, E>(seedNodes: seq<T>, seedEdges: seq<Edge<U>>, n: nat,
                                    f: (T, nat) -> Result<(T, U), E>, settings: GenerateSettings,
                                    into: GenerateError -> E,
                                    nodes: seq<T>, edges: seq<Edge<U>>, has: map<T, nat>, hasEdge: set<(nat, nat)>,
                                    error: Option<E>, stop: Option<GenerateError>, ei: nat, ej: nat)
  {
    && Position(|nodes|, n, ei, ej)
    // the nodes: the seed, then each new candidate once, in the order found;
    // every node expanded was in the list when its round began
    && nodes == seedNodes + Fresh(seedNodes, Derivations(nodes, n, f, ei, ej))
    && Grounded(seedNodes, nodes, n, f, if ej > 0 then ei + 1 else ei)
    && IndexMap(has, seedNodes, nodes)
    // the edges: the seed edges, then one per successful step, in order
    && seedEdges <= edges
    && EdgesFollow(edges, |seedEdges|, Derivations(nodes, n, f, ei, ej), has)
    && ValidEdges(edges, |nodes|)
    && hasEdge == Pairs(edges)
    // without a ceiling every node was expanded with every step
    && (stop.None? ==> ei == |nodes| && ej == 0)
    // a ceiling ends the loop right after the first successful step that reaches it
    && (stop.Some? ==> ej > 0 && f(nodes[ei], ej - 1).Ok?)
    && (var ds := Derivations(nodes, n, f, ei, ej);
        BelowUpTo(seedNodes, |seedEdges|, ds, if stop.None? then |ds| else |ds| - 1, settings))
    && (stop == Some(MaxNodes) ==> |nodes| >= settings.maxNodes)
    && (stop == Some(MaxEdges) ==> |nodes| < settings.maxNodes && |edges| >= settings.maxEdges)
    // the error slot: the last failing step's error, else the ceiling's
    && error == match LastFailure(nodes, n, f, ei, ej)
                case Some(e) => Some(e)
                case None => if stop.Some? then Some(into(stop.value)) else None
  }

  /** What the loop state at its exit, run to the end or halted at a
      ceiling, says about the whole expansion. */
  lemma Concluded<T, U, E>(seedNodes: seq<T>, seedEdges: seq<Edge<U>>, n: nat,
                           f: (T, nat) -> Result<(T, U), E>, settings: GenerateSettings,
                           into: GenerateError -> E,
                           nodes: seq<T>, edges: seq<Edge<U>>, has: map<T, nat>, hasEdge: set<(nat, nat)>,
                           error: Option<E>, stop: Option<GenerateError>, ei: nat, ej: nat)
    requires stop.None? ==> ei == |nodes| && ej == 0 &&
                            Running(seedNodes, seedEdges, n, f, settings, nodes, edges, has, hasEdge, error, ei, ej)
    requires stop.Some? ==>
               Halted(seedNodes, seedEdges, n, f, settings, into, nodes, edges, has, hasEdge, error, stop.value, ei, ej)
    ensures Expanded(seedNodes, seedEdges, n, f, settings, into, nodes, edges, has, hasEdge, error, stop, ei, ej)
    ensures |seedNodes| < settings.maxNodes && |seedEdges| < settings.maxEdges ==>
              |nodes| <= settings.maxNodes && |edges| <= settings.maxEdges
    ensures n == 0 ==> nodes == seedNodes && edges == seedEdges
  {
    if |seedNodes| < settings.maxNodes && |seedEdges| < settings.maxEdges {
      WithinCeilings(seedNodes, |seedEdges|, Derivations(nodes, n, f, ei, ej), settings);
    }
    if n == 0 {
      NoSteps(nodes, f, ei);
    }
  }

  /** The expansion loop of `gen`. Returns the grown node and edge lists, the
      index map and edge set built alongside, the error slot, the ceiling that
      stopped the loop (if one did) and the point `(ei, ej)` the loop reached:
      every step before it was processed and no step after it. */
  method Expand<T(==), U, E>(seedNodes: seq<T>, seedEdges: seq<Edge<U>>, n: nat,
                             f: (T, nat) -> Result<(T, U), E>, settings: GenerateSettings,
                             into: GenerateError -> E)
    returns (nodes: seq<T>, edges: seq<Edge<U>>, has: map<T, nat>, hasEdge: set<(nat, nat)>,
             error: Option<E>, stop: Option<GenerateError>, ei: nat, ej: nat)
    requires ValidEdges(seedEdges, |seedNodes|)
    ensures Expanded(seedNodes, seedEdges, n, f, settings, into, nodes, edges, has, hasEdge, error, stop, ei, ej)
    ensures |seedNodes| < settings.maxNodes && |seedEdges| < settings.maxEdges ==>
              |nodes| <= settings.maxNodes && |edges| <= settings.maxEdges
    ensures n == 0 ==> nodes == seedNodes && edges == seedEdges
  {
    has, hasEdge := Seed(seedNodes, seedEdges);
    nodes, edges, has, hasEdge, error, stop, ei, ej := ExpandAll(seedNodes, seedEdges, n, f, settings, into, has, hasEdge);
    Concluded(seedNodes, seedEdges, n, f, settings, into, nodes, edges, has, hasEdge, error, stop, ei, ej);
  }

  /** The outer loop of the expansion, over the growing node list, from the
      seed state: it ends with every node expanded, or halted at a ceiling. */
  method ExpandAll<T(==), U, E>(seedNodes: seq<T>, seedEdges: seq<Edge<U>>, n: nat,
                                f: (T, nat) -> Result<(T, U), E>, settings: GenerateSettings,
                                into: GenerateError -> E, has0: map<T, nat>, hasEdge0: set<(nat, nat)>)
    returns (nodes: seq<T>, edges: seq<Edge<U>>, has: map<T, nat>, hasEdge: set<(nat, nat)>,
             error: Option<E>, stop: Option<GenerateError>, ei: nat, ej: nat)
    requires ValidEdges(seedEdges, |seedNodes|)
    requires IndexMap(has0, seedNodes, seedNodes) && hasEdge0 == Pairs(seedEdges)
    ensures stop.None? ==> ei == |nodes| && ej == 0 &&
                           Running(seedNodes, seedEdges, n, f, settings, nodes, edges, has, hasEdge, error, ei, ej)
    ensures stop.Some? ==>
              Halted(seedNodes, seedEdges, n, f, settings, into, nodes, edges, has, hasEdge, error, stop.value, ei, ej)
  {
    nodes, edges, has, hasEdge, error := seedNodes, seedEdges, has0, hasEdge0, None;
    stop, ei, ej := None, 0, 0;
    ghost var bound := if |seedNodes| < settings.maxNodes then settings.maxNodes else |seedNodes|;
    var i := 0;
    while i < |nodes|
      invariant Running(seedNodes, seedEdges, n, f, settings, nodes, edges, has, hasEdge, error, i, 0)
      invariant |nodes| <= bound
      decreases bound - i
    {
      var s, j;
      nodes, edges, has, hasEdge, error, s, j :=
        ExpandNode(seedNodes, seedEdges, n, f, settings, into, nodes, edges, has, hasEdge, error, i);
      if s.Some? {
        stop, ei, ej := s, i, j;
        return;
      }
      NextNode(seedNodes, seedEdges, n, f, settings, nodes, edges, has, hasEdge, error, i);
      i := i + 1;
    }
    ei, ej := i, 0;
  }

  /** The steps before an earlier point are a prefix of those before a later
      one. */
  lemma {:induction false} DerivationsPrefix<T, U, E>(nodes: seq<T>, n: nat, f: (T, nat) -> Result<(T, U), E>,
                                                      p: nat, q: nat, i: nat, j: nat)
    requires Position(|nodes|, n, p, q) && Position(|nodes|, n, i, j)
    requires p < i || (p == i && q <= j)
    ensures Derivations(nodes, n, f, p, q) <= Derivations(nodes, n, f, i, j)
    decreases i, j
  {
    if p == i && q == j {
    } else if j > 0 {
      DerivationsPrefix(nodes, n, f, p, q, i, j - 1);
    } else {
      DerivationsPrefix(nodes, n, f, p, q, i - 1, n);
    }
  }

  /** The steps before `(i, j)` read only the nodes before the first one not
      yet worked on, so two node lists agreeing there agree on the steps. */
  lemma StepsAgree<T, U, E>(a: seq<T>, b: seq<T>, n: nat, f: (T, nat) -> Result<(T, U), E>, i: nat, j: nat)
    requires Position(|a|, n, i, j) && Position(|b|, n, i, j)
    requires var k := if j > 0 then i + 1 else i; a[..k] == b[..k]
    ensures Derivations(a, n, f, i, j) == Derivations(b, n, f, i, j)
    ensures LastFailure(a, n, f, i, j) == LastFailure(b, n, f, i, j)
  {
    var k := if j > 0 then i + 1 else i;
    StepsFrame(a[..k], a, n, f, i, j);
    StepsFrame(b[..k], b, n, f, i, j);
  }

  /** A node list built by the steps before its point holds, at each index
      below the seed and the candidates of the steps up to an earlier point,
      what that earlier list holds there. */
  lemma NodeAt<T, U, E>(seedNodes: seq<T>, n: nat, f: (T, nat) -> Result<(T, U), E>,
                        a: seq<T>, ia: nat, ja: nat, p: nat)
    requires Position(|a|, n, ia, ja) && a == seedNodes + Fresh(seedNodes, Derivations(a, n, f, ia, ja))
    requires p <= ia && p < |seedNodes| + |Fresh(seedNodes, Derivations(a, n, f, p, 0))|
    ensures p < |a| && a[p] == (seedNodes + Fresh(seedNodes, Derivations(a, n, f, p, 0)))[p]
  {
    var d, da := Derivations(a, n, f, p, 0), Derivations(a, n, f, ia, ja);
    DerivationsPrefix(a, n, f, p, 0, ia, ja);
    assert da[..|d|] == d;
    FreshGrows(seedNodes, da, |d|);
  }

  /** Two node lists built by the steps before their points agree on every
      node the first one has grounded: each such node is fixed by the steps
      before its own round, which read only the nodes before it. */
  lemma {:induction false} Agree<T, U, E>(seedNodes: seq<T>, n: nat, f: (T, nat) -> Result<(T, U), E>,
                                          a: seq<T>, ia: nat, ja: nat, b: seq<T>, ib: nat, jb: nat, k: nat)
    requires Position(|a|, n, ia, ja) && a == seedNodes + Fresh(seedNodes, Derivations(a, n, f, ia, ja))
    requires Position(|b|, n, ib, jb) && b == seedNodes + Fresh(seedNodes, Derivations(b, n, f, ib, jb))
    requires k <= |a| && k <= ia + 1 && k <= ib + 1
    requires Grounded(seedNodes, a, n, f, k)
    ensures k <= |b| && a[..k] == b[..k]
    decreases k
  {
    if k > 0 {
      var p := k - 1;
      assert Grounded(seedNodes, a, n, f, p);
      Agree(seedNodes, n, f, a, ia, ja, b, ib, jb, p);
      StepsAgree(a, b, n, f, p, 0);
      NodeAt(seedNodes, n, f, a, ia, ja, p);
      NodeAt(seedNodes, n, f, b, ib, jb, p);
      assert a[..k] == a[..p] + [a[p]];
      assert b[..k] == b[..p] + [b[p]];
    }
  }

  lemma IndexMapUnique<T>(has: map<T, nat>, has': map<T, nat>, seed: seq<T>, nodes: seq<T>)
    requires seed <= nodes
    requires IndexMap(has, seed, nodes) && IndexMap(has', seed, nodes)
    ensures has == has'
  {
    forall x | x in has ensures has[x] == has'[x] {
      var q :| 0 <= q < |nodes| && nodes[q] == x;
      if q < |seed| {
        assert seed[q] == x;
      }
    }
  }

  /** A halt happens at a ceiling reached. */
  lemma StopReached(stop: GenerateError, settings: GenerateSettings, nodeCount: nat, edgeCount: nat)
    requires stop == MaxNodes ==> nodeCount >= settings.maxNodes
    requires stop == MaxEdges ==> edgeCount >= settings.maxEdges
    ensures nodeCount >= settings.maxNodes || edgeCount >= settings.maxEdges
  {
  }

  /** Every successful step among the ones after which both counts stayed
      below the ceilings left them below. */
  lemma StopBelow<T, U>(seedNodes: seq<T>, seedEdgeCount: nat, settings: GenerateSettings,
                        da: seq<Derivation<T, U>>, db: seq<Derivation<T, U>>, upto: nat)
    requires da <= db && 0 < |da| <= upto <= |db|
    requires BelowUpTo(seedNodes, seedEdgeCount, db, upto, settings)
    ensures |seedNodes| + |Fresh(seedNodes, da)| < settings.maxNodes && seedEdgeCount + |da| < settings.maxEdges
  {
    assert db[..|da|] == da;
    assert BelowAfter(seedNodes, seedEdgeCount, db, |da|, settings);
  }

  /** No state meeting the expansion's contract stops strictly before another
      one: a run to the end leaves no node for the other to work on, and a
      ceiling reached early would lie among the other's steps, after all of
      which both counts were below the ceilings. */
  lemma NotBefore<T, U, E>(seedNodes: seq<T>, seedEdges: seq<Edge<U>>, n: nat,
                           f: (T, nat) -> Result<(T, U), E>, settings: GenerateSettings,
                           into: GenerateError -> E,
                           a: seq<T>, ea: seq<Edge<U>>, ha: map<T, nat>, hea: set<(nat, nat)>,
                           era: Option<E>, sa: Option<GenerateError>, ia: nat, ja: nat,
                           b: seq<T>, eb: seq<Edge<U>>, hb: map<T, nat>, heb: set<(nat, nat)>,
                           erb: Option<E>, sb: Option<GenerateError>, ib: nat, jb: nat)
    requires Expanded(seedNodes, seedEdges, n, f, settings, into, a, ea, ha, hea, era, sa, ia, ja)
    requires Expanded(seedNodes, seedEdges, n, f, settings, into, b, eb, hb, heb, erb, sb, ib, jb)
    ensures !(ia < ib || (ia == ib && ja < jb))
  {
    if ia < ib || (ia == ib && ja < jb) {
      var ka := if ja > 0 then ia + 1 else ia;
      Agree(seedNodes, n, f, a, ia, ja, b, ib, jb, ka);
      StepsAgree(a, b, n, f, ia, ja);
      var da, db := Derivations(a, n, f, ia, ja), Derivations(b, n, f, ib, jb);
      if sa.None? {
        assert false;
      } else {
        StopReached(sa.value, settings, |a|, |ea|);
        if sb.Some? {
          DerivationsPrefix(b, n, f, ia, ja, ib, jb - 1);
          assert |db| == |Derivations(b, n, f, ib, jb - 1)| + 1;
        } else {
          DerivationsPrefix(b, n, f, ia, ja, ib, jb);
        }
        assert |da| > 0;
        StopBelow(seedNodes, |seedEdges|, settings, da, db, if sb.None? then |db| else |db| - 1);
        assert false;
      }
    }
  }

  /** The expansion is determinate: any two states meeting its contract are
      the same state, reached at the same point. */
  lemma ExpandDeterminate<T, U, E>(seedNodes: seq<T>, seedEdges: seq<Edge<U>>, n: nat,
                                   f: (T, nat) -> Result<(T, U), E>, settings: GenerateSettings,
                                   into: GenerateError -> E,
                                   a: seq<T>, ea: seq<Edge<U>>, ha: map<T, nat>, hea: set<(nat, nat)>,
                                   era: Option<E>, sa: Option<GenerateError>, ia: nat, ja: nat,
                                   b: seq<T>, eb: seq<Edge<U>>, hb: map<T, nat>, heb: set<(nat, nat)>,
                                   erb: Option<E>, sb: Option<GenerateError>, ib: nat, jb: nat)
    requires Expanded(seedNodes, seedEdges, n, f, settings, into, a, ea, ha, hea, era, sa, ia, ja)
    requires Expanded(seedNodes, seedEdges, n, f, settings, into, b, eb, hb, heb, erb, sb, ib, jb)
    ensures ia == ib && ja == jb && a == b && ea == eb && ha == hb && hea == heb
    ensures sa == sb && era == erb
  {
    NotBefore(seedNodes, seedEdges, n, f, settings, into, a, ea, ha, hea, era, sa, ia, ja,
              b, eb, hb, heb, erb, sb, ib, jb);
    NotBefore(seedNodes, seedEdges, n, f, settings, into, b, eb, hb, heb, erb, sb, ib, jb,
              a, ea, ha, hea, era, sa, ia, ja);
    var k := if ja > 0 then ia + 1 else ia;
    Agree(seedNodes, n, f, a, ia, ja, b, ib, jb, k);
    StepsAgree(a, b, n, f, ia, ja);
    IndexMapUnique(ha, hb, seedNodes, a);
    var ds := Derivations(a, n, f, ia, ja);
    assert |ea| == |eb|;
    forall t | 0 <= t < |ea| ensures ea[t] == eb[t] {
      if t < |seedEdges| {
        assert ea[t] == seedEdges[t] == eb[t];
      } else {
        var s := t - |seedEdges|;
        assert ea[|seedEdges| + s] == Edge(ds[s].src, ha[ds[s].cand], ds[s].data);
        assert eb[|seedEdges| + s] == Edge(ds[s].src, hb[ds[s].cand], ds[s].data);
      }
    }
    assert ea == eb;
    assert sa.None? <==> sb.None?;
    if sa.Some? {
      assert sa.value == MaxNodes <==> |a| >= settings.maxNodes;
      assert sb.value == MaxNodes <==> |b| >= settings.maxNodes;
    }
  }

  /** An example the contract rules out: from the seed `[0]`, whose one step
      fails, the rule would derive `1` from `1`, but node `1` is never in the
      list when its round would begin. */
  lemma SelfDerivationExcluded<U, E>(f: (int, nat) -> Result<(int, U), E>)
    requires f(0, 0).Err?
    ensures !Grounded([0], [0, 1], 1, f, 2)
  {
    assert Derivations([0, 1], 1, f, 1, 0) == [];
  }
}
