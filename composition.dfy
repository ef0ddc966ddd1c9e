/** Phase 2 of `gen` (src/lib.rs): the filter and the composition of edges.

    Nodes failing `g` are collected by index in `removed`. Then every edge
    `[a, b]` whose target `b` is removed is composed with every edge `[b, d]`
    among the first `edges_count` edges (those present when the phase began),
    provided `[a, d]` is not yet in the edge set: `h` decides the label of the
    composed edge `[a, d]`, or rejects it, silently or with an error that fills
    the error slot when it is still empty. Edges appended by composition are
    visited too, so chains through several removed nodes are followed. The
    phase is not bounded by the ceilings of the expansion.

    `AfterStep`, `AfterRow` and `AfterFrom` give the exact state the loops
    reach, visit by visit in their order; `Settled`, `Composite` and
    `Reported` are what every pair, appended edge and reported error then
    satisfies. */
module Composition {
  import opened Graphs

  /** Edge `k` continues edge `j` through a removed node: `j` ends at a removed
      node and `k` starts there. */
  ghost predicate Continues<U>(edges: seq<Edge<U>>, removed: set<nat>, j: nat, k: nat)
    requires j < |edges| && k < |edges|
  {
    edges[j].dst in removed && edges[k].src == edges[j].dst
  }

  /** The pair `(j, k)` was dealt with: when `k` continues `j`, the composed
      pair is present, or `h` rejected the two labels and, if it reported the
      rejection, the error slot is filled. */
  ghost predicate Settled<U, E>(edges: seq<Edge<U>>, removed: set<nat>, h: (U, U) -> Result<U, Option<E>>,
                                error: Option<E>, j: nat, k: nat)
    requires j < |edges| && k < |edges|
  {
    Continues(edges, removed, j, k) ==>
      || (edges[j].src, edges[k].dst) in Pairs(edges)
      || (h(edges[j].data, edges[k].data).Err? && (h(edges[j].data, edges[k].data).error.Some? ==> error.Some?))
  }

  /** Each edge after the first `base` is the composition of the pair
      `origin[t]`: an earlier edge and one of the first `base` edges that
      continues it, labelled by `h`. */
  ghost predicate ComposedFrom<U, E>(edges: seq<Edge<U>>, base: nat, removed: set<nat>,
                                     h: (U, U) -> Result<U, Option<E>>, origin: seq<(nat, nat)>)
  {
    && |origin| == |edges| - base
    && forall t | 0 <= t < |origin| ::
         && origin[t].0 < base + t && origin[t].1 < base
         && Continues(edges, removed, origin[t].0, origin[t].1)
         && h(edges[origin[t].0].data, edges[origin[t].1].data).Ok?
         && edges[base + t] == Edge(edges[origin[t].0].src, edges[origin[t].1].dst,
                                    h(edges[origin[t].0].data, edges[origin[t].1].data).value)
  }

  /** Edge `t` is the composition, labelled by `h`, of an earlier edge and
      one of the first `base` edges that continues it. */
  ghost predicate Composite<U, E>(edges: seq<Edge<U>>, base: nat, removed: set<nat>,
                                  h: (U, U) -> Result<U, Option<E>>, t: nat)
    requires base <= t < |edges|
  {
    exists j: nat, k: nat ::
      && j < t && k < base
      && Continues(edges, removed, j, k)
      && h(edges[j].data, edges[k].data).Ok?
      && edges[t] == Edge(edges[j].src, edges[k].dst, h(edges[j].data, edges[k].data).value)
  }

  /** `h` reported the error `e` on an edge and one of the first `base` edges
      that continues it. */
  ghost predicate Reported<U, E>(edges: seq<Edge<U>>, base: nat, removed: set<nat>,
                                 h: (U, U) -> Result<U, Option<E>>, e: E)
    requires base <= |edges|
  {
    exists j: nat, k: nat ::
      && j < |edges| && k < base
      && Continues(edges, removed, j, k)
      && h(edges[j].data, edges[k].data) == Err(Some(e))
  }

  /** The endpoint pair of every edge after the first `base` differs from the
      pairs of all edges before it. */
  ghost predicate FreshPairs<U>(edges: seq<Edge<U>>, base: nat) {
    forall t, u | base <= t < |edges| && 0 <= u < t :: edges[u].Ends() != edges[t].Ends()
  }

  /** The error slot: an error present at the start is kept; one filled during
      the phase came from `h` on the pair `culprit`. */
  ghost predicate ErrorFrom<U, E>(edges: seq<Edge<U>>, base: nat, removed: set<nat>,
                                  h: (U, U) -> Result<U, Option<E>>, error0: Option<E>, error: Option<E>,
                                  culprit: (nat, nat))
  {
    && (error0.Some? ==> error == error0)
    && (error0.None? && error.Some? ==>
          && culprit.0 < |edges| && culprit.1 < base && culprit.1 < |edges|
          && Continues(edges, removed, culprit.0, culprit.1)
          && h(edges[culprit.0].data, edges[culprit.1].data) == Err(Some(error.value)))
  }

  /** What the composition loops keep true. */
  ghost predicate Composing<U, E>(count: nat, edges0: seq<Edge<U>>, removed: set<nat>,
                                  h: (U, U) -> Result<U, Option<E>>, error0: Option<E>,
                                  edges: seq<Edge<U>>, hasEdge: set<(nat, nat)>, error: Option<E>,
                                  origin: seq<(nat, nat)>, culprit: (nat, nat))
  {
    && edges0 <= edges
    && ValidEdges(edges, count)
    && hasEdge == Pairs(edges)
    && FreshPairs(edges, |edges0|)
    && ComposedFrom(edges, |edges0|, removed, h, origin)
    && ErrorFrom(edges, |edges0|, removed, h, error0, error, culprit)
  }

  /** Every pair of node indices below `count`: where the edge set lives. */
  ghost function AllPairs(count: nat): set<(nat, nat)> {
    set a: nat, b: nat | a < count && b < count :: (a, b)
  }

  lemma PairsWithin<U>(edges: seq<Edge<U>>, count: nat)
    requires ValidEdges(edges, count)
    ensures Pairs(edges) <= AllPairs(count)
  {
    forall p | p in Pairs(edges) ensures p in AllPairs(count) {
      var t :| 0 <= t < |edges| && edges[t].Ends() == p;
    }
  }

  /** Adding a fresh pair to the edge set leaves fewer pairs to add. */
  lemma Shrinks(all: set<(nat, nat)>, hasEdge: set<(nat, nat)>, p: (nat, nat))
    requires p in all && p !in hasEdge
    ensures |all - (hasEdge + {p})| < |all - hasEdge|
  {
    var rest := all - hasEdge;
    assert all - (hasEdge + {p}) == rest - {p};
    assert rest == (rest - {p}) + {p};
  }

  /** The state `(edges, error)` after the visit of the pair `(j, k)`: when
      edge `k` starts where edge `j` ends and the composed pair `[a, d]` is
      absent, `h` decides: its label is appended as the edge `[a, d]`, a
      silent rejection changes nothing, and a reported error fills the slot
      when it is still empty. */
  ghost function AfterStep<U, E>(h: (U, U) -> Result<U, Option<E>>, edges: seq<Edge<U>>, error: Option<E>,
                                 j: nat, k: nat): (r: (seq<Edge<U>>, Option<E>))
    requires j < |edges| && k < |edges|
    ensures edges <= r.0
  {
    var a, b, c, d := edges[j].src, edges[j].dst, edges[k].src, edges[k].dst;
    if c == b && (a, d) !in Pairs(edges) then
      match h(edges[j].data, edges[k].data)
      case Ok(data) => (edges + [Edge(a, d, data)], error)
      case Err(None) => (edges, error)
      case Err(Some(e)) => (edges, if error.None? then Some(e) else error)
    else
      (edges, error)
  }

  /** The state after the visits of `(j, 0)`, ..., `(j, kn - 1)`, in this
      order: the inner loop of the composition for edge `j`. */
  ghost function AfterRow<U, E>(h: (U, U) -> Result<U, Option<E>>, edges: seq<Edge<U>>, error: Option<E>,
                                j: nat, kn: nat): (r: (seq<Edge<U>>, Option<E>))
    requires j < |edges| && kn <= |edges|
    ensures edges <= r.0
    decreases kn
  {
    if kn == 0 then (edges, error)
    else
      var s := AfterRow(h, edges, error, j, kn - 1);
      AfterStep(h, s.0, s.1, j, kn - 1)
  }

  /** `edges'` extends `edges` within `count` nodes, and unless it is `edges`
      itself it has more endpoint pairs. */
  ghost predicate Grown<U>(count: nat, edges: seq<Edge<U>>, edges': seq<Edge<U>>) {
    && edges <= edges'
    && ValidEdges(edges', count)
    && (edges' == edges || Pairs(edges) < Pairs(edges'))
  }

  lemma StepGrown<U, E>(count: nat, h: (U, U) -> Result<U, Option<E>>, edges: seq<Edge<U>>, error: Option<E>,
                        j: nat, k: nat)
    requires ValidEdges(edges, count) && j < |edges| && k < |edges|
    ensures Grown(count, edges, AfterStep(h, edges, error, j, k).0)
  {
    var r := AfterStep(h, edges, error, j, k);
    if r.0 != edges {
      PairsAppend(edges, r.0[|edges|]);
      assert r.0 == edges + [r.0[|edges|]];
    }
  }

  lemma {:induction false} RowGrown<U, E>(count: nat, h: (U, U) -> Result<U, Option<E>>, edges: seq<Edge<U>>,
                                          error: Option<E>, j: nat, kn: nat)
    requires ValidEdges(edges, count) && j < |edges| && kn <= |edges|
    ensures Grown(count, edges, AfterRow(h, edges, error, j, kn).0)
    decreases kn
  {
    if kn > 0 {
      var s := AfterRow(h, edges, error, j, kn - 1);
      RowGrown(count, h, edges, error, j, kn - 1);
      StepGrown(count, h, s.0, s.1, j, kn - 1);
    }
  }

  /** A list that has grown has fewer endpoint pairs left to add. */
  lemma Fewer<U>(count: nat, edges: seq<Edge<U>>, edges': seq<Edge<U>>)
    requires Grown(count, edges, edges')
    ensures edges' == edges || AllPairs(count) - Pairs(edges') < AllPairs(count) - Pairs(edges)
  {
    if edges' != edges {
      PairsWithin(edges', count);
      var p :| p in Pairs(edges') && p !in Pairs(edges);
      assert p in AllPairs(count) - Pairs(edges);
    }
  }

  /** The state at the end of the composition, when edges `j`, `j + 1`, ...
      of the growing list are still to be visited: each edge whose target is
      removed is composed with the first `base` edges in order (`AfterRow`),
      and the loop ends once it has passed the last edge, appended ones
      included. It ends because every row that changes the list adds a new
      endpoint pair, and there are only finitely many pairs of nodes. */
  ghost function AfterFrom<U, E>(count: nat, base: nat, removed: set<nat>, h: (U, U) -> Result<U, Option<E>>,
                                 edges: seq<Edge<U>>, error: Option<E>, j: nat): (seq<Edge<U>>, Option<E>)
    requires ValidEdges(edges, count) && base <= |edges| && j <= |edges|
    decreases AllPairs(count) - Pairs(edges), |edges| - j
  {
    if j == |edges| then (edges, error)
    else if edges[j].dst !in removed then AfterFrom(count, base, removed, h, edges, error, j + 1)
    else
      var s := AfterRow(h, edges, error, j, base);
      RowGrown(count, h, edges, error, j, base);
      Fewer(count, edges, s.0);
      AfterFrom(count, base, removed, h, s.0, s.1, j + 1)
  }

  /** Growing the edge list and keeping a filled error slot filled keeps a
      settled pair settled. */
  lemma SettledGrows<U, E>(edges: seq<Edge<U>>, edges': seq<Edge<U>>, removed: set<nat>,
                           h: (U, U) -> Result<U, Option<E>>, error: Option<E>, error': Option<E>, j: nat, k: nat)
    requires edges <= edges' && j < |edges| && k < |edges|
    requires error.Some? ==> error'.Some?
    requires Settled(edges, removed, h, error, j, k)
    ensures Settled(edges', removed, h, error', j, k)
  {
    PairsPrefix(edges', |edges|);
    assert edges'[..|edges|] == edges;
  }

  /** The step that appends the composition of `(j, k)`. */
  lemma Appended<U, E>(count: nat, edges0: seq<Edge<U>>, removed: set<nat>,
                       h: (U, U) -> Result<U, Option<E>>, error0: Option<E>,
                       edges: seq<Edge<U>>, hasEdge: set<(nat, nat)>, error: Option<E>,
                       origin: seq<(nat, nat)>, culprit: (nat, nat), j: nat, k: nat)
    requires Composing(count, edges0, removed, h, error0, edges, hasEdge, error, origin, culprit)
    requires j < |edges| && k < |edges0|
    requires Continues(edges, removed, j, k)
    requires (edges[j].src, edges[k].dst) !in hasEdge
    requires h(edges[j].data, edges[k].data).Ok?
    ensures var e := Edge(edges[j].src, edges[k].dst, h(edges[j].data, edges[k].data).value);
            Composing(count, edges0, removed, h, error0, edges + [e], hasEdge + {e.Ends()}, error,
                      origin + [(j, k)], culprit)
  {
    var e := Edge(edges[j].src, edges[k].dst, h(edges[j].data, edges[k].data).value);
    var edges' := edges + [e];
    assert k < |edges| by {
      assert |edges0| <= |edges|;
    }
    PairsAppend(edges, e);
    forall t, u | |edges0| <= t < |edges'| && 0 <= u < t ensures edges'[u].Ends() != edges'[t].Ends() {
      if t == |edges| {
        PairsHas(edges, u);
      }
    }
    assert edges0 <= edges';
  }

  /** One step `(j, k)` of the composition: when edge `k` continues edge `j`
      and the composed pair is absent, `h` is asked for its label. */
  method ComposeStep<U, E>(count: nat, edges0: seq<Edge<U>>, removed: set<nat>,
                           h: (U, U) -> Result<U, Option<E>>, ghost error0: Option<E>,
                           edges1: seq<Edge<U>>, hasEdge1: set<(nat, nat)>, error1: Option<E>,
                           ghost origin1: seq<(nat, nat)>, ghost culprit1: (nat, nat), j: nat, k: nat)
    returns (edges: seq<Edge<U>>, hasEdge: set<(nat, nat)>, error: Option<E>,
             ghost origin: seq<(nat, nat)>, ghost culprit: (nat, nat))
    requires Composing(count, edges0, removed, h, error0, edges1, hasEdge1, error1, origin1, culprit1)
    requires j < |edges1| && k < |edges0|
    requires edges1[j].dst in removed
    ensures (edges, error) == AfterStep(h, edges1, error1, j, k)
    ensures hasEdge == Pairs(edges)
    ensures Composing(count, edges0, removed, h, error0, edges, hasEdge, error, origin, culprit)
    ensures edges1 <= edges
    ensures error1.Some? ==> error == error1
    ensures Settled(edges, removed, h, error, j, k)
    ensures edges == edges1 || |AllPairs(count) - hasEdge| < |AllPairs(count) - hasEdge1|
  {
    edges, hasEdge, error, origin, culprit := edges1, hasEdge1, error1, origin1, culprit1;
    assert |edges0| <= |edges| && edges[k] == edges0[k];
    var a, b := edges[j].src, edges[j].dst;
    var c, d := edges[k].src, edges[k].dst;
    if c == b && (a, d) !in hasEdge {
      match h(edges[j].data, edges[k].data) {
      case Ok(newEdge) =>
        Appended(count, edges0, removed, h, error0, edges, hasEdge, error, origin, culprit, j, k);
        PairsWithin(edges, count);
        Shrinks(AllPairs(count), hasEdge, (a, d));
        PairsAppend(edges, Edge(a, d, newEdge));
        edges := edges + [Edge(a, d, newEdge)];
        hasEdge := hasEdge + {(a, d)};
        origin := origin + [(j, k)];
      case Err(None) =>
      case Err(Some(err)) =>
        if error.None? {
          error := Some(err);
          culprit := (j, k);
        }
      }
    }
  }

  /** The inner loop of the composition, for edge `j`: every edge `k` among
      the first `|edges0|` that continues edge `j` through a removed node is
      composed with it unless the composed pair is already present. */
  method ComposeFrom<U, E>(count: nat, edges0: seq<Edge<U>>, removed: set<nat>,
                           h: (U, U) -> Result<U, Option<E>>, ghost error0: Option<E>,
                           edges1: seq<Edge<U>>, hasEdge1: set<(nat, nat)>, error1: Option<E>,
                           ghost origin1: seq<(nat, nat)>, ghost culprit1: (nat, nat), j: nat)
    returns (edges: seq<Edge<U>>, hasEdge: set<(nat, nat)>, error: Option<E>,
             ghost origin: seq<(nat, nat)>, ghost culprit: (nat, nat))
    requires Composing(count, edges0, removed, h, error0, edges1, hasEdge1, error1, origin1, culprit1)
    requires j < |edges1|
    requires edges1[j].dst in removed
    ensures (edges, error) == AfterRow(h, edges1, error1, j, |edges0|)
    ensures Composing(count, edges0, removed, h, error0, edges, hasEdge, error, origin, culprit)
    ensures edges1 <= edges
    ensures error1.Some? ==> error == error1
    ensures forall k | 0 <= k < |edges0| :: Settled(edges, removed, h, error, j, k)
    ensures edges == edges1 || |AllPairs(count) - hasEdge| < |AllPairs(count) - hasEdge1|
  {
    edges, hasEdge, error, origin, culprit := edges1, hasEdge1, error1, origin1, culprit1;
    for k := 0 to |edges0|
      invariant Composing(count, edges0, removed, h, error0, edges, hasEdge, error, origin, culprit)
      invariant (edges, error) == AfterRow(h, edges1, error1, j, k)
      invariant edges1 <= edges
      invariant error1.Some? ==> error == error1
      invariant forall k' | 0 <= k' < k :: Settled(edges, removed, h, error, j, k')
      invariant edges == edges1 || |AllPairs(count) - hasEdge| < |AllPairs(count) - hasEdge1|
    {
      ghost var edges2, error2 := edges, error;
      edges, hasEdge, error, origin, culprit :=
        ComposeStep(count, edges0, removed, h, error0, edges, hasEdge, error, origin, culprit, j, k);
      RowSettled(edges2, edges, removed, h, error2, error, j, k);
    }
  }

  /** Settling `(j, k)` keeps the pairs `(j, 0)`, ..., `(j, k - 1)` settled
      before it. */
  lemma RowSettled<U, E>(edges: seq<Edge<U>>, edges': seq<Edge<U>>, removed: set<nat>,
                         h: (U, U) -> Result<U, Option<E>>, error: Option<E>, error': Option<E>, j: nat, k: nat)
    requires edges <= edges' && j < |edges| && k < |edges|
    requires error.Some? ==> error'.Some?
    requires forall k' | 0 <= k' < k :: Settled(edges, removed, h, error, j, k')
    requires Settled(edges', removed, h, error', j, k)
    ensures forall k' | 0 <= k' < k + 1 :: Settled(edges', removed, h, error', j, k')
  {
    forall k' | 0 <= k' < k ensures Settled(edges', removed, h, error', j, k') {
      SettledGrows(edges, edges', removed, h, error, error', j, k');
    }
  }

  /** A filled slot stays as it is through a row of visits. */
  lemma {:induction false} RowKeepsError<U, E>(h: (U, U) -> Result<U, Option<E>>, edges: seq<Edge<U>>,
                                               error: Option<E>, j: nat, kn: nat)
    requires j < |edges| && kn <= |edges| && error.Some?
    ensures AfterRow(h, edges, error, j, kn).1 == error
    decreases kn
  {
    if kn > 0 {
      RowKeepsError(h, edges, error, j, kn - 1);
    }
  }

  /** Only the first error is reported: once the slot is filled, the rest of
      the composition leaves it as it is. */
  lemma {:induction false} KeepsError<U, E>(count: nat, base: nat, removed: set<nat>,
                                            h: (U, U) -> Result<U, Option<E>>,
                                            edges: seq<Edge<U>>, error: Option<E>, j: nat)
    requires ValidEdges(edges, count) && base <= |edges| && j <= |edges| && error.Some?
    ensures AfterFrom(count, base, removed, h, edges, error, j).1 == error
    decreases AllPairs(count) - Pairs(edges), |edges| - j
  {
    if j < |edges| {
      if edges[j].dst !in removed {
        KeepsError(count, base, removed, h, edges, error, j + 1);
      } else {
        var s := AfterRow(h, edges, error, j, base);
        RowGrown(count, h, edges, error, j, base);
        Fewer(count, edges, s.0);
        RowKeepsError(h, edges, error, j, base);
        KeepsError(count, base, removed, h, s.0, s.1, j + 1);
      }
    }
  }

  /** A composer that never reports an error, only rejects silently with
      `Err(None)`, leaves the slot as it was through a row. */
  lemma {:induction false} RowSilent<U, E>(h: (U, U) -> Result<U, Option<E>>, edges: seq<Edge<U>>,
                                           error: Option<E>, j: nat, kn: nat)
    requires j < |edges| && kn <= |edges|
    requires forall a, b :: h(a, b).Err? ==> h(a, b).error.None?
    ensures AfterRow(h, edges, error, j, kn).1 == error
    decreases kn
  {
    if kn > 0 {
      RowSilent(h, edges, error, j, kn - 1);
    }
  }

  /** A composer that never reports an error leaves the slot as it was:
      rejecting with `Err(None)` ignores the rejection. */
  lemma {:induction false} Silent<U, E>(count: nat, base: nat, removed: set<nat>,
                                        h: (U, U) -> Result<U, Option<E>>,
                                        edges: seq<Edge<U>>, error: Option<E>, j: nat)
    requires ValidEdges(edges, count) && base <= |edges| && j <= |edges|
    requires forall a, b :: h(a, b).Err? ==> h(a, b).error.None?
    ensures AfterFrom(count, base, removed, h, edges, error, j).1 == error
    decreases AllPairs(count) - Pairs(edges), |edges| - j
  {
    if j < |edges| {
      if edges[j].dst !in removed {
        Silent(count, base, removed, h, edges, error, j + 1);
      } else {
        var s := AfterRow(h, edges, error, j, base);
        RowGrown(count, h, edges, error, j, base);
        Fewer(count, edges, s.0);
        RowSilent(h, edges, error, j, base);
        Silent(count, base, removed, h, s.0, s.1, j + 1);
      }
    }
  }

  /** Composition only appends to the edge list. */
  lemma {:induction false} FromGrows<U, E>(count: nat, base: nat, removed: set<nat>,
                                           h: (U, U) -> Result<U, Option<E>>,
                                           edges: seq<Edge<U>>, error: Option<E>, j: nat)
    requires ValidEdges(edges, count) && base <= |edges| && j <= |edges|
    ensures Grown(count, edges, AfterFrom(count, base, removed, h, edges, error, j).0)
    decreases AllPairs(count) - Pairs(edges), |edges| - j
  {
    if j < |edges| {
      if edges[j].dst !in removed {
        FromGrows(count, base, removed, h, edges, error, j + 1);
      } else {
        var s := AfterRow(h, edges, error, j, base);
        RowGrown(count, h, edges, error, j, base);
        Fewer(count, edges, s.0);
        FromGrows(count, base, removed, h, s.0, s.1, j + 1);
      }
    }
  }

  /** An error reported on one pair stays in the slot when a later pair
      composes the same endpoints: node 1 is removed, `h` rejects `(u, v)`
      with the error `e` and labels `(u, w)` with `x`. */
  lemma ErrorBeforeComposition<U, E>(h: (U, U) -> Result<U, Option<E>>, u: U, v: U, w: U, e: E, x: U)
    requires h(u, v) == Err(Some(e)) && h(u, w) == Ok(x)
    ensures var edges0 := [Edge(0, 1, u), Edge(1, 2, v), Edge(1, 2, w)];
            AfterFrom(3, 3, {1}, h, edges0, None, 0) == (edges0 + [Edge(0, 2, x)], Some(e))
  {
    var edges0 := [Edge(0, 1, u), Edge(1, 2, v), Edge(1, 2, w)];
    var edges1 := edges0 + [Edge(0, 2, x)];
    assert (0, 2) !in Pairs(edges0);
    assert AfterRow(h, edges0, None, 0, 1) == (edges0, None);
    assert AfterRow(h, edges0, None, 0, 2) == (edges0, Some(e));
    assert AfterRow(h, edges0, None, 0, 3) == (edges1, Some(e));
    // edges 1, 2 and the appended edge 3 end at node 2, which is kept
    assert AfterFrom(3, 3, {1}, h, edges1, Some(e), 4) == (edges1, Some(e));
    assert AfterFrom(3, 3, {1}, h, edges1, Some(e), 3) == (edges1, Some(e));
    assert AfterFrom(3, 3, {1}, h, edges1, Some(e), 2) == (edges1, Some(e));
    assert AfterFrom(3, 3, {1}, h, edges1, Some(e), 1) == (edges1, Some(e));
  }

  /** The first pair visited decides the label of a composed edge: nodes 1
      and 2 are removed and both `[0, 1], [1, 3]` and `[0, 2], [2, 3]` lead
      from 0 to 3; the first row composes `[0, 3]` labelled by `h(u1, u3)`,
      and the second finds `[0, 3]` present and does not ask `h`. */
  lemma FirstPairLabels<U, E>(h: (U, U) -> Result<U, Option<E>>, u1: U, u2: U, u3: U, u4: U, x: U)
    requires h(u1, u3) == Ok(x)
    ensures var edges0 := [Edge(0, 1, u1), Edge(0, 2, u2), Edge(1, 3, u3), Edge(2, 3, u4)];
            AfterFrom(4, 4, {1, 2}, h, edges0, None, 0) == (edges0 + [Edge(0, 3, x)], None)
  {
    var edges0 := [Edge(0, 1, u1), Edge(0, 2, u2), Edge(1, 3, u3), Edge(2, 3, u4)];
    var edges1 := edges0 + [Edge(0, 3, x)];
    var removed := {1, 2};
    assert (0, 3) !in Pairs(edges0);
    assert AfterRow(h, edges0, None, 0, 2) == (edges0, None);
    assert AfterRow(h, edges0, None, 0, 3) == (edges1, None);
    assert AfterRow(h, edges0, None, 0, 4) == (edges1, None);
    assert edges1[4].Ends() == (0, 3);
    assert AfterRow(h, edges1, None, 1, 2) == (edges1, None);
    assert AfterRow(h, edges1, None, 1, 4) == (edges1, None);
    // edges 2, 3 and the appended edge 4 end at node 3, which is kept
    assert AfterFrom(4, 4, removed, h, edges1, None, 5) == (edges1, None);
    assert AfterFrom(4, 4, removed, h, edges1, None, 4) == (edges1, None);
    assert AfterFrom(4, 4, removed, h, edges1, None, 3) == (edges1, None);
    assert AfterFrom(4, 4, removed, h, edges1, None, 2) == (edges1, None);
    assert AfterFrom(4, 4, removed, h, edges1, None, 1) == (edges1, None);
  }

  /** The indices of the nodes failing `g`. */
  method Removed<T>(nodes: seq<T>, g: T -> bool) returns (removed: set<nat>)
    ensures removed == set i | 0 <= i < |nodes| && !g(nodes[i])
  {
    removed := {};
    for i := 0 to |nodes|
      invariant removed == set i' | 0 <= i' < i && !g(nodes[i'])
    {
      if !g(nodes[i]) {
        removed := removed + {i};
      }
    }
  }

  /** Every pair `(j, k)` with `j < jn` and `k < kn` was dealt with. */
  ghost predicate SettledBelow<U, E>(edges: seq<Edge<U>>, removed: set<nat>, h: (U, U) -> Result<U, Option<E>>,
                                     error: Option<E>, jn: nat, kn: nat)
  {
    forall j, k | 0 <= j < jn && 0 <= k < kn && j < |edges| && k < |edges| :: Settled(edges, removed, h, error, j, k)
  }

  lemma SettledBelowGrows<U, E>(edges: seq<Edge<U>>, edges': seq<Edge<U>>, removed: set<nat>,
                                h: (U, U) -> Result<U, Option<E>>, error: Option<E>, error': Option<E>,
                                jn: nat, kn: nat)
    requires edges <= edges' && jn <= |edges| && kn <= |edges|
    requires error.Some? ==> error'.Some?
    requires SettledBelow(edges, removed, h, error, jn, kn)
    ensures SettledBelow(edges', removed, h, error', jn, kn)
  {
    forall j, k | 0 <= j < jn && 0 <= k < kn ensures Settled(edges', removed, h, error', j, k) {
      SettledGrows(edges, edges', removed, h, error, error', j, k);
    }
  }

  lemma NextSettled<U, E>(edges: seq<Edge<U>>, removed: set<nat>, h: (U, U) -> Result<U, Option<E>>,
                          error: Option<E>, j: nat, kn: nat)
    requires j < |edges| && kn <= |edges|
    requires SettledBelow(edges, removed, h, error, j, kn)
    requires edges[j].dst in removed ==> forall k | 0 <= k < kn :: Settled(edges, removed, h, error, j, k)
    ensures SettledBelow(edges, removed, h, error, j + 1, kn)
  {
    forall j', k | 0 <= j' < j + 1 && 0 <= k < kn ensures Settled(edges, removed, h, error, j', k) {
      if j' == j && edges[j].dst !in removed {
        assert !Continues(edges, removed, j, k);
      }
    }
  }

  /** The outer loop of the composition: every edge, including those appended
      on the way, whose target is removed is composed onwards. */
  method ComposeAll<U, E>(count: nat, edges0: seq<Edge<U>>, hasEdge0: set<(nat, nat)>, removed: set<nat>,
                          h: (U, U) -> Result<U, Option<E>>, error0: Option<E>)
    returns (edges: seq<Edge<U>>, error: Option<E>, ghost origin: seq<(nat, nat)>, ghost culprit: (nat, nat))
    requires ValidEdges(edges0, count)
    requires hasEdge0 == Pairs(edges0)
    ensures (edges, error) == AfterFrom(count, |edges0|, removed, h, edges0, error0, 0)
    ensures Composing(count, edges0, removed, h, error0, edges, Pairs(edges), error, origin, culprit)
    ensures forall j, k | 0 <= j < |edges| && 0 <= k < |edges0| :: Settled(edges, removed, h, error, j, k)
  {
    var hasEdge;
    edges, hasEdge, error := edges0, hasEdge0, error0;
    origin, culprit := [], (0, 0);
    var j := 0;
    while j < |edges|
      invariant j <= |edges|
      invariant Composing(count, edges0, removed, h, error0, edges, hasEdge, error, origin, culprit)
      invariant SettledBelow(edges, removed, h, error, j, |edges0|)
      invariant AfterFrom(count, |edges0|, removed, h, edges, error, j) == AfterFrom(count, |edges0|, removed, h, edges0, error0, 0)
      decreases |AllPairs(count) - hasEdge|, |edges| - j
    {
      edges, hasEdge, error, origin, culprit :=
        ComposeNext(count, edges0, removed, h, error0, edges, hasEdge, error, origin, culprit, j);
      j := j + 1;
    }
  }

  /** One round of the outer loop: edge `j` is composed onwards when its
      target is removed. */
  method ComposeNext<U, E>(count: nat, edges0: seq<Edge<U>>, removed: set<nat>,
                           h: (U, U) -> Result<U, Option<E>>, ghost error0: Option<E>,
                           edges1: seq<Edge<U>>, hasEdge1: set<(nat, nat)>, error1: Option<E>,
                           ghost origin1: seq<(nat, nat)>, ghost culprit1: (nat, nat), j: nat)
    returns (edges: seq<Edge<U>>, hasEdge: set<(nat, nat)>, error: Option<E>,
             ghost origin: seq<(nat, nat)>, ghost culprit: (nat, nat))
    requires j < |edges1|
    requires Composing(count, edges0, removed, h, error0, edges1, hasEdge1, error1, origin1, culprit1)
    requires SettledBelow(edges1, removed, h, error1, j, |edges0|)
    ensures (edges, error) == if edges1[j].dst in removed then AfterRow(h, edges1, error1, j, |edges0|)
                              else (edges1, error1)
    ensures edges1 <= edges
    ensures Composing(count, edges0, removed, h, error0, edges, hasEdge, error, origin, culprit)
    ensures SettledBelow(edges, removed, h, error, j + 1, |edges0|)
    ensures AfterFrom(count, |edges0|, removed, h, edges, error, j + 1)
            == AfterFrom(count, |edges0|, removed, h, edges1, error1, j)
    ensures edges == edges1 || |AllPairs(count) - hasEdge| < |AllPairs(count) - hasEdge1|
  {
    edges, hasEdge, error, origin, culprit := edges1, hasEdge1, error1, origin1, culprit1;
    if edges[j].dst in removed {
      edges, hasEdge, error, origin, culprit :=
        ComposeFrom(count, edges0, removed, h, error0, edges, hasEdge, error, origin, culprit, j);
      SettledBelowGrows(edges1, edges, removed, h, error1, error, j, |edges0|);
    }
    NextSettled(edges, removed, h, error, j, |edges0|);
    FromUnfold(count, |edges0|, removed, h, edges1, error1, j);
  }

  /** One unfolding of `AfterFrom` at an edge that is still to be visited. */
  lemma FromUnfold<U, E>(count: nat, base: nat, removed: set<nat>, h: (U, U) -> Result<U, Option<E>>,
                         edges: seq<Edge<U>>, error: Option<E>, j: nat)
    requires ValidEdges(edges, count) && base <= |edges| && j < |edges|
    ensures var s := if edges[j].dst in removed then AfterRow(h, edges, error, j, base) else (edges, error);
            Grown(count, edges, s.0) &&
            AfterFrom(count, base, removed, h, edges, error, j) == AfterFrom(count, base, removed, h, s.0, s.1, j + 1)
  {
    if edges[j].dst in removed {
      RowGrown(count, h, edges, error, j, base);
    }
  }

  /** The filter and composition phase: exactly `AfterFrom` from edge 0. The
      edge list only grows; the edges it gains have endpoint pairs not seen
      before, each the composition of an earlier edge and a continuing one
      among the first `|edges0|`; every such pair, including those through
      edges gained on the way, ends up composed or rejected by `h`; and the
      error slot is filled first-wins. */
  method FilterAndCompose<T, U, E>(nodes: seq<T>, edges0: seq<Edge<U>>, hasEdge0: set<(nat, nat)>,
                                   g: T -> bool, h: (U, U) -> Result<U, Option<E>>, error0: Option<E>)
    returns (removed: set<nat>, edges: seq<Edge<U>>, error: Option<E>)
    requires ValidEdges(edges0, |nodes|)
    requires hasEdge0 == Pairs(edges0)
    ensures removed == set i | 0 <= i < |nodes| && !g(nodes[i])
    // the exact result of visiting the pairs in the loops' order
    ensures (edges, error) == AfterFrom(|nodes|, |edges0|, removed, h, edges0, error0, 0)
    ensures edges0 <= edges
    ensures ValidEdges(edges, |nodes|)
    // composed pairs are new and pairwise distinct
    ensures FreshPairs(edges, |edges0|)
    ensures forall t | |edges0| <= t < |edges| :: Composite(edges, |edges0|, removed, h, t)
    ensures forall j, k | 0 <= j < |edges| && 0 <= k < |edges0| :: Settled(edges, removed, h, error, j, k)
    ensures error0.Some? ==> error == error0
    ensures error0.None? && error.Some? ==> Reported(edges, |edges0|, removed, h, error.value)
  {
    removed := Removed(nodes, g);
    ghost var origin, culprit;
    edges, error, origin, culprit := ComposeAll(|nodes|, edges0, hasEdge0, removed, h, error0);
    Witnessed(|nodes|, edges0, removed, h, error0, edges, error, origin, culprit);
  }

  /** The witnesses kept by the loops give the origin of every composed edge
      and of an error filled during the phase. */
  lemma Witnessed<U, E>(count: nat, edges0: seq<Edge<U>>, removed: set<nat>,
                        h: (U, U) -> Result<U, Option<E>>, error0: Option<E>,
                        edges: seq<Edge<U>>, error: Option<E>, origin: seq<(nat, nat)>, culprit: (nat, nat))
    requires Composing(count, edges0, removed, h, error0, edges, Pairs(edges), error, origin, culprit)
    ensures forall t | |edges0| <= t < |edges| :: Composite(edges, |edges0|, removed, h, t)
    ensures error0.None? && error.Some? ==> Reported(edges, |edges0|, removed, h, error.value)
  {
    forall t | |edges0| <= t < |edges| ensures Composite(edges, |edges0|, removed, h, t)
    {
      var q := t - |edges0|;
      assert 0 <= q < |origin|;
      var j, k := origin[q].0, origin[q].1;
      assert j < t && k < |edges0|;
      assert Continues(edges, removed, j, k) && h(edges[j].data, edges[k].data).Ok?;
      assert edges[t] == Edge(edges[j].src, edges[k].dst, h(edges[j].data, edges[k].data).value);
    }
    if error0.None? && error.Some? {
      var j, k := culprit.0, culprit.1;
      assert Continues(edges, removed, j, k);
    }
  }
}
