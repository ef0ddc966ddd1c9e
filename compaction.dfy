/** Phase 3 of `gen` (src/lib.rs): compaction.

    The nodes whose index is not removed are kept, in order, and renumbered
    consecutively; `map_nodes` records each old index's new one, or `None`.
    Then the edges are visited once each from the last to the first: an edge
    whose two endpoints are kept is rewritten in place to the new indices, any
    other is dropped by `swap_remove`, which moves the current last edge into
    its slot. Every edge moved that way comes from the part already visited,
    so no edge is visited twice and the order of the result is not the input
    order. */
module Compaction {
  import opened Graphs

  /** The nodes of `nodes` whose index is not in `removed`, in order. */
  ghost function Kept<T>(nodes: seq<T>, removed: set<nat>): seq<T>
    decreases |nodes|
  {
    if nodes == [] then []
    else Kept(nodes[..|nodes| - 1], removed) + (if |nodes| - 1 in removed then [] else [nodes[|nodes| - 1]])
  }

  /** The new index of old index `i`: how many kept nodes precede it. */
  ghost function NewIndex<T>(nodes: seq<T>, removed: set<nat>, i: nat): Option<nat>
    requires i <= |nodes|
  {
    if i in removed then None else Some(|Kept(nodes[..i], removed)|)
  }

  /** The renumbering is what `map_nodes` holds: `None` exactly for a removed
      index, and otherwise the position in the kept list of that same node,
      in increasing order. */
  ghost predicate Renumbering<T>(nodes: seq<T>, removed: set<nat>, newNodes: seq<T>, mapNodes: seq<Option<nat>>) {
    && |mapNodes| == |nodes|
    && (forall i | 0 <= i < |nodes| :: mapNodes[i].None? <==> i in removed)
    && (forall i | 0 <= i < |nodes| && mapNodes[i].Some? ::
          mapNodes[i].value < |newNodes| && newNodes[mapNodes[i].value] == nodes[i])
    && (forall i, i' | 0 <= i < i' < |nodes| && mapNodes[i].Some? && mapNodes[i'].Some? ::
          mapNodes[i].value < mapNodes[i'].value)
  }

  lemma KeptPrefix<T>(nodes: seq<T>, removed: set<nat>, i: nat)
    requires i < |nodes|
    ensures Kept(nodes[..i + 1], removed) == Kept(nodes[..i], removed) + (if i in removed then [] else [nodes[i]])
  {
    assert nodes[..i + 1][..i] == nodes[..i];
  }

  /** Kept lists only grow along prefixes. */
  lemma {:induction false} KeptGrows<T>(nodes: seq<T>, removed: set<nat>, i: nat, i': nat)
    requires i <= i' <= |nodes|
    ensures Kept(nodes[..i], removed) <= Kept(nodes[..i'], removed)
    decreases i' - i
  {
    if i < i' {
      KeptGrows(nodes, removed, i, i' - 1);
      KeptPrefix(nodes, removed, i' - 1);
    }
  }

  /** The node renumbering loop. */
  method Renumber<T>(nodes: seq<T>, removed: set<nat>) returns (newNodes: seq<T>, mapNodes: seq<Option<nat>>)
    ensures newNodes == Kept(nodes, removed)
    ensures Renumbering(nodes, removed, newNodes, mapNodes)
  {
    newNodes, mapNodes := [], [];
    for i := 0 to |nodes|
      invariant newNodes == Kept(nodes[..i], removed)
      invariant |mapNodes| == i
      invariant forall i' | 0 <= i' < i :: mapNodes[i'] == NewIndex(nodes, removed, i')
    {
      KeptPrefix(nodes, removed, i);
      if i in removed {
        mapNodes := mapNodes + [None];
      } else {
        var id := |newNodes|;
        mapNodes := mapNodes + [Some(id)];
        newNodes := newNodes + [nodes[i]];
      }
    }
    assert nodes[..|nodes|] == nodes;
    RenumberingHolds(nodes, removed, mapNodes);
  }

  lemma RenumberingHolds<T>(nodes: seq<T>, removed: set<nat>, mapNodes: seq<Option<nat>>)
    requires |mapNodes| == |nodes|
    requires forall i | 0 <= i < |nodes| :: mapNodes[i] == NewIndex(nodes, removed, i)
    ensures Renumbering(nodes, removed, Kept(nodes, removed), mapNodes)
  {
    var kept := Kept(nodes, removed);
    assert nodes[..|nodes|] == nodes;
    forall i | 0 <= i < |nodes| && mapNodes[i].Some?
      ensures mapNodes[i].value < |kept| && kept[mapNodes[i].value] == nodes[i]
    {
      KeptPrefix(nodes, removed, i);
      KeptGrows(nodes, removed, i + 1, |nodes|);
      var p := mapNodes[i].value;
      assert Kept(nodes[..i + 1], removed)[p] == nodes[i];
    }
    forall i, i' | 0 <= i < i' < |nodes| && mapNodes[i].Some? && mapNodes[i'].Some?
      ensures mapNodes[i].value < mapNodes[i'].value
    {
      KeptPrefix(nodes, removed, i);
      KeptGrows(nodes, removed, i + 1, i');
    }
  }

  /** The image of an edge under the renumbering: `None` when an endpoint was
      removed. */
  function Remap<U>(mapNodes: seq<Option<nat>>, e: Edge<U>): Option<Edge<U>>
    requires e.src < |mapNodes| && e.dst < |mapNodes|
  {
    if mapNodes[e.src].Some? && mapNodes[e.dst].Some? then
      Some(Edge(mapNodes[e.src].value, mapNodes[e.dst].value, e.data))
    else None
  }

  /** The images of the edges whose two endpoints are kept, in order. */
  ghost function Remapped<U>(mapNodes: seq<Option<nat>>, edges: seq<Edge<U>>): seq<Edge<U>>
    requires ValidEdges(edges, |mapNodes|)
    decreases |edges|
  {
    if edges == [] then []
    else
      assert ValidEdges(edges[1..], |mapNodes|) by {
        forall t | 0 <= t < |edges| - 1 ensures edges[1..][t] == edges[t + 1] { }
      }
      (match Remap(mapNodes, edges[0]) case Some(e) => [e] case None => []) + Remapped(mapNodes, edges[1..])
  }

  /** The state of the reverse pass with edges `j..` visited: the unvisited
      prefix is untouched and the visited suffix holds the images of the
      visited edges whose endpoints are both kept. */
  ghost predicate Rewritten<U>(mapNodes: seq<Option<nat>>, edges: seq<Edge<U>>, out: seq<Edge<U>>, j: nat) {
    && j <= |out| && j <= |edges|
    && out[..j] == edges[..j]
    && ValidEdges(edges[j..], |mapNodes|)
    && multiset(out[j..]) == multiset(Remapped(mapNodes, edges[j..]))
  }

  lemma ValidSuffix<U>(edges: seq<Edge<U>>, count: nat, j: nat)
    requires ValidEdges(edges, count) && j <= |edges|
    ensures ValidEdges(edges[j..], count)
  {
    forall t | 0 <= t < |edges| - j ensures edges[j..][t] == edges[j + t] { }
  }

  /** The remapped suffix from `j` is the image of edge `j`, if any, followed
      by the remapped suffix from `j + 1`. */
  lemma RemappedFrom<U>(mapNodes: seq<Option<nat>>, edges: seq<Edge<U>>, j: nat)
    requires ValidEdges(edges, |mapNodes|) && j < |edges|
    ensures ValidEdges(edges[j..], |mapNodes|) && ValidEdges(edges[j + 1..], |mapNodes|)
    ensures multiset(Remapped(mapNodes, edges[j..])) ==
            multiset(match Remap(mapNodes, edges[j]) case Some(e) => [e] case None => []) +
            multiset(Remapped(mapNodes, edges[j + 1..]))
  {
    ValidSuffix(edges, |mapNodes|, j);
    ValidSuffix(edges, |mapNodes|, j + 1);
    assert edges[j..][1..] == edges[j + 1..];
    assert edges[j..][0] == edges[j];
  }

  /** Visiting a kept edge `j`: rewriting it in place to its image extends
      the visited part by one edge. */
  lemma RewriteKept<U>(mapNodes: seq<Option<nat>>, edges: seq<Edge<U>>, out: seq<Edge<U>>, j: nat, out': seq<Edge<U>>)
    requires ValidEdges(edges, |mapNodes|)
    requires Rewritten(mapNodes, edges, out, j + 1)
    requires j < |edges| && Remap(mapNodes, edges[j]).Some?
    requires j < |out| && out' == out[j := Remap(mapNodes, edges[j]).value]
    ensures Rewritten(mapNodes, edges, out', j)
  {
    RemappedFrom(mapNodes, edges, j);
    assert out'[j..] == [out'[j]] + out[j + 1..];
    PrefixAt(out, edges, j + 1, j);
    assert out'[..j] == out[..j];
  }

  /** Visiting a dropped edge `j`: swap-removing it extends the visited part
      by one edge, since the edge moved into slot `j` was already visited. */
  lemma RewriteDropped<U>(mapNodes: seq<Option<nat>>, edges: seq<Edge<U>>, out: seq<Edge<U>>, j: nat, out': seq<Edge<U>>)
    requires ValidEdges(edges, |mapNodes|)
    requires Rewritten(mapNodes, edges, out, j + 1)
    requires j < |edges| && Remap(mapNodes, edges[j]).None?
    requires j < |out| && out' == SwapRemove(out, j)
    ensures Rewritten(mapNodes, edges, out', j)
  {
    RemappedFrom(mapNodes, edges, j);
    PrefixAt(out, edges, j + 1, j);
  }

  /** The reverse pass over the edges: each edge is rewritten in place or
      swap-removed, and the result holds, in some order, the images of exactly
      the edges whose endpoints are both kept. */
  method RewriteEdges<U>(mapNodes: seq<Option<nat>>, edges: seq<Edge<U>>) returns (out: seq<Edge<U>>)
    requires ValidEdges(edges, |mapNodes|)
    ensures multiset(out) == multiset(Remapped(mapNodes, edges))
  {
    out := edges;
    var j: nat := |edges|;
    RewriteStart(mapNodes, edges);
    while j > 0
      invariant Rewritten(mapNodes, edges, out, j)
    {
      j := j - 1;
      out := Visit(mapNodes, edges, out, j);
    }
    RewriteDone(mapNodes, edges, out);
  }

  /** One step of the reverse pass: edge `j` is rewritten in place when both
      its endpoints are kept, and swap-removed otherwise. */
  method Visit<U>(mapNodes: seq<Option<nat>>, edges: seq<Edge<U>>, out0: seq<Edge<U>>, j: nat)
    returns (out: seq<Edge<U>>)
    requires ValidEdges(edges, |mapNodes|)
    requires Rewritten(mapNodes, edges, out0, j + 1)
    ensures Rewritten(mapNodes, edges, out, j)
  {
    Unvisited(mapNodes, edges, out0, j);
    var a, b := out0[j].src, out0[j].dst;
    if mapNodes[a].Some? && mapNodes[b].Some? {
      out := out0[j := Edge(mapNodes[a].value, mapNodes[b].value, out0[j].data)];
      RewriteKept(mapNodes, edges, out0, j, out);
    } else {
      out := SwapRemove(out0, j);
      RewriteDropped(mapNodes, edges, out0, j, out);
    }
  }

  /** Before edge `j` is visited it is still the input edge `j`. */
  lemma Unvisited<U>(mapNodes: seq<Option<nat>>, edges: seq<Edge<U>>, out: seq<Edge<U>>, j: nat)
    requires ValidEdges(edges, |mapNodes|)
    requires Rewritten(mapNodes, edges, out, j + 1)
    ensures j < |out| && j < |edges| && out[j] == edges[j]
    ensures out[j].src < |mapNodes| && out[j].dst < |mapNodes|
  {
    PrefixAt(out, edges, j + 1, j);
  }

  lemma RewriteStart<U>(mapNodes: seq<Option<nat>>, edges: seq<Edge<U>>)
    requires ValidEdges(edges, |mapNodes|)
    ensures Rewritten(mapNodes, edges, edges, |edges|)
  {
    assert edges[|edges|..] == [];
  }

  lemma RewriteDone<U>(mapNodes: seq<Option<nat>>, edges: seq<Edge<U>>, out: seq<Edge<U>>)
    requires Rewritten(mapNodes, edges, out, 0)
    ensures ValidEdges(edges, |mapNodes|)
    ensures multiset(out) == multiset(Remapped(mapNodes, edges))
  {
    assert edges[0..] == edges && out[0..] == out;
  }

  /** Compaction: the kept nodes renumbered, and the edges rewritten. */
  method Compact<T, U>(nodes: seq<T>, edges: seq<Edge<U>>, removed: set<nat>)
    returns (newNodes: seq<T>, mapNodes: seq<Option<nat>>, out: seq<Edge<U>>)
    requires ValidEdges(edges, |nodes|)
    ensures newNodes == Kept(nodes, removed)
    ensures Renumbering(nodes, removed, newNodes, mapNodes)
    ensures multiset(out) == multiset(Remapped(mapNodes, edges))
  {
    newNodes, mapNodes := Renumber(nodes, removed);
    out := RewriteEdges(mapNodes, edges);
  }

  /** Every remapped edge joins two kept nodes: its endpoints are new indices
      of nodes whose old indices were not removed. */
  lemma {:induction false} RemappedKept<T, U>(nodes: seq<T>, removed: set<nat>, newNodes: seq<T>,
                                              mapNodes: seq<Option<nat>>, edges: seq<Edge<U>>, e: Edge<U>)
    requires Renumbering(nodes, removed, newNodes, mapNodes)
    requires ValidEdges(edges, |mapNodes|)
    requires e in Remapped(mapNodes, edges)
    ensures exists t :: 0 <= t < |edges| && edges[t].src !in removed && edges[t].dst !in removed &&
                        e == Edge(mapNodes[edges[t].src].value, mapNodes[edges[t].dst].value, edges[t].data)
    ensures e.src < |newNodes| && e.dst < |newNodes|
    decreases |edges|
  {
    var r := match Remap(mapNodes, edges[0]) case Some(x) => [x] case None => [];
    assert Remapped(mapNodes, edges) == r + Remapped(mapNodes, edges[1..]);
    if e in r {
      assert e == Remap(mapNodes, edges[0]).value;
    } else {
      RemappedKept(nodes, removed, newNodes, mapNodes, edges[1..], e);
      var t :| 0 <= t < |edges[1..]| && edges[1..][t].src !in removed && edges[1..][t].dst !in removed &&
               e == Edge(mapNodes[edges[1..][t].src].value, mapNodes[edges[1..][t].dst].value, edges[1..][t].data);
      assert edges[t + 1] == edges[1..][t];
    }
  }

  /** Conversely, the image of every edge with both endpoints kept is among
      the remapped edges. */
  lemma {:induction false} KeptRemapped<U>(mapNodes: seq<Option<nat>>, edges: seq<Edge<U>>, t: nat)
    requires ValidEdges(edges, |mapNodes|)
    requires t < |edges|
    requires mapNodes[edges[t].src].Some? && mapNodes[edges[t].dst].Some?
    ensures Remap(mapNodes, edges[t]).value in Remapped(mapNodes, edges)
    decreases t
  {
    if t > 0 {
      KeptRemapped(mapNodes, edges[1..], t - 1);
      assert edges[1..][t - 1] == edges[t];
    }
  }
}
