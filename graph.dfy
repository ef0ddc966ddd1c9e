/** The data shared by the generator and the symmetriser of `src/lib.rs`:
    a graph is a list of nodes, where a node's position is its index, and a
    list of edges, each a pair of node indices with a label. */
module Graphs {

  datatype Option<T> = None | Some(value: T)

  /** `Ok` or `Err`, as Rust's `Result`. */
  datatype Result<T, E> = Ok(value: T) | Err(error: E)

  /** The ceilings that stop expansion. */
  datatype GenerateSettings = GenerateSettings(maxNodes: nat, maxEdges: nat)

  /** Which ceiling was reached. The caller's error type is built from it by a
      conversion function, which stands for the `From<GenerateError>` bound. */
  datatype GenerateError = MaxNodes | MaxEdges

  /** An edge `[src, dst]` with its label `data`. */
  datatype Edge<U> = Edge(src: nat, dst: nat, data: U)
  {
    function Ends(): (nat, nat) { (src, dst) }
  }

  /** A graph: its nodes, where a node's position is its index, and its edges. */
  type Graph<T, U> = (seq<T>, seq<Edge<U>>)

  /** Every endpoint indexes one of `count` nodes. */
  ghost predicate ValidEdges<U>(edges: seq<Edge<U>>, count: nat) {
    forall t | 0 <= t < |edges| :: edges[t].src < count && edges[t].dst < count
  }

  /** The endpoint pairs occurring in `edges`: the content of a `has_edge` set. */
  ghost function Pairs<U>(edges: seq<Edge<U>>): set<(nat, nat)> {
    set t | 0 <= t < |edges| :: edges[t].Ends()
  }

  lemma PairsAppend<U>(edges: seq<Edge<U>>, e: Edge<U>)
    ensures Pairs(edges + [e]) == Pairs(edges) + {e.Ends()}
  {
    var s := edges + [e];
    assert s[|edges|].Ends() in Pairs(s);
    forall t | 0 <= t < |edges| ensures edges[t].Ends() in Pairs(s) {
      assert s[t] == edges[t];
    }
  }

  lemma PairsHas<U>(edges: seq<Edge<U>>, t: nat)
    requires t < |edges|
    ensures edges[t].Ends() in Pairs(edges)
  {
  }

  lemma PairsPrefix<U>(edges: seq<Edge<U>>, n: nat)
    requires n <= |edges|
    ensures Pairs(edges[..n]) <= Pairs(edges)
  {
    forall t | 0 <= t < n ensures edges[..n][t].Ends() in Pairs(edges) {
      assert edges[..n][t] == edges[t];
    }
  }

  /** `Vec::swap_remove(j)`: element `j` is removed and the last element takes
      its place, so the elements before `j` stay where they are and those
      after `j` are rearranged but kept. */
  function SwapRemove<X>(s: seq<X>, j: nat): (r: seq<X>)
    requires j < |s|
    ensures |r| == |s| - 1
    ensures r[..j] == s[..j]
    ensures j < |r| ==> r[j] == s[|s| - 1]
    ensures multiset(r[j..]) == multiset(s[j + 1..])
    ensures multiset(r) == multiset(s) - multiset{s[j]}
  {
    SwapRemoveFacts(s, j);
    s[..j] + Moved(s, j)
  }

  /** What takes the place of element `j` and those after it. */
  function Moved<X>(s: seq<X>, j: nat): seq<X>
    requires j < |s|
  {
    if j == |s| - 1 then [] else [s[|s| - 1]] + s[j + 1..|s| - 1]
  }

  lemma SwapRemoveFacts<X>(s: seq<X>, j: nat)
    requires j < |s|
    ensures var r := s[..j] + Moved(s, j);
            && |r| == |s| - 1
            && r[..j] == s[..j]
            && (j < |r| ==> r[j] == s[|s| - 1])
            && multiset(r[j..]) == multiset(s[j + 1..])
            && multiset(r) == multiset(s) - multiset{s[j]}
  {
    MovedKeeps(s, j);
    SwapRemoveParts(s[..j], Moved(s, j));
    SwapRemoveCount(s, j, Moved(s, j));
  }

  lemma SwapRemoveParts<X>(a: seq<X>, m: seq<X>)
    ensures (a + m)[..|a|] == a && (a + m)[|a|..] == m
  {
  }

  lemma SwapRemoveCount<X>(s: seq<X>, j: nat, m: seq<X>)
    requires j < |s|
    requires multiset(m) == multiset(s[j + 1..])
    ensures multiset(s[..j] + m) == multiset(s) - multiset{s[j]}
  {
    assert multiset(s) == multiset(s[..j]) + multiset{s[j]} + multiset(s[j + 1..]) by {
      assert s == s[..j] + ([s[j]] + s[j + 1..]);
    }
    assert multiset(s[..j] + m) == multiset(s[..j]) + multiset(m);
    Cancel(multiset(s[..j]), multiset(m), s[j]);
  }

  lemma Cancel<X>(a: multiset<X>, c: multiset<X>, x: X)
    ensures (a + multiset{x} + c) - multiset{x} == a + c
  {
  }

  lemma MovedKeeps<X>(s: seq<X>, j: nat)
    requires j < |s|
    ensures |Moved(s, j)| == |s| - j - 1
    ensures multiset(Moved(s, j)) == multiset(s[j + 1..])
  {
    if j < |s| - 1 {
      var mid, last := s[j + 1..|s| - 1], s[|s| - 1];
      assert s[j + 1..] == mid + [last];
      assert Moved(s, j) == [last] + mid;
      assert multiset([last] + mid) == multiset(mid + [last]) by {
        assert multiset([last] + mid) == multiset([last]) + multiset(mid);
        assert multiset(mid + [last]) == multiset(mid) + multiset([last]);
      }
    }
  }

  lemma Occurs<X>(c: seq<X>, s: seq<X>, a: nat) returns (a': nat)
    requires multiset(s) == multiset(c)
    requires a < |s|
    ensures a' < |c| && c[a'] == s[a]
  {
    assert s[a] in multiset(s);
    a' := Index(c, s[a]);
  }

  lemma Index<X>(c: seq<X>, e: X) returns (a: nat)
    requires e in multiset(c)
    ensures a < |c| && c[a] == e
  {
    assert e in c;
    a :| 0 <= a < |c| && c[a] == e;
  }

  /** Two lists that agree on their first `n` elements agree at each index
      below `n` and on each shorter prefix. */
  lemma PrefixAt<X>(a: seq<X>, b: seq<X>, n: nat, i: nat)
    requires n <= |a| && n <= |b| && a[..n] == b[..n]
    requires i < n
    ensures a[i] == b[i] && a[..i] == b[..i]
  {
    assert a[i] == a[..n][i] && b[i] == b[..n][i];
    assert a[..i] == a[..n][..i] && b[..i] == b[..n][..i];
  }
}
