/** `bidir` (src/lib.rs): each edge's endpoints are put in ascending order,
    the edges are stable-sorted by endpoint pair, and the sorted list is walked
    from the end in pairs `(j, j + 1)`. From each pair one element is removed:
    the upper one when the two are equal, else the lower one, which
    `swap_remove` replaces by the current last element. Either way one element
    equal to the upper one of the pair is kept. With an odd number of edges the
    first sorted edge has no partner and is kept. */
module Symmetrize {
  import opened Graphs
  import opened Sorting
  import opened Pairing

  /** The sort key of an edge: its endpoint pair. */
  function Key<U>(e: Edge<U>): (nat, nat) {
    e.Ends()
  }

  /** The order of endpoint pairs: lexicographic, as for `[usize; 2]`. */
  predicate PairLe(a: (nat, nat), b: (nat, nat)) {
    a.0 < b.0 || (a.0 == b.0 && a.1 <= b.1)
  }

  lemma PairLeTotal()
    ensures TotalPreorder(PairLe)
  {
  }

  /** The edge with its endpoints in ascending order. */
  function Canonical<U>(e: Edge<U>): (r: Edge<U>)
    ensures r.src <= r.dst
    ensures multiset{r.src, r.dst} == multiset{e.src, e.dst}
    ensures r.data == e.data
  {
    if e.src <= e.dst then e else Edge(e.dst, e.src, e.data)
  }

  /** The edges with their endpoints in ascending order. */
  ghost function CanonicalAll<U>(edges: seq<Edge<U>>): seq<Edge<U>> {
    seq(|edges|, t requires 0 <= t < |edges| => Canonical(edges[t]))
  }

  /** The canonical edges sorted by endpoint pair, ties in input order. On
      endpoint pairs `PairLe` is total and antisymmetric, so a stable sort has
      exactly one possible result (`SortedCanonicalUnique`): this is the list
      `sort_by_key` produces. */
  ghost function SortedCanonical<U>(edges: seq<Edge<U>>): seq<Edge<U>> {
    PairLeTotal();
    SortBy(CanonicalAll(edges), Key, PairLe)
  }

  /** Any list ordered by endpoint pair that lists the canonical edges of each
      pair in input order is `SortedCanonical`. */
  lemma SortedCanonicalUnique<U>(edges: seq<Edge<U>>, r: seq<Edge<U>>)
    requires SortedBy(r, Key, PairLe) && Stable(r, CanonicalAll(edges), Key)
    ensures r == SortedCanonical(edges)
  {
    PairLeTotal();
    assert Antisymmetric(PairLe) by {
      forall a, b | PairLe(a, b) && PairLe(b, a) ensures a == b {
        PairLeAntisymmetric(a, b);
      }
    }
    SortByUnique(CanonicalAll(edges), r, Key, PairLe);
  }

  /** What `bidir` keeps, as a list; the edges it returns are these in some
      order. */
  ghost function Survivors<U>(edges: seq<Edge<U>>): seq<Edge<U>> {
    Uppers(SortedCanonical(edges))
  }

  /** The first loop of `bidir`: each edge's endpoints put in ascending
      order, in place. */
  method Canonicalize<U>(edges: seq<Edge<U>>) returns (out: seq<Edge<U>>)
    ensures out == CanonicalAll(edges)
  {
    out := edges;
    for j := 0 to |out|
      invariant |out| == |edges|
      invariant forall t | 0 <= t < |out| :: out[t] == if t < j then Canonical(edges[t]) else edges[t]
    {
      var a, b := out[j].src, out[j].dst;
      var e := Edge(if a <= b then a else b, if a <= b then b else a, out[j].data);
      assert e == Canonical(edges[j]);
      out := out[j := e];
    }
    CanonicalAllAt(edges, out);
  }

  lemma CanonicalAllAt<U>(edges: seq<Edge<U>>, out: seq<Edge<U>>)
    requires |out| == |edges|
    requires forall t | 0 <= t < |out| :: out[t] == Canonical(edges[t])
    ensures out == CanonicalAll(edges)
  {
  }

  /** `bidir`. The result holds, in some order, the survivors: one element
      per pair of the sorted canonical list, half the edges rounded up. */
  method Bidir<U(==)>(edges: seq<Edge<U>>) returns (out: seq<Edge<U>>)
    ensures edges == [] ==> out == []
    ensures multiset(out) == multiset(Survivors(edges))
    ensures |out| == (|edges| + 1) / 2
    ensures forall t | 0 <= t < |out| :: out[t].src <= out[t].dst
  {
    if |edges| == 0 {
      return edges;
    }
    out := Canonicalize(edges);
    PairLeTotal();
    out := SortBy(out, Key, PairLe);
    out := PairUp(out);
    Ascending(edges, out);
  }

  lemma Ascending<U>(edges: seq<Edge<U>>, out: seq<Edge<U>>)
    requires multiset(out) == multiset(Survivors(edges))
    ensures forall t | 0 <= t < |out| :: out[t].src <= out[t].dst
    ensures |out| == (|edges| + 1) / 2
  {
    SurvivorsCanonical(edges);
    assert |out| == |multiset(out)| == |multiset(Survivors(edges))| == |Survivors(edges)|;
    forall t | 0 <= t < |out| ensures out[t].src <= out[t].dst {
      assert out[t] in multiset(Survivors(edges));
    }
  }

  /** The sorted list is a permutation of the canonical edges. */
  lemma SortedPermutes<U>(edges: seq<Edge<U>>)
    ensures multiset(SortedCanonical(edges)) == multiset(CanonicalAll(edges))
    ensures |SortedCanonical(edges)| == |edges|
  {
    var s, c := SortedCanonical(edges), CanonicalAll(edges);
    assert |multiset(s)| == |s| && |multiset(c)| == |c|;
  }

  /** Every survivor is a canonical input edge: a sub-multiset of the
      canonical edges, with ascending endpoints, half of them rounded up. */
  lemma SurvivorsCanonical<U>(edges: seq<Edge<U>>)
    ensures multiset(Survivors(edges)) <= multiset(CanonicalAll(edges))
    ensures forall e | e in Survivors(edges) :: e.src <= e.dst
    ensures |Survivors(edges)| == (|edges| + 1) / 2
  {
    SortedPermutes(edges);
    var s := SortedCanonical(edges);
    UppersSub(s);
    UppersLength(s);
    var c := CanonicalAll(edges);
    forall e | e in Survivors(edges) ensures e.src <= e.dst {
      assert e in multiset(Survivors(edges));
      CanonicalMember(edges, e);
    }
  }

  lemma CanonicalMember<U>(edges: seq<Edge<U>>, e: Edge<U>)
    requires e in multiset(CanonicalAll(edges))
    ensures e.src <= e.dst
  {
    var c := CanonicalAll(edges);
    var t :| 0 <= t < |c| && c[t] == e;
  }

  /** The assumption of `bidir`'s documentation: every canonical edge occurs
      exactly twice, and two canonical edges with the same endpoints are the
      same edge (the two directions carry equal labels). */
  ghost predicate Doubled<U>(s: seq<Edge<U>>) {
    && (forall a | 0 <= a < |s| :: multiset(s)[s[a]] == 2)
    && (forall a, b | 0 <= a < |s| && 0 <= b < |s| && Key(s[a]) == Key(s[b]) :: s[a] == s[b])
  }

  /** Being doubled depends on the multiset only. */
  lemma DoubledPermutes<U>(c: seq<Edge<U>>, s: seq<Edge<U>>)
    requires multiset(s) == multiset(c)
    requires Doubled(c)
    ensures Doubled(s)
  {
    forall a | 0 <= a < |s| ensures multiset(s)[s[a]] == 2 {
      var a' := Occurs(c, s, a);
    }
    forall a, b | 0 <= a < |s| && 0 <= b < |s| && Key(s[a]) == Key(s[b]) ensures s[a] == s[b] {
      var a' := Occurs(c, s, a);
      var b' := Occurs(c, s, b);
    }
  }

  lemma PairLeAntisymmetric(a: (nat, nat), b: (nat, nat))
    requires PairLe(a, b) && PairLe(b, a)
    ensures a == b
  {
  }

  /** On a sorted doubled list the first two elements are equal. */
  lemma FirstTwoEqual<U>(s: seq<Edge<U>>)
    requires SortedBy(s, Key, PairLe)
    requires Doubled(s)
    requires s != []
    ensures |s| >= 2 && s[0] == s[1]
  {
    var x := s[0];
    var s1 := s[1..];
    assert s == [x] + s1;
    assert multiset(s)[x] == 2;
    assert multiset(s) == multiset{x} + multiset(s1);
    assert x in multiset(s1);
    var p := Index(s1, x);
    assert s[p + 1] == x;
    if p > 0 {
      assert PairLe(Key(s[0]), Key(s[1]));
      assert PairLe(Key(s[1]), Key(s[p + 1]));
      PairLeAntisymmetric(Key(x), Key(s[1]));
    }
  }

  /** Dropping the first pair of a sorted doubled list leaves a sorted doubled
      list without its first element. */
  lemma DropFirstPair<U>(s: seq<Edge<U>>)
    requires SortedBy(s, Key, PairLe)
    requires Doubled(s)
    requires |s| >= 2 && s[0] == s[1]
    ensures var s2 := s[2..];
            && SortedBy(s2, Key, PairLe) && Doubled(s2)
            && s == [s[0], s[0]] + s2
            && multiset(s2)[s[0]] == 0
  {
    var x := s[0];
    var s2 := s[2..];
    assert s == [x, x] + s2;
    assert multiset(s) == multiset{x, x} + multiset(s2);
    assert multiset(s)[x] == 2;
    SortedTail(s);
    DoubledTail(s);
  }

  lemma SortedTail<U>(s: seq<Edge<U>>)
    requires SortedBy(s, Key, PairLe)
    requires |s| >= 2
    ensures SortedBy(s[2..], Key, PairLe)
  {
    var s2 := s[2..];
    forall a, b | 0 <= a < b < |s2| ensures PairLe(Key(s2[a]), Key(s2[b])) {
      assert s2[a] == s[a + 2] && s2[b] == s[b + 2];
    }
  }

  lemma DoubledTail<U>(s: seq<Edge<U>>)
    requires Doubled(s)
    requires |s| >= 2 && s[0] == s[1]
    requires multiset(s) == multiset{s[0], s[0]} + multiset(s[2..])
    ensures Doubled(s[2..])
  {
    var x := s[0];
    var s2 := s[2..];
    assert multiset(s)[x] == 2;
    forall a | 0 <= a < |s2| ensures multiset(s2)[s2[a]] == 2 {
      assert s2[a] == s[a + 2];
      assert s2[a] != x;
    }
    forall a, b | 0 <= a < |s2| && 0 <= b < |s2| && Key(s2[a]) == Key(s2[b]) ensures s2[a] == s2[b] {
      assert s2[a] == s[a + 2] && s2[b] == s[b + 2];
    }
  }

  /** On a sorted list where every element occurs twice and keys determine
      elements, the length is even and every element survives exactly once. */
  lemma {:induction false} DoubledSurvivesOnce<U>(s: seq<Edge<U>>)
    requires SortedBy(s, Key, PairLe)
    requires Doubled(s)
    ensures |s| % 2 == 0
    ensures forall e :: multiset(Uppers(s))[e] == if e in multiset(s) then 1 else 0
    decreases |s|
  {
    if s != [] {
      FirstTwoEqual(s);
      DropFirstPair(s);
      var x := s[0];
      var s2 := s[2..];
      DoubledSurvivesOnce(s2);
      assert |s| == |s2| + 2;
      EvenPlusTwo(|s2|);
      UppersPair(s, 0);
      assert s[0..] == s;
      forall e ensures multiset(Uppers(s))[e] == if e in multiset(s) then 1 else 0 {
        assert multiset(Uppers(s)) == multiset{x} + multiset(Uppers(s2));
        assert multiset(s) == multiset{x, x} + multiset(s2);
      }
    }
  }

  lemma EvenPlusTwo(n: nat)
    requires n % 2 == 0
    ensures (n + 2) % 2 == 0
  {
  }

  /** The documented case: when every canonical edge occurs exactly twice
      with equal labels, `bidir` keeps exactly one copy of each. */
  lemma DocumentedCase<U>(edges: seq<Edge<U>>)
    requires Doubled(CanonicalAll(edges))
    ensures forall e :: multiset(Survivors(edges))[e] == if e in multiset(CanonicalAll(edges)) then 1 else 0
  {
    var s := SortedCanonical(edges);
    SortedPermutes(edges);
    DoubledPermutes(CanonicalAll(edges), s);
    PairLeTotal();
    DoubledSurvivesOnce(s);
  }

  /** A lone edge is kept, although it exists in one direction only. */
  lemma LoneEdgeSurvives<U>(e: Edge<U>)
    ensures Survivors([e]) == [Canonical(e)]
  {
    var s := SortedCanonical([e]);
    assert CanonicalAll([e]) == [Canonical(e)];
    SortedPermutes([e]);
    UppersSingle(s);
    assert s[1..] == [];
    UppersEmpty(s[1..]);
  }

  /** Of an unequal pair sharing its endpoints, the upper one in sorted order
      is kept, the other is lost. */
  lemma UnequalPairKeepsUpper<U>(x: Edge<U>, y: Edge<U>)
    requires Key(Canonical(x)) == Key(Canonical(y))
    ensures Survivors([x, y]) == [Canonical(y)]
  {
    var s := SortedCanonical([x, y]);
    TiedPairStays(x, y);
    KeepsSecond(s);
  }

  /** An edge that exists in one direction only can also be lost: paired in
      the walk with an edge of other endpoints, it is the lower one and
      `swap_remove`d. */
  lemma OneWayEdgeLost<U>(u: U, v: U)
    ensures Survivors([Edge(0, 1, u), Edge(2, 3, v)]) == [Edge(2, 3, v)]
  {
    var a, b := Edge(0, 1, u), Edge(2, 3, v);
    AscendingPairStays(a, b);
    KeepsSecond(SortedCanonical([a, b]));
  }

  /** Sorting two canonical edges whose endpoint pairs ascend strictly keeps
      their order. */
  lemma AscendingPairStays<U>(x: Edge<U>, y: Edge<U>)
    requires x.src <= x.dst && y.src <= y.dst
    requires PairLe(Key(x), Key(y)) && Key(x) != Key(y)
    ensures SortedCanonical([x, y]) == [x, y]
  {
    var c := CanonicalAll([x, y]);
    assert c == [x, y];
    PairLeTotal();
    if PairLe(Key(y), Key(x)) {
      PairLeAntisymmetric(Key(x), Key(y));
    }
    AscendingStay(c, Key, PairLe);
  }

  lemma KeepsSecond<U>(s: seq<Edge<U>>)
    requires |s| == 2
    ensures Uppers(s) == [s[1]]
  {
    assert s[2..] == [] && s[0..] == s;
    UppersPair(s, 0);
    UppersEmpty(s[2..]);
  }

  /** Sorting two canonical edges with the same endpoints keeps their order. */
  lemma TiedPairStays<U>(x: Edge<U>, y: Edge<U>)
    requires Key(Canonical(x)) == Key(Canonical(y))
    ensures SortedCanonical([x, y]) == [Canonical(x), Canonical(y)]
  {
    var c := CanonicalAll([x, y]);
    assert c == [Canonical(x), Canonical(y)];
    PairLeTotal();
    TiedStay(c, Key, PairLe);
  }

  /** Applying `bidir` to its own output changes it whenever it holds two
      edges or more: the second pass halves it again, so `bidir` is not
      idempotent, even on a doubled input. */
  lemma NotIdempotent<U>(edges: seq<Edge<U>>)
    requires |edges| >= 3
    ensures |Survivors(edges)| >= 2
    ensures forall y | multiset(y) == multiset(Survivors(edges)) :: |Survivors(y)| < |Survivors(edges)|
  {
    SurvivorsCanonical(edges);
    forall y | multiset(y) == multiset(Survivors(edges)) ensures |Survivors(y)| < |Survivors(edges)| {
      assert |y| == |multiset(y)| == |multiset(Survivors(edges))| == |Survivors(edges)|;
      SurvivorsCanonical(y);
    }
  }
}
