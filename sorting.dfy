/** Sorting by a key.

    The library calls `sort_by_key` (on edges, keyed by their endpoint pair) and
    `sort` (on the index lists of the example) are used only through what the
    standard library promises of them: the result is ordered by key, it is a
    permutation of the input, and elements with equal keys keep their relative
    order. The model realises that promise with an insertion sort; nothing
    relies on the particular algorithm. */
module Sorting {

  /** `le` is total and transitive, as the `Ord` ordering of a key type is. */
  ghost predicate TotalPreorder<K(!new)>(le: (K, K) -> bool) {
    && (forall a, b :: le(a, b) || le(b, a))
    && (forall a, b, c :: le(a, b) && le(b, c) ==> le(a, c))
  }

  /** Every element's key is at most the key of every later element. */
  ghost predicate SortedBy<X, K>(s: seq<X>, key: X -> K, le: (K, K) -> bool) {
    forall p, q | 0 <= p < q < |s| :: le(key(s[p]), key(s[q]))
  }

  /** The elements of `s` whose key is `k`, in their order in `s`. */
  ghost function WithKey<X, K>(s: seq<X>, key: X -> K, k: K): seq<X>
    decreases |s|
  {
    if s == [] then []
    else WithKey(s[..|s| - 1], key, k) + (if key(s[|s| - 1]) == k then [s[|s| - 1]] else [])
  }

  /** `r` lists the elements of each key in the same order as `s` does. */
  ghost predicate Stable<X, K(!new)>(r: seq<X>, s: seq<X>, key: X -> K) {
    forall k :: WithKey(r, key, k) == WithKey(s, key, k)
  }

  /** `x` placed after every element of `s` whose key is at most its own,
      scanning from the end. */
  function Insert<X, K>(s: seq<X>, x: X, key: X -> K, le: (K, K) -> bool): seq<X>
    decreases |s|
  {
    if s == [] || le(key(s[|s| - 1]), key(x)) then s + [x]
    else Insert(s[..|s| - 1], x, key, le) + [s[|s| - 1]]
  }

  lemma WithKeyAppend<X, K>(s: seq<X>, x: X, key: X -> K, k: K)
    ensures WithKey(s + [x], key, k) == WithKey(s, key, k) + (if key(x) == k then [x] else [])
  {
    assert (s + [x])[..|s + [x]| - 1] == s;
  }

  lemma {:induction false} InsertPermutes<X, K>(s: seq<X>, x: X, key: X -> K, le: (K, K) -> bool)
    ensures multiset(Insert(s, x, key, le)) == multiset(s) + multiset{x}
    decreases |s|
  {
    if s == [] || le(key(s[|s| - 1]), key(x)) {
    } else {
      var s', y := s[..|s| - 1], s[|s| - 1];
      assert s == s' + [y];
      InsertPermutes(s', x, key, le);
    }
  }

  /** Inserting `x` adds it after every element that shares its key. */
  lemma {:induction false} InsertWithKey<X, K(!new)>(s: seq<X>, x: X, key: X -> K, le: (K, K) -> bool, k: K)
    requires TotalPreorder(le)
    ensures WithKey(Insert(s, x, key, le), key, k) == WithKey(s, key, k) + (if key(x) == k then [x] else [])
    decreases |s|
  {
    if s == [] || le(key(s[|s| - 1]), key(x)) {
      WithKeyAppend(s, x, key, k);
    } else {
      var s', y := s[..|s| - 1], s[|s| - 1];
      assert s == s' + [y];
      InsertWithKey(s', x, key, le, k);
      assert key(x) != key(y) by {
        assert le(key(x), key(x)) || le(key(x), key(x));
      }
      WithKeyAppend(Insert(s', x, key, le), y, key, k);
      WithKeyAppend(s', y, key, k);
    }
  }

  lemma {:induction false} InsertSorted<X, K(!new)>(s: seq<X>, x: X, key: X -> K, le: (K, K) -> bool)
    requires TotalPreorder(le)
    requires SortedBy(s, key, le)
    ensures SortedBy(Insert(s, x, key, le), key, le)
    decreases |s|
  {
    if s == [] || le(key(s[|s| - 1]), key(x)) {
      var r := s + [x];
      forall p, q | 0 <= p < q < |r| ensures le(key(r[p]), key(r[q])) {
        if q == |s| && p < |s| - 1 {
          assert le(key(s[p]), key(s[|s| - 1]));
        }
      }
    } else {
      var s', y := s[..|s| - 1], s[|s| - 1];
      assert s == s' + [y];
      assert SortedBy(s', key, le);
      InsertSorted(s', x, key, le);
      InsertPermutes(s', x, key, le);
      var t := Insert(s', x, key, le);
      assert le(key(x), key(y)) by {
        assert le(key(y), key(x)) || le(key(x), key(y));
      }
      forall p | 0 <= p < |t| ensures le(key(t[p]), key(y)) {
        var z := t[p];
        assert z in multiset(t);
        if z != x {
          assert z in multiset(s');
          var w :| 0 <= w < |s'| && s'[w] == z;
          assert s[w] == z;
        }
      }
      var r := t + [y];
      forall p, q | 0 <= p < q < |r| ensures le(key(r[p]), key(r[q])) {
        if q < |t| {
          assert r[p] == t[p] && r[q] == t[q];
        }
      }
    }
  }

  /** A stable sort by key: ordered, a permutation, and stable. */
  function SortBy<X, K(!new)>(s: seq<X>, key: X -> K, le: (K, K) -> bool): (r: seq<X>)
    requires TotalPreorder(le)
    ensures SortedBy(r, key, le)
    ensures multiset(r) == multiset(s)
    ensures Stable(r, s, key)
    decreases |s|
  {
    if s == [] then []
    else
      var s', x := s[..|s| - 1], s[|s| - 1];
      assert s == s' + [x];
      var t := SortBy(s', key, le);
      InsertSorted(t, x, key, le);
      InsertPermutes(t, x, key, le);
      assert forall k :: WithKey(Insert(t, x, key, le), key, k) == WithKey(t, key, k) + (if key(x) == k then [x] else []) by {
        forall k ensures WithKey(Insert(t, x, key, le), key, k) == WithKey(t, key, k) + (if key(x) == k then [x] else []) {
          InsertWithKey(t, x, key, le, k);
        }
      }
      assert forall k :: WithKey(s, key, k) == WithKey(s', key, k) + (if key(x) == k then [x] else []) by {
        forall k ensures WithKey(s, key, k) == WithKey(s', key, k) + (if key(x) == k then [x] else []) {
          WithKeyAppend(s', x, key, k);
        }
      }
      Insert(t, x, key, le)
  }

  /** `le` separates distinct keys, as the `Ord` ordering of a key type does. */
  ghost predicate Antisymmetric<K(!new)>(le: (K, K) -> bool) {
    forall a, b :: le(a, b) && le(b, a) ==> a == b
  }

  /** A key that `WithKey` finds occurs in the list. */
  lemma {:induction false} WithKeyOccurs<X, K>(s: seq<X>, key: X -> K, k: K) returns (p: nat)
    requires WithKey(s, key, k) != []
    ensures p < |s| && key(s[p]) == k
    decreases |s|
  {
    if key(s[|s| - 1]) == k {
      p := |s| - 1;
    } else {
      p := WithKeyOccurs(s[..|s| - 1], key, k);
    }
  }

  /** When `le` is antisymmetric, two lists ordered by key that list the
      elements of each key alike are equal: there is only one stable sort. */
  lemma {:induction false} SortedUnique<X, K(!new)>(r1: seq<X>, r2: seq<X>, key: X -> K, le: (K, K) -> bool)
    requires TotalPreorder(le) && Antisymmetric(le)
    requires SortedBy(r1, key, le) && SortedBy(r2, key, le)
    requires forall k :: WithKey(r1, key, k) == WithKey(r2, key, k)
    ensures r1 == r2
    decreases |r1| + |r2|
  {
    if r1 == [] || r2 == [] {
      if r1 != [] {
        LastOfKey(r1, key, WithKey(r2, key, key(r1[|r1| - 1])));
      } else if r2 != [] {
        LastOfKey(r2, key, WithKey(r1, key, key(r2[|r2| - 1])));
      }
    } else {
      var n1, n2 := |r1| - 1, |r2| - 1;
      var k1, k2 := key(r1[n1]), key(r2[n2]);
      // each last key occurs in the other list, so it is at most that list's last key
      var p := WithKeyOccurs(r1, key, k2);
      var q := WithKeyOccurs(r2, key, k1);
      assert le(k2, k1) by {
        if p < n1 { assert le(key(r1[p]), key(r1[n1])); } else { Reflexive(le, k1); }
      }
      assert le(k1, k2) by {
        if q < n2 { assert le(key(r2[q]), key(r2[n2])); } else { Reflexive(le, k2); }
      }
      assert k1 == k2;
      var r1', r2' := r1[..n1], r2[..n2];
      assert WithKey(r1, key, k1) == WithKey(r1', key, k1) + [r1[n1]];
      assert WithKey(r2, key, k1) == WithKey(r2', key, k1) + [r2[n2]];
      assert WithKey(r1, key, k1) == WithKey(r2, key, k1);
      LastCancel(WithKey(r1', key, k1), WithKey(r2', key, k1), r1[n1], r2[n2]);
      forall k ensures WithKey(r1', key, k) == WithKey(r2', key, k) {
        assert WithKey(r1, key, k) == WithKey(r2, key, k);
        if k != k1 {
          assert WithKey(r1, key, k) == WithKey(r1', key, k);
          assert WithKey(r2, key, k) == WithKey(r2', key, k);
        }
      }
      SortedUnique(r1', r2', key, le);
      assert r1 == r1' + [r1[n1]] && r2 == r2' + [r2[n2]];
    }
  }

  lemma Reflexive<K(!new)>(le: (K, K) -> bool, k: K)
    requires TotalPreorder(le)
    ensures le(k, k)
  {
    assert le(k, k) || le(k, k);
  }

  lemma LastCancel<X>(a: seq<X>, b: seq<X>, x: X, y: X)
    requires a + [x] == b + [y]
    ensures a == b && x == y
  {
    assert |a| == |b|;
    assert (a + [x])[..|a|] == a && (b + [y])[..|b|] == b;
    assert (a + [x])[|a|] == x && (b + [y])[|b|] == y;
  }

  /** The last element's key is listed by `WithKey`, so a list that lists that
      key alike is not empty. */
  lemma LastOfKey<X, K>(s: seq<X>, key: X -> K, w: seq<X>)
    requires s != [] && w == WithKey(s, key, key(s[|s| - 1]))
    ensures w != []
  {
  }

  /** `SortBy` is the only list ordered by an antisymmetric `le` that is
      stable with respect to `s`. */
  lemma SortByUnique<X, K(!new)>(s: seq<X>, r: seq<X>, key: X -> K, le: (K, K) -> bool)
    requires TotalPreorder(le) && Antisymmetric(le)
    requires SortedBy(r, key, le) && Stable(r, s, key)
    ensures r == SortBy(s, key, le)
  {
    var t := SortBy(s, key, le);
    assert forall k :: WithKey(r, key, k) == WithKey(t, key, k) by {
      forall k ensures WithKey(r, key, k) == WithKey(t, key, k) {
        assert WithKey(r, key, k) == WithKey(s, key, k);
      }
    }
    SortedUnique(r, t, key, le);
  }

  /** A stable sort leaves two elements with the same key in place. */
  lemma TiedStay<X, K(!new)>(c: seq<X>, key: X -> K, le: (K, K) -> bool)
    requires TotalPreorder(le)
    requires |c| == 2 && key(c[0]) == key(c[1])
    ensures SortBy(c, key, le) == c
  {
    var s := SortBy(c, key, le);
    assert |s| == 2 by {
      assert |multiset(s)| == |s| && |multiset(c)| == |c|;
    }
    assert s[0] in multiset(c) && s[1] in multiset(c);
    assert c == [c[0], c[1]];
    TwoWithKey(s, c, key, key(c[0]));
  }

  /** A sort leaves two elements whose keys are strictly ordered in place. */
  lemma AscendingStay<X, K(!new)>(c: seq<X>, key: X -> K, le: (K, K) -> bool)
    requires TotalPreorder(le)
    requires |c| == 2 && le(key(c[0]), key(c[1])) && !le(key(c[1]), key(c[0]))
    ensures SortBy(c, key, le) == c
  {
    var one := c[..1];
    assert one[..0] == [] && one == [c[0]];
    assert SortBy(one, key, le) == Insert([], c[0], key, le) == one;
    assert c[..|c| - 1] == one && c == one + [c[1]];
  }

  /** Two lists of two elements of key `k` that list key `k` alike are equal. */
  lemma TwoWithKey<X, K>(s: seq<X>, c: seq<X>, key: X -> K, k: K)
    requires |s| == 2 && |c| == 2
    requires key(s[0]) == k && key(s[1]) == k && key(c[0]) == k && key(c[1]) == k
    requires WithKey(s, key, k) == WithKey(c, key, k)
    ensures s == c
  {
    WithKeyAppend([], s[0], key, k);
    WithKeyAppend([s[0]], s[1], key, k);
    WithKeyAppend([], c[0], key, k);
    WithKeyAppend([c[0]], c[1], key, k);
    assert [] + [s[0]] == [s[0]] && [s[0]] + [s[1]] == s;
    assert [] + [c[0]] == [c[0]] && [c[0]] + [c[1]] == c;
  }
}
