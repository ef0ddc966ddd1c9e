/** The pair walk of `bidir` (src/lib.rs), on any list: walked from the end,
    each pair `(j, j + 1)` loses one element by `swap_remove`, the upper one
    when the two are equal and the lower one otherwise, so that a copy of the
    upper one always stays; with odd length the first element has no partner
    and stays. */
module Pairing {
  import opened Graphs

  /** The element kept from each pair of `s`. Pairs are counted from the end,
      so with odd length `s[0]` stands alone and is kept, and the pairs are
      `(s[1], s[2])`, `(s[3], s[4])`, ...; with even length they are
      `(s[0], s[1])`, `(s[2], s[3])`, .... Each pair keeps its upper element. */
  ghost function Uppers<X>(s: seq<X>): seq<X>
    decreases |s|
  {
    if |s| % 2 == 1 then [s[0]] + Uppers(s[1..])
    else if |s| == 0 then []
    else [s[1]] + Uppers(s[2..])
  }

  lemma Halves(n: nat)
    ensures n % 2 == 1 ==> (n - 1) % 2 == 0 && 1 + n / 2 == (n + 1) / 2
    ensures n % 2 == 0 && n >= 2 ==> (n - 2) % 2 == 0 && 1 + (n - 1) / 2 == (n + 1) / 2
  {
    var q := n / 2;
    assert n == 2 * q + n % 2;
  }

  lemma Parity(n: nat)
    requires n % 2 == 0 && n > 0
    ensures n % 2 != 1 && n != 0
  {
  }

  /** One survivor per pair, and one for an unpaired first element. */
  lemma {:induction false} UppersLength<X>(s: seq<X>)
    ensures |Uppers(s)| == (|s| + 1) / 2
    decreases |s|
  {
    Halves(|s|);
    if |s| % 2 == 1 {
      UppersLength(s[1..]);
    } else if |s| > 0 {
      UppersLength(s[2..]);
    }
  }

  /** Survivors are elements of the list, no more often than they occur. */
  lemma {:induction false} UppersSub<X>(s: seq<X>)
    ensures multiset(Uppers(s)) <= multiset(s)
    decreases |s|
  {
    if |s| % 2 == 1 {
      UppersSub(s[1..]);
      assert s == [s[0]] + s[1..];
    } else if |s| > 0 {
      UppersSub(s[2..]);
      assert s == [s[0], s[1]] + s[2..];
    }
  }

  /** The survivors of an even-length suffix starting at `j`: the upper
      element of the pair `(j, j + 1)`, then the survivors after it. */
  lemma UppersPair<X>(s: seq<X>, j: nat)
    requires j + 2 <= |s| && (|s| - j) % 2 == 0
    ensures Uppers(s[j..]) == [s[j + 1]] + Uppers(s[j + 2..])
  {
    var t := s[j..];
    Parity(|t|);
    assert t[1] == s[j + 1];
    assert t[2..] == s[j + 2..];
  }

  /** The survivors of an odd-length list: its first element, then the
      survivors of the pairs after it. */
  lemma UppersSingle<X>(s: seq<X>)
    requires 1 <= |s| && (|s| - 1) % 2 == 0
    ensures Uppers(s) == [s[0]] + Uppers(s[1..])
  {
    Halves(|s| - 1);
    assert |s| % 2 == 1;
  }

  lemma UppersEmpty<X>(s: seq<X>)
    requires s == []
    ensures Uppers(s) == []
  {
  }

  lemma ConsSplit<X>(s: seq<X>, i: nat)
    requires i < |s|
    ensures multiset(s[i..]) == multiset{s[i]} + multiset(s[i + 1..])
  {
    assert s[i..] == [s[i]] + s[i + 1..];
  }

  lemma SameLength<X>(a: seq<X>, b: seq<X>)
    requires multiset(a) == multiset(b)
    ensures |a| == |b|
  {
    assert |multiset(a)| == |a| && |multiset(b)| == |b|;
  }

  /** The state of the pair walk with indices `j..` visited. With `pair` set,
      index `j` is waiting for its partner and untouched; the indices before
      the waiting one are untouched, and after it the list holds one survivor
      per completed pair. */
  ghost predicate Walked<X>(sorted: seq<X>, out: seq<X>, j: nat, pair: bool) {
    var m := if pair then j + 1 else j;
    && m <= |sorted| && m <= |out|
    && (|sorted| - m) % 2 == 0
    && out[..m] == sorted[..m]
    && multiset(out[m..]) == multiset(Uppers(sorted[m..]))
  }

  /** Removing the lower element `j` of a pair keeps the upper one, which
      `swap_remove` may move, and the part after the pair. */
  lemma DropLower<X>(out: seq<X>, j: nat, out': seq<X>)
    requires j + 1 < |out|
    requires out' == SwapRemove(out, j)
    ensures |out'| == |out| - 1
    ensures out'[..j] == out[..j]
    ensures multiset(out'[j..]) == multiset{out[j + 1]} + multiset(out[j + 2..])
  {
    ConsSplit(out, j + 1);
  }

  /** Removing the upper element `j + 1` of a pair keeps element `j` in place
      and the part after the pair. */
  lemma DropUpper<X>(out: seq<X>, j: nat, out': seq<X>)
    requires j + 1 < |out|
    requires out' == SwapRemove(out, j + 1)
    ensures |out'| == |out| - 1
    ensures out'[..j] == out[..j]
    ensures multiset(out'[j..]) == multiset{out[j]} + multiset(out[j + 2..])
  {
    PrefixAt(out', out, j + 1, j);
    ConsSplit(out', j);
  }

  /** Before the pair `(j, j + 1)` is completed, both its elements and
      everything before them are untouched. */
  lemma Waiting<X>(sorted: seq<X>, out: seq<X>, j: nat)
    requires Walked(sorted, out, j + 1, true)
    ensures j + 2 <= |sorted| && j + 2 <= |out| && (|sorted| - j) % 2 == 0
    ensures out[..j] == sorted[..j] && out[j] == sorted[j] && out[j + 1] == sorted[j + 1]
    ensures multiset(out[j + 2..]) == multiset(Uppers(sorted[j + 2..]))
  {
    PrefixAt(out, sorted, j + 2, j);
    PrefixAt(out, sorted, j + 2, j + 1);
  }

  /** A list that keeps the part before the pair and replaces the pair and
      what follows by a copy of the pair's upper element and the survivors
      after it is the walk's state after the pair. */
  lemma Completed<X>(sorted: seq<X>, out': seq<X>, j: nat)
    requires j + 2 <= |sorted| && (|sorted| - j) % 2 == 0 && j <= |out'|
    requires out'[..j] == sorted[..j]
    requires multiset(out'[j..]) == multiset{sorted[j + 1]} + multiset(Uppers(sorted[j + 2..]))
    ensures Walked(sorted, out', j, false)
  {
    UppersPair(sorted, j);
  }

  /** Completing the pair `(j, j + 1)`: one of the two is swap-removed and a
      copy of the upper one stays. */
  lemma PairStep<X>(sorted: seq<X>, out: seq<X>, j: nat, out': seq<X>)
    requires Walked(sorted, out, j + 1, true)
    requires out' == if out[j] == out[j + 1] then SwapRemove(out, j + 1) else SwapRemove(out, j)
    ensures Walked(sorted, out', j, false)
  {
    Waiting(sorted, out, j);
    if out[j] == out[j + 1] {
      DropUpper(out, j, out');
    } else {
      DropLower(out, j, out');
    }
    Completed(sorted, out', j);
  }

  /** The walk over the sorted list, from the end. */
  method PairUp<X(==)>(sorted: seq<X>) returns (out: seq<X>)
    ensures multiset(out) == multiset(Uppers(sorted))
    ensures |out| == (|sorted| + 1) / 2
  {
    out := sorted;
    var pair := false;
    var j: nat := |sorted|;
    WalkStart(sorted);
    while j > 0
      invariant Walked(sorted, out, j, pair)
    {
      j := j - 1;
      var k := j + 1;
      if pair {
        Waiting(sorted, out, j);
        if k >= |out| {
          // the waiting index always has its partner in the list
          assert false;
        } else {
          out := Complete(sorted, out, j);
          pair := false;
        }
      } else {
        Wait(sorted, out, j);
        pair := true;
      }
    }
    WalkDone(sorted, out, pair);
  }

  /** The pair `(j, j + 1)` of the walk: the upper element is removed when the
      two are equal, the lower one otherwise. */
  method Complete<X(==)>(sorted: seq<X>, out0: seq<X>, j: nat) returns (out: seq<X>)
    requires Walked(sorted, out0, j + 1, true)
    ensures Walked(sorted, out, j, false)
  {
    Waiting(sorted, out0, j);
    if out0[j] == out0[j + 1] {
      out := SwapRemove(out0, j + 1);
    } else {
      out := SwapRemove(out0, j);
    }
    PairStep(sorted, out0, j, out);
  }

  lemma Wait<X>(sorted: seq<X>, out: seq<X>, j: nat)
    requires Walked(sorted, out, j + 1, false)
    ensures Walked(sorted, out, j, true)
  {
  }

  lemma WalkStart<X>(sorted: seq<X>)
    ensures Walked(sorted, sorted, |sorted|, false)
  {
    assert sorted[|sorted|..] == [];
  }

  /** At the front of the list the walk has kept the survivors; a waiting
      first element is the unpaired one of an odd-length list. */
  lemma WalkDone<X>(sorted: seq<X>, out: seq<X>, pair: bool)
    requires Walked(sorted, out, 0, pair)
    ensures multiset(out) == multiset(Uppers(sorted))
    ensures |out| == (|sorted| + 1) / 2
  {
    if pair {
      PrefixAt(out, sorted, 1, 0);
      UppersSingle(sorted);
      assert out == [sorted[0]] + out[1..];
      SameHead(out, Uppers(sorted), sorted[0], out[1..], Uppers(sorted[1..]));
    } else {
      assert out[0..] == out && sorted[0..] == sorted;
    }
    SameLength(out, Uppers(sorted));
    UppersLength(sorted);
  }

  lemma SameHead<X>(a: seq<X>, b: seq<X>, x: X, c: seq<X>, d: seq<X>)
    requires a == [x] + c && b == [x] + d
    requires multiset(c) == multiset(d)
    ensures multiset(a) == multiset(b)
  {
  }
}
