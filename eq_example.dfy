/** The helpers and closures of examples/eq.rs, which drive `gen` to list the
    solutions of `x0 + x1 + ... + x(n-2) = x(n-1)`. A node is an equation:
    for each term, the side it stands on (`true` for the right side) and its
    sign. An edge label lists the terms that were moved. */
module EqExample {
  import opened Graphs
  import opened Sorting

  /** An equation: term `i` is on the right side when `side[i]` holds, and
      positive when `positive[i]` holds. */
  datatype Eq = Eq(side: seq<bool>, positive: seq<bool>)

  /** The terms moved along an edge. */
  datatype Swap = Swap(terms: seq<nat>)

  /** The indices of the terms on the right side. */
  ghost function TrueIndices(side: seq<bool>): set<nat> {
    set i | 0 <= i < |side| && side[i]
  }

  /** The number of `true` entries, counted as `iter().filter().count()` does. */
  function CountTrue(side: seq<bool>): (r: nat)
    ensures r == |TrueIndices(side)|
    decreases |side|
  {
    if side == [] then 0
    else
      var rest := side[..|side| - 1];
      var c := CountTrue(rest);
      TrueIndicesLast(side);
      c + (if side[|side| - 1] then 1 else 0)
  }

  lemma TrueIndicesLast(side: seq<bool>)
    requires side != []
    ensures TrueIndices(side) ==
            TrueIndices(side[..|side| - 1]) + (if side[|side| - 1] then {|side| - 1} else {})
    ensures |side| - 1 !in TrueIndices(side[..|side| - 1])
  {
    var rest := side[..|side| - 1];
    forall i | i in TrueIndices(side) && i < |side| - 1 ensures i in TrueIndices(rest) {
      assert rest[i] == side[i];
    }
  }

  /** `Eq::len_right`: the number of terms on the right side. */
  function LenRight(e: Eq): (r: nat)
    ensures r == |TrueIndices(e.side)|
  {
    CountTrue(e.side)
  }

  /** `Eq::unique_right`: the index of the only term on the right side, or
      `None` when there are none or several. */
  method UniqueRight(e: Eq) returns (r: Option<nat>)
    ensures r.Some? <==> |TrueIndices(e.side)| == 1
    ensures r.Some? ==> TrueIndices(e.side) == {r.value}
  {
    var found: Option<nat> := None;
    for i := 0 to |e.side|
      invariant found.None? ==> TrueIndices(e.side[..i]) == {}
      invariant found.Some? ==> TrueIndices(e.side[..i]) == {found.value}
    {
      PrefixIndices(e.side, i);
      if e.side[i] {
        if found.Some? {
          assert {found.value, i} <= TrueIndices(e.side);
          assert |{found.value, i}| == 2;
          CardMono({found.value, i}, TrueIndices(e.side));
          return None;
        }
        found := Some(i);
      }
    }
    assert e.side[..|e.side|] == e.side;
    return found;
  }

  lemma PrefixIndices(side: seq<bool>, i: nat)
    requires i < |side|
    ensures TrueIndices(side[..i + 1]) == TrueIndices(side[..i]) + (if side[i] then {i} else {})
    ensures TrueIndices(side[..i]) <= TrueIndices(side)
  {
    assert forall q | 0 <= q < i :: side[..i + 1][q] == side[..i][q] == side[q];
  }

  lemma CardMono(a: set<nat>, b: set<nat>)
    requires a <= b
    ensures |a| <= |b|
  {
    assert b == a + (b - a);
  }

  /** `Eq::signs`: the strings printed for a positive and a negative term.
      They are swapped exactly when a single term is on the right side and it
      is negative, so that the right side reads positive. */
  method Signs(e: Eq) returns (r: (string, string))
    requires forall i | i in TrueIndices(e.side) :: |TrueIndices(e.side)| == 1 ==> i < |e.positive|
    ensures var right := TrueIndices(e.side);
            r == if |right| == 1 && (forall i | i in right :: !e.positive[i]) then ("-", "+") else ("+", "-")
  {
    var u := UniqueRight(e);
    if u.Some? {
      var ind := u.value;
      assert ind in TrueIndices(e.side);
      if e.positive[ind] {
        r := ("+", "-");
      } else {
        r := ("-", "+");
        forall i | i in TrueIndices(e.side) ensures !e.positive[i] {
          assert i == ind;
        }
      }
    } else {
      r := ("+", "-");
    }
  }

  /** The closure `f`: move term `ind` to the other side and flip its sign;
      the label records the moved term. */
  function F(e: Eq, ind: nat): (r: Result<(Eq, Swap), ()>)
    requires ind < |e.side| && ind < |e.positive|
    ensures r.Ok?
    ensures var e' := r.value.0;
            && |e'.side| == |e.side| && |e'.positive| == |e.positive|
            && e'.side[ind] == !e.side[ind] && e'.positive[ind] == !e.positive[ind]
            && (forall i | 0 <= i < |e.side| && i != ind :: e'.side[i] == e.side[i])
            && (forall i | 0 <= i < |e.positive| && i != ind :: e'.positive[i] == e.positive[i])
    ensures r.value.1 == Swap([ind])
  {
    Ok((Eq(e.side[ind := !e.side[ind]], e.positive[ind := !e.positive[ind]]), Swap([ind])))
  }

  /** Moving the same term twice gives back the equation. */
  lemma FInvolution(e: Eq, ind: nat)
    requires ind < |e.side| && ind < |e.positive|
    ensures F(F(e, ind).value.0, ind).value.0 == e
  {
    var e2 := F(F(e, ind).value.0, ind).value.0;
    assert e2.side == e.side;
    assert e2.positive == e.positive;
  }

  /** Moving one term changes the number of right-side terms by exactly one. */
  lemma FMovesOne(e: Eq, ind: nat)
    requires ind < |e.side| && ind < |e.positive|
    ensures var e' := F(e, ind).value.0;
            LenRight(e') == if e.side[ind] then LenRight(e) - 1 else LenRight(e) + 1
  {
    var e' := F(e, ind).value.0;
    if e.side[ind] {
      assert TrueIndices(e.side) == TrueIndices(e'.side) + {ind};
    } else {
      assert TrueIndices(e'.side) == TrueIndices(e.side) + {ind};
    }
  }

  /** The closure `g` for a target number of right-side terms. */
  function G(solutionTerms: nat, e: Eq): (r: bool)
    ensures r <==> |TrueIndices(e.side)| == solutionTerms
  {
    LenRight(e) == solutionTerms
  }

  /** A single move leaves the filter: the neighbours of a solution are not
      solutions, so every edge between two solutions is a composition. */
  lemma FLeavesFilter(solutionTerms: nat, e: Eq, ind: nat)
    requires ind < |e.side| && ind < |e.positive|
    requires G(solutionTerms, e)
    ensures !G(solutionTerms, F(e, ind).value.0)
  {
    FMovesOne(e, ind);
  }

  /** The lexicographic order of `Vec<usize>`: a proper prefix comes first. */
  predicate LexLe(a: seq<nat>, b: seq<nat>)
    decreases |a|
  {
    a == [] || (b != [] && (a[0] < b[0] || (a[0] == b[0] && LexLe(a[1..], b[1..]))))
  }

  lemma {:induction false} LexLeTotal(a: seq<nat>, b: seq<nat>)
    ensures LexLe(a, b) || LexLe(b, a)
    decreases |a|
  {
    if a != [] && b != [] && a[0] == b[0] {
      LexLeTotal(a[1..], b[1..]);
    }
  }

  lemma {:induction false} LexLeAntisymmetric(a: seq<nat>, b: seq<nat>)
    requires LexLe(a, b) && LexLe(b, a)
    ensures a == b
    decreases |a|
  {
    if a != [] {
      LexLeAntisymmetric(a[1..], b[1..]);
      assert a == [a[0]] + a[1..] && b == [b[0]] + b[1..];
    }
  }

  predicate NatLe(x: nat, y: nat) {
    x <= y
  }

  function Id(x: nat): nat {
    x
  }

  /** The closure `h`: two moves are joined only in increasing order of
      their labels, so that each set of moves is built once; the joined label
      lists the moved terms in ascending order. A rejection is silent. */
  function H(a: Swap, b: Swap): (r: Result<Swap, Option<()>>)
    ensures r.Err? <==> LexLe(b.terms, a.terms)
    ensures r.Err? ==> r.error == None
    ensures r.Ok? ==> SortedBy(r.value.terms, Id, NatLe)
    ensures r.Ok? ==> multiset(r.value.terms) == multiset(a.terms + b.terms)
  {
    if LexLe(b.terms, a.terms) then Err(None)
    else
      assert TotalPreorder(NatLe);
      Ok(Swap(SortBy(a.terms + b.terms, Id, NatLe)))
  }

  /** Of two different labels, exactly one order is joined. */
  lemma HOneOrder(a: Swap, b: Swap)
    requires a != b
    ensures H(a, b).Ok? != H(b, a).Ok?
  {
    LexLeTotal(a.terms, b.terms);
    if LexLe(a.terms, b.terms) && LexLe(b.terms, a.terms) {
      LexLeAntisymmetric(a.terms, b.terms);
    }
  }

  /** The seed equation `start`: all `n` terms positive; with a single
      solution term and `n > 0` the last term on the left side and the others
      on the right, and otherwise all terms on the right. */
  function Start(n: nat, solutionTerms: nat): (r: Eq)
    ensures |r.side| == n && |r.positive| == n
    ensures forall i | 0 <= i < n :: r.positive[i]
    ensures forall i | 0 <= i < n :: r.side[i] == !(solutionTerms == 1 && i == n - 1)
  {
    var side := if solutionTerms == 1 && n > 0 then seq(n - 1, _ => true) + [false] else seq(n, _ => true);
    Eq(side, seq(n, _ => true))
  }

  /** The seed has `n - 1` right-side terms in the single-solution case, and
      `n` otherwise. */
  lemma StartRight(n: nat, solutionTerms: nat)
    ensures LenRight(Start(n, solutionTerms)) == if solutionTerms == 1 && n > 0 then n - 1 else n
  {
    if solutionTerms == 1 && n > 0 {
      var ones := seq(n - 1, _ => true);
      AllTrue(n - 1);
      assert (ones + [false])[..n - 1] == ones;
    } else {
      AllTrue(n);
    }
  }

  lemma {:induction false} AllTrue(m: nat)
    ensures CountTrue(seq(m, _ => true)) == m
    decreases m
  {
    if m > 0 {
      AllTrue(m - 1);
      assert seq(m, _ => true)[..m - 1] == seq(m - 1, _ => true);
    }
  }
}
