/** Products of position maps, and when they give every permutation. */
module SymmetricGroup {
  import opened Sets

  type Map = seq<nat>

  ghost predicate IsMap(f: Map, n: nat) {
    |f| == n && forall i :: 0 <= i < n ==> f[i] < n
  }

  ghost predicate IsPermutation(f: Map, n: nat) {
    IsMap(f, n) && forall i, j :: 0 <= i < j < n ==> f[i] != f[j]
  }

  function Identity(n: nat): (r: Map)
    ensures IsMap(r, n)
  {
    seq(n, i => i)
  }

  /** First `g`, then `f`: applying move `g` to a state `f` gives the state `Compose(f, g)`. */
  function Compose(f: Map, g: Map, n: nat): (r: Map)
    requires IsMap(f, n) && IsMap(g, n)
    ensures IsMap(r, n)
  {
    seq(n, (i: nat) requires i < n => f[g[i]])
  }

  ghost predicate AllMaps(gens: seq<Map>, n: nat) {
    forall k :: 0 <= k < |gens| ==> IsMap(gens[k], n)
  }

  ghost predicate IsWord(gens: seq<Map>, w: seq<nat>) {
    forall k :: 0 <= k < |w| ==> w[k] < |gens|
  }

  /** The product of the generators a word names, no inverses allowed. */
  ghost function Product(gens: seq<Map>, w: seq<nat>, n: nat): (r: Map)
    requires AllMaps(gens, n) && IsWord(gens, w)
    ensures IsMap(r, n)
  {
    if w == [] then Identity(n) else Compose(Product(gens, w[..|w| - 1], n), gens[w[|w| - 1]], n)
  }

  ghost predicate Generated(gens: seq<Map>, n: nat, f: Map)
    requires AllMaps(gens, n)
  {
    exists w :: IsWord(gens, w) && Product(gens, w, n) == f
  }

  lemma ComposeAssociates(f: Map, g: Map, h: Map, n: nat)
    requires IsMap(f, n) && IsMap(g, n) && IsMap(h, n)
    ensures Compose(Compose(f, g, n), h, n) == Compose(f, Compose(g, h, n), n)
    ensures Compose(f, Identity(n), n) == f == Compose(Identity(n), f, n)
  {
  }

  lemma {:induction false} ProductOfWords(gens: seq<Map>, v: seq<nat>, w: seq<nat>, n: nat)
    requires AllMaps(gens, n) && IsWord(gens, v) && IsWord(gens, w)
    ensures IsWord(gens, v + w)
    ensures Product(gens, v + w, n) == Compose(Product(gens, v, n), Product(gens, w, n), n)
    decreases |w|
  {
    if w == [] {
      assert v + w == v;
      ComposeAssociates(Product(gens, v, n), Identity(n), Identity(n), n);
    } else {
      var front, last := w[..|w| - 1], gens[w[|w| - 1]];
      ProductOfWords(gens, v, front, n);
      assert (v + w)[..|v + w| - 1] == v + front;
      ComposeAssociates(Product(gens, v, n), Product(gens, front, n), last, n);
    }
  }

  lemma GeneratedCompose(gens: seq<Map>, n: nat, f: Map, g: Map)
    requires AllMaps(gens, n) && Generated(gens, n, f) && Generated(gens, n, g)
    ensures IsMap(f, n) && IsMap(g, n) && Generated(gens, n, Compose(f, g, n))
  {
    var v :| IsWord(gens, v) && Product(gens, v, n) == f;
    var w :| IsWord(gens, w) && Product(gens, w, n) == g;
    ProductOfWords(gens, v, w, n);
  }

  lemma GeneratedBasics(gens: seq<Map>, n: nat, k: nat)
    requires AllMaps(gens, n) && k < |gens|
    ensures Generated(gens, n, Identity(n)) && Generated(gens, n, gens[k])
  {
    assert Product(gens, [], n) == Identity(n);
    assert [k][..0] == [];
    ComposeAssociates(gens[k], gens[k], gens[k], n);
    assert Product(gens, [k], n) == gens[k];
  }

  // ---- a full cycle ----

  function Iterate(c: Map, x: nat, k: nat): (r: nat)
    requires x < |c| && forall i :: 0 <= i < |c| ==> c[i] < |c|
    ensures r < |c|
  {
    if k == 0 then x else c[Iterate(c, x, k - 1)]
  }

  /** From 0, the map visits every position once and then returns. */
  ghost predicate FullCycle(c: Map, n: nat) {
    && n > 0 && IsMap(c, n) && Iterate(c, 0, n) == 0
    && forall i, j :: 0 <= i < j < n ==> Iterate(c, 0, i) != Iterate(c, 0, j)
  }

  lemma {:induction false} IterateTwice(c: Map, x: nat, j: nat, k: nat)
    requires IsMap(c, |c|) && x < |c|
    ensures Iterate(c, Iterate(c, x, j), k) == Iterate(c, x, j + k)
  {
    if k > 0 {
      IterateTwice(c, x, j, k - 1);
    }
  }

  ghost function Below(n: nat): (s: set<nat>)
    ensures forall i :: i in s <==> 0 <= i < n
  {
    if n == 0 then {} else Below(n - 1) + {n - 1}
  }

  lemma {:induction false} BelowSize(n: nat)
    ensures |Below(n)| == n
  {
    if n > 0 {
      BelowSize(n - 1);
      var smaller := Below(n - 1);
      assert n - 1 !in smaller && |smaller + {n - 1}| == |smaller| + 1;
    }
  }

  /** Distinct positions below `n` number at most `n`, and when they are `n` they are all of them. */
  lemma Pigeonhole(s: seq<nat>, n: nat)
    requires Distinct(s) && forall k :: 0 <= k < |s| ==> s[k] < n
    ensures |s| <= n
    ensures |s| == n ==> Elems(s) == Below(n)
  {
    ElemsSize(s);
    BelowSize(n);
    assert Elems(s) <= Below(n);
    var rest := Below(n) - Elems(s);
    assert Below(n) == Elems(s) + rest;
  }

  lemma CycleVisits(c: Map, n: nat, x: nat) returns (j: nat)
    requires FullCycle(c, n) && x < n
    ensures j < n && Iterate(c, 0, j) == x
  {
    var orbit := seq(n, (k: nat) => Iterate(c, 0, k));
    Pigeonhole(orbit, n);
    assert x in Below(n);
    j :| 0 <= j < |orbit| && orbit[j] == x;
  }

  /** Going around the whole cycle changes nothing; going around all but one step is its inverse. */
  lemma CycleReturns(c: Map, n: nat, x: nat)
    requires FullCycle(c, n) && x < n
    ensures Iterate(c, x, n) == x
  {
    var j := CycleVisits(c, n, x);
    IterateTwice(c, 0, j, n);
    IterateTwice(c, 0, n, j);
  }

  lemma CycleIsPermutation(c: Map, n: nat)
    requires FullCycle(c, n)
    ensures IsPermutation(c, n)
  {
    forall i, j | 0 <= i < j < n ensures c[i] != c[j] {
      CycleReturns(c, n, i);
      CycleReturns(c, n, j);
      IterateTwice(c, i, 1, n - 1);
      IterateTwice(c, j, 1, n - 1);
      assert Iterate(c, i, 1) == c[i] && Iterate(c, j, 1) == c[j];
    }
  }

  ghost function Power(c: Map, n: nat, k: nat): (r: Map)
    requires IsMap(c, n)
    ensures IsMap(r, n)
    ensures forall x :: 0 <= x < n ==> r[x] == Iterate(c, x, k)
  {
    if k == 0 then Identity(n) else Compose(c, Power(c, n, k - 1), n)
  }

  lemma {:induction false} GeneratedPower(gens: seq<Map>, n: nat, c: nat, k: nat)
    requires AllMaps(gens, n) && c < |gens|
    ensures Generated(gens, n, Power(gens[c], n, k))
  {
    GeneratedBasics(gens, n, c);
    if k > 0 {
      GeneratedPower(gens, n, c, k - 1);
      GeneratedCompose(gens, n, gens[c], Power(gens[c], n, k - 1));
    }
  }

  // ---- transpositions ----

  function Swap(n: nat, a: nat, b: nat): (r: Map)
    requires a < n && b < n
    ensures IsMap(r, n)
  {
    seq(n, (i: nat) => if i == a then b else if i == b then a else i)
  }

  /** Conjugating a transposition by the cycle moves both its positions one step along the cycle. */
  lemma ConjugateSwap(c: Map, n: nat, a: nat, b: nat)
    requires FullCycle(c, n) && a < n && b < n
    ensures Compose(c, Compose(Swap(n, a, b), Power(c, n, n - 1), n), n) == Swap(n, c[a], c[b])
  {
    CycleIsPermutation(c, n);
    var back := Power(c, n, n - 1);
    forall x | 0 <= x < n ensures c[back[x]] == x {
      CycleReturns(c, n, x);
    }
  }

  /** The edge the code adds at step `k`. */
  function Edge(c: Map, a: nat, b: nat, k: nat): (nat, nat)
    requires a < |c| && b < |c| && forall i :: 0 <= i < |c| ==> c[i] < |c|
  {
    (Iterate(c, a, k), Iterate(c, b, k))
  }

  /** The edges of the code: the transposed pair, moved along the cycle once per position. */
  function Edges(cycle: Map, a: nat, b: nat, n: nat): seq<(nat, nat)>
    requires IsMap(cycle, n) && a < n && b < n
  {
    seq(n, (k: nat) => Edge(cycle, a, b, k))
  }

  /** Moving a generated transposition one step along the cycle gives a generated one. */
  lemma NextSwapIsGenerated(gens: seq<Map>, n: nat, c: nat, x: nat, y: nat)
    requires AllMaps(gens, n) && c < |gens| && x < n && y < n
    requires FullCycle(gens[c], n) && Generated(gens, n, Swap(n, x, y))
    ensures Generated(gens, n, Swap(n, gens[c][x], gens[c][y]))
  {
    var swap, back := Swap(n, x, y), Power(gens[c], n, n - 1);
    GeneratedBasics(gens, n, c);
    GeneratedPower(gens, n, c, n - 1);
    GeneratedCompose(gens, n, swap, back);
    GeneratedCompose(gens, n, gens[c], Compose(swap, back, n));
    ConjugateSwap(gens[c], n, x, y);
  }

  lemma {:induction false} EdgeIsGenerated(gens: seq<Map>, n: nat, c: nat, t: nat, a: nat, b: nat, k: nat)
    requires AllMaps(gens, n) && c < |gens| && t < |gens| && a < n && b < n
    requires FullCycle(gens[c], n) && gens[t] == Swap(n, a, b)
    ensures var e := Edge(gens[c], a, b, k); Generated(gens, n, Swap(n, e.0, e.1))
  {
    if k == 0 {
      GeneratedBasics(gens, n, t);
    } else {
      EdgeIsGenerated(gens, n, c, t, a, b, k - 1);
      var e := Edge(gens[c], a, b, k - 1);
      NextSwapIsGenerated(gens, n, c, e.0, e.1);
    }
  }

  // ---- connectedness ----

  /** No edge leaves the set. */
  ghost predicate Closed(edges: seq<(nat, nat)>, S: set<nat>) {
    forall k :: 0 <= k < |edges| ==> (edges[k].0 in S <==> edges[k].1 in S)
  }

  /** Every position can be reached from 0 along the edges. */
  ghost predicate Connected(edges: seq<(nat, nat)>, n: nat) {
    forall S: set<nat> :: 0 in S && Closed(edges, S) ==> Below(n) <= S
  }

  lemma SwapProduct(n: nat, x: nat, u: nat, v: nat)
    requires x < n && u < n && v < n && x != u && x != v && u != v
    ensures Compose(Swap(n, x, u), Compose(Swap(n, u, v), Swap(n, x, u), n), n) == Swap(n, x, v)
    ensures Compose(Swap(n, x, u), Compose(Swap(n, x, v), Swap(n, x, u), n), n) == Swap(n, u, v)
  {
  }

  ghost predicate SwapsWithRoot(gens: seq<Map>, n: nat, x: nat)
    requires AllMaps(gens, n) && n > 0
  {
    x == 0 || (x < n && Generated(gens, n, Swap(n, 0, x)))
  }

  lemma SwapSymmetric(n: nat, a: nat, b: nat)
    requires a < n && b < n
    ensures Swap(n, a, b) == Swap(n, b, a)
  {
  }

  lemma RootSwapExtends(gens: seq<Map>, n: nat, u: nat, v: nat)
    requires AllMaps(gens, n) && n > 0 && u < n && v < n && SwapsWithRoot(gens, n, u)
    requires Generated(gens, n, Swap(n, u, v))
    ensures SwapsWithRoot(gens, n, v)
  {
    if u != 0 && v != 0 && u != v {
      GeneratedCompose(gens, n, Swap(n, u, v), Swap(n, 0, u));
      GeneratedCompose(gens, n, Swap(n, 0, u), Compose(Swap(n, u, v), Swap(n, 0, u), n));
      SwapProduct(n, 0, u, v);
    }
  }

  /** When the generated edge transpositions connect all positions, every transposition is generated. */
  lemma ConnectedGivesSwaps(gens: seq<Map>, n: nat, edges: seq<(nat, nat)>, i: nat, j: nat)
    requires AllMaps(gens, n) && n > 0 && Connected(edges, n) && i < n && j < n && i != j
    requires forall k :: 0 <= k < |edges| ==>
               edges[k].0 < n && edges[k].1 < n && Generated(gens, n, Swap(n, edges[k].0, edges[k].1))
    ensures Generated(gens, n, Swap(n, i, j))
  {
    var S := set x: nat | x < n && SwapsWithRoot(gens, n, x);
    forall k | 0 <= k < |edges| ensures edges[k].0 in S <==> edges[k].1 in S {
      var u, v := edges[k].0, edges[k].1;
      SwapSymmetric(n, u, v);
      if u in S {
        RootSwapExtends(gens, n, u, v);
      }
      if v in S {
        RootSwapExtends(gens, n, v, u);
      }
    }
    assert Closed(edges, S);
    assert i in Below(n) && j in Below(n);
    if i == 0 {
    } else if j == 0 {
      SwapSymmetric(n, i, j);
    } else {
      GeneratedCompose(gens, n, Swap(n, 0, j), Swap(n, 0, i));
      GeneratedCompose(gens, n, Swap(n, 0, i), Compose(Swap(n, 0, j), Swap(n, 0, i), n));
      SwapProduct(n, 0, i, j);
    }
  }

  // ---- every permutation ----

  lemma UndoLast(f: Map, n: nat, m: nat)
    requires IsPermutation(f, n) && 0 < m <= n && f[m - 1] != m - 1
    requires forall i :: m <= i < n ==> f[i] == i
    ensures f[m - 1] < m - 1
    ensures var t := Swap(n, f[m - 1], m - 1); var g := Compose(t, f, n);
            && IsPermutation(g, n) && (forall i :: m - 1 <= i < n ==> g[i] == i) && Compose(t, g, n) == f
  {
    var image := f[f[m - 1]];  // were f[m - 1] a fixed point above m, it would be hit twice
    var t := Swap(n, f[m - 1], m - 1);
    assert forall i :: 0 <= i < n ==> t[t[i]] == i;
    var g := Compose(t, f, n);
    forall i, j | 0 <= i < j < n ensures g[i] != g[j] {
      assert t[g[i]] == f[i] && t[g[j]] == f[j];
    }
  }

  /** When every transposition is generated, so is every permutation: fix the last position, then the rest. */
  lemma {:induction false} SwapsGenerateAll(gens: seq<Map>, n: nat, f: Map, m: nat)
    requires AllMaps(gens, n) && gens != [] && IsPermutation(f, n) && m <= n
    requires forall i :: m <= i < n ==> f[i] == i
    requires forall i, j :: 0 <= i < n && 0 <= j < n && i != j ==> Generated(gens, n, Swap(n, i, j))
    ensures Generated(gens, n, f)
    decreases m
  {
    if m == 0 {
      GeneratedBasics(gens, n, 0);
      assert f == Identity(n);
    } else if f[m - 1] == m - 1 {
      SwapsGenerateAll(gens, n, f, m - 1);
    } else {
      UndoLast(f, n, m);
      var t := Swap(n, f[m - 1], m - 1);
      SwapsGenerateAll(gens, n, Compose(t, f, n), m - 1);
      GeneratedCompose(gens, n, t, Compose(t, f, n));
    }
  }
}
