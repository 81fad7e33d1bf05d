/** The certificate that a puzzle's moves reach every arrangement
    (integrations/cayleypy_native/multigpubeamsearch/calibration_frontier.py). */
module OrbitCertificate {
  import opened CycleSpacing
  import opened FactorialRanks
  import opened Sets
  import opened SymmetricGroup
  import opened Wrappers

  datatype Certificate = Certificate(cycle: Map, transposition: Map, edges: seq<(nat, nat)>)

  /** A cycle and a transposition whose conjugates connect all positions. */
  ghost predicate Certifies(cycle: Map, swap: Map, n: nat, edges: seq<(nat, nat)>) {
    && FullCycle(cycle, n)
    && exists a, b :: 0 <= a < b < n && swap == Swap(n, a, b) && edges == Edges(cycle, a, b, n) && Connected(edges, n)
  }

  /** Whenever the certificate holds, every permutation of the positions is a finite product of the
      generators themselves; inverses are not assumed. */
  lemma CertificateIsSound(gens: seq<Map>, n: nat, c: nat, t: nat, edges: seq<(nat, nat)>, f: Map)
    requires AllMaps(gens, n) && c < |gens| && t < |gens| && Certifies(gens[c], gens[t], n, edges)
    requires IsPermutation(f, n)
    ensures Generated(gens, n, f)
  {
    var a, b :| 0 <= a < b < n && gens[t] == Swap(n, a, b) && edges == Edges(gens[c], a, b, n) && Connected(edges, n);
    forall k | 0 <= k < |edges| ensures Generated(gens, n, Swap(n, edges[k].0, edges[k].1)) {
      EdgeIsGenerated(gens, n, c, t, a, b, k);
    }
    forall i, j | 0 <= i < n && 0 <= j < n && i != j ensures Generated(gens, n, Swap(n, i, j)) {
      ConnectedGivesSwaps(gens, n, edges, i, j);
    }
    SwapsGenerateAll(gens, n, f, n);
  }

  /** The walk from 0 so far: no position twice, and `p` is next. */
  ghost predicate Walk(cycle: Map, n: nat, orbit: seq<nat>, p: nat)
    requires IsMap(cycle, n) && n > 0
  {
    && Distinct(orbit) && |orbit| <= n && p < n && p == Iterate(cycle, 0, |orbit|)
    && forall k :: 0 <= k < |orbit| ==> orbit[k] == Iterate(cycle, 0, k) && orbit[k] < n
  }

  lemma WalkStep(cycle: Map, n: nat, orbit: seq<nat>, p: nat)
    requires IsMap(cycle, n) && n > 0 && Walk(cycle, n, orbit, p) && p !in orbit
    ensures |orbit| < n && Walk(cycle, n, orbit + [p], cycle[p])
  {
    Pigeonhole(orbit + [p], n);
  }

  method IsFullCycle(cycle: Map, n: nat) returns (full: bool)
    requires IsMap(cycle, n) && n > 0
    ensures full <==> FullCycle(cycle, n)
  {
    var orbit: seq<nat>, p: nat := [], 0;
    while p !in orbit
      invariant Walk(cycle, n, orbit, p)
      decreases n - |orbit|
    {
      WalkStep(cycle, n, orbit, p);
      orbit, p := orbit + [p], cycle[p];
    }
    full := p == 0 && |orbit| == n;
    OrbitEnds(cycle, n, orbit, p);
  }

  /** The first repeated position tells whether the walk from 0 is a full cycle. */
  lemma OrbitEnds(cycle: Map, n: nat, orbit: seq<nat>, p: nat)
    requires IsMap(cycle, n) && n > 0 && Walk(cycle, n, orbit, p) && p in orbit
    ensures FullCycle(cycle, n) <==> p == 0 && |orbit| == n
  {
    var k :| 0 <= k < |orbit| && orbit[k] == p;
    if p == 0 && |orbit| == n {
      assert forall i, j :: 0 <= i < j < n ==> orbit[i] != orbit[j];
    }
  }

  /** The two moved positions when the map exchanges them and fixes all others. */
  method FindTransposition(swap: Map, n: nat) returns (r: Option<(nat, nat)>)
    requires IsMap(swap, n)
    ensures r.Some? ==> r.value.0 < r.value.1 < n && swap == Swap(n, r.value.0, r.value.1)
    ensures r.None? ==> forall a, b :: 0 <= a < b < n ==> swap != Swap(n, a, b)
  {
    var changed: seq<nat> := [];
    for i := 0 to n
      invariant forall k :: 0 <= k < |changed| ==> changed[k] < i && swap[changed[k]] != changed[k]
      invariant forall j, k :: 0 <= j < k < |changed| ==> changed[j] < changed[k]
      invariant forall p :: 0 <= p < i && swap[p] != p ==> p in changed
    {
      if swap[i] != i {
        changed := changed + [i];
      }
    }
    if |changed| == 2 && swap[changed[0]] == changed[1] && swap[changed[1]] == changed[0] {
      assert forall p :: 0 <= p < n && p != changed[0] && p != changed[1] ==> swap[p] == p;
      assert swap == Swap(n, changed[0], changed[1]);
      return Some((changed[0], changed[1]));
    }
    forall a, b | 0 <= a < b < n ensures swap != Swap(n, a, b) {
      if swap == Swap(n, a, b) {
        TwoChanged(changed, a, b);
      }
    }
    return None;
  }

  lemma TwoChanged(changed: seq<nat>, a: nat, b: nat)
    requires a < b && a in changed && b in changed
    requires forall k :: 0 <= k < |changed| ==> changed[k] == a || changed[k] == b
    requires forall j, k :: 0 <= j < k < |changed| ==> changed[j] < changed[k]
    ensures changed == [a, b]
  {
    ElemsSize(changed);
    assert Elems(changed) == {a, b} by {
      assert a in Elems(changed) && b in Elems(changed);
    }
    assert |changed| == 2;
  }

  ghost predicate Linked(edges: seq<(nat, nat)>, u: nat, v: nat) {
    exists k :: 0 <= k < |edges| && (edges[k] == (u, v) || edges[k] == (v, u))
  }

  /** The neighbour sets hold exactly the links seen so far. */
  ghost predicate Adjacency(edges: seq<(nat, nat)>, adj: seq<set<nat>>) {
    forall u, v :: 0 <= u < |adj| ==> (v in adj[u] <==> v >= 0 && Linked(edges, u, v))
  }

  lemma AddEdge(edges: seq<(nat, nat)>, adj: seq<set<nat>>, a: nat, b: nat)
    requires Adjacency(edges, adj) && a < |adj| && b < |adj|
    ensures var first := adj[a := adj[a] + {b}];
            Adjacency(edges + [(a, b)], first[b := first[b] + {a}])
  {
    var longer := edges + [(a, b)];
    forall u: nat, v: nat
      ensures Linked(longer, u, v) <==> Linked(edges, u, v) || (u, v) == (a, b) || (u, v) == (b, a) {
      if Linked(edges, u, v) {
        var k :| 0 <= k < |edges| && (edges[k] == (u, v) || edges[k] == (v, u));
        assert longer[k] == edges[k];
      }
      assert longer[|edges|] == (a, b);
    }
  }

  method BuildEdges(cycle: Map, a0: nat, b0: nat, n: nat) returns (edges: seq<(nat, nat)>, adj: seq<set<nat>>)
    requires IsMap(cycle, n) && a0 < n && b0 < n
    ensures edges == Edges(cycle, a0, b0, n) && |adj| == n && Adjacency(edges, adj)
  {
    var a, b := a0, b0;
    edges, adj := [], seq(n, _ => {});
    for k := 0 to n
      invariant |edges| == k && edges == Edges(cycle, a0, b0, n)[..k] && |adj| == n && Adjacency(edges, adj)
      invariant a < n && b < n && (a, b) == Edge(cycle, a0, b0, k)
    {
      AddEdge(edges, adj, a, b);
      adj := adj[a := adj[a] + {b}];
      adj := adj[b := adj[b] + {a}];
      edges := edges + [(a, b)];
      a, b := cycle[a], cycle[b];
    }
  }

  /** Every neighbour not reached yet is marked and queued, in any order. */
  method Visit(neighbours: set<nat>, reached: set<nat>, pending: seq<nat>)
    returns (reached': set<nat>, pending': seq<nat>)
    ensures reached' == reached + neighbours
    ensures forall v :: v in pending' <==> v in pending || v in neighbours - reached
    ensures neighbours <= reached ==> pending' == pending
  {
    reached', pending' := reached, pending;
    var todo := neighbours - reached;
    while todo != {}
      invariant todo <= neighbours - reached && reached' == reached + (neighbours - todo)
      invariant forall v :: v in pending' <==> v in pending || v in neighbours - reached - todo
      invariant neighbours <= reached ==> pending' == pending
      decreases todo
    {
      var v :| v in todo;
      reached' := reached' + {v};
      pending' := pending' + [v];
      todo := todo - {v};
    }
  }

  /** The search so far: everything reached is forced by the edges, and every reached position not
      waiting any more has had its neighbours reached. */
  ghost predicate Search(edges: seq<(nat, nat)>, adj: seq<set<nat>>, n: nat, reached: set<nat>, pending: seq<nat>)
    requires |adj| == n
  {
    && 0 in reached && reached <= Below(n)
    && (forall k :: 0 <= k < |pending| ==> pending[k] in reached)
    && (forall u :: u in reached && u !in pending ==> adj[u] <= reached)
    && (forall S: set<nat> :: 0 in S && Closed(edges, S) ==> reached <= S)
  }

  ghost predicate Graph(edges: seq<(nat, nat)>, adj: seq<set<nat>>, n: nat) {
    && n > 0 && |adj| == n && Adjacency(edges, adj)
    && forall k :: 0 <= k < |edges| ==> edges[k].0 < n && edges[k].1 < n
  }

  lemma SearchStep(edges: seq<(nat, nat)>, adj: seq<set<nat>>, n: nat, reached: set<nat>, pending: seq<nat>, node: nat,
                   more: seq<nat>)
    requires Graph(edges, adj, n) && Search(edges, adj, n, reached, pending + [node])
    requires node < n && forall v :: v in more <==> v in pending || v in adj[node] - reached
    ensures Search(edges, adj, n, reached + adj[node], more)
  {
    var waiting := pending + [node];
    assert waiting[|pending|] == node;
    assert forall v :: v in waiting <==> v in pending || v == node;
    assert forall v :: v in pending ==> v in reached by {
      assert forall k :: 0 <= k < |pending| ==> waiting[k] == pending[k];
    }
    NeighboursInside(edges, adj, n, reached, node);
    var wider := reached + adj[node];
    forall u | u in wider && u !in more ensures adj[u] <= wider {
      assert u in reached;
    }
  }

  /** Depth-first reachability from 0: all positions are reached exactly when the edges connect them. */
  method ReachesAll(edges: seq<(nat, nat)>, adj: seq<set<nat>>, n: nat) returns (all: bool)
    requires Graph(edges, adj, n)
    ensures all <==> Connected(edges, n)
  {
    var reached: set<nat>, pending: seq<nat> := {0}, [0];
    while pending != []
      invariant Search(edges, adj, n, reached, pending)
      decreases Below(n) - reached, |pending|
    {
      var node, rest := pending[|pending| - 1], pending[..|pending| - 1];
      assert pending == rest + [node];
      ghost var was := reached;
      reached, pending := Visit(adj[node], reached, rest);
      SearchStep(edges, adj, n, was, rest, node, pending);
      assert adj[node] <= was || Below(n) - reached < Below(n) - was;
    }
    all := |reached| == n;
    SearchEnds(edges, adj, n, reached);
  }

  lemma SearchEnds(edges: seq<(nat, nat)>, adj: seq<set<nat>>, n: nat, reached: set<nat>)
    requires Graph(edges, adj, n) && Search(edges, adj, n, reached, [])
    ensures |reached| == n <==> Connected(edges, n)
  {
    ReachedIsClosed(edges, adj, n, reached);
    BelowSize(n);
    var rest := Below(n) - reached;
    assert Below(n) == reached + rest && |Below(n)| == |reached| + |rest|;
  }

  /** Neighbours of a reached node are inside the graph and inside every closed set that contains 0. */
  lemma NeighboursInside(edges: seq<(nat, nat)>, adj: seq<set<nat>>, n: nat, reached: set<nat>, node: nat)
    requires |adj| == n && Adjacency(edges, adj) && node in reached && reached <= Below(n)
    requires forall k :: 0 <= k < |edges| ==> edges[k].0 < n && edges[k].1 < n
    requires forall S: set<nat> :: 0 in S && Closed(edges, S) ==> reached <= S
    ensures adj[node] <= Below(n)
    ensures forall S: set<nat> :: 0 in S && Closed(edges, S) ==> adj[node] <= S
  {
    forall v | v in adj[node] ensures v in Below(n) {
      assert Linked(edges, node, v);
    }
    forall S: set<nat> | 0 in S && Closed(edges, S) ensures adj[node] <= S {
      forall v | v in adj[node] ensures v in S {
        assert Linked(edges, node, v);
      }
    }
  }

  lemma ReachedIsClosed(edges: seq<(nat, nat)>, adj: seq<set<nat>>, n: nat, reached: set<nat>)
    requires |adj| == n && Adjacency(edges, adj) && reached <= Below(n)
    requires forall k :: 0 <= k < |edges| ==> edges[k].0 < n && edges[k].1 < n
    requires forall u :: u in reached ==> adj[u] <= reached
    ensures Closed(edges, reached)
  {
    forall k | 0 <= k < |edges| ensures edges[k].0 in reached <==> edges[k].1 in reached {
      assert Linked(edges, edges[k].0, edges[k].1) && Linked(edges, edges[k].1, edges[k].0);
    }
  }

  /** One generator is a full cycle and the other exchanges two positions whose distance along the cycle is
      coprime to the number of positions. */
  ghost predicate Suits(cycle: Map, swap: Map, n: nat)
    requires n > 0 && IsMap(cycle, n) && IsMap(swap, n)
  {
    && FullCycle(cycle, n)
    && exists a: nat, d: nat :: a < n && Exchanges(swap, n, a, Iterate(cycle, a, d)) && Gcd(d, n) == 1
  }

  ghost predicate Exchanges(swap: Map, n: nat, a: nat, b: nat)
    requires IsMap(swap, n)
  {
    && a < n && b < n && a != b && swap[a] == b && swap[b] == a
    && forall x :: 0 <= x < n && x != a && x != b ==> swap[x] == x
  }

  /** A certificate exists for exactly the suitable pairs. */
  lemma CertifiesExactly(cycle: Map, swap: Map, n: nat)
    requires n > 0 && IsMap(cycle, n) && IsMap(swap, n)
    ensures Suits(cycle, swap, n) <==> exists edges :: Certifies(cycle, swap, n, edges)
  {
    if Suits(cycle, swap, n) {
      var a: nat, d: nat :| a < n && Exchanges(swap, n, a, Iterate(cycle, a, d)) && Gcd(d, n) == 1;
      SuitableIsCertified(cycle, swap, n, a, d);
    }
    if edges :| Certifies(cycle, swap, n, edges) {
      var a, b :| 0 <= a < b < n && swap == Swap(n, a, b) && edges == Edges(cycle, a, b, n) && Connected(edges, n);
      var d := WalkTo(cycle, n, a, b);
      SpacingConnects(cycle, n, a, d);
      assert Exchanges(swap, n, a, Iterate(cycle, a, d));
    }
  }

  lemma SuitableIsCertified(cycle: Map, swap: Map, n: nat, a: nat, d: nat)
    requires n > 0 && IsMap(cycle, n) && IsMap(swap, n) && FullCycle(cycle, n) && a < n
    requires Exchanges(swap, n, a, Iterate(cycle, a, d)) && Gcd(d, n) == 1
    ensures exists edges :: Certifies(cycle, swap, n, edges)
  {
    var b := Iterate(cycle, a, d);
    SpacingConnects(cycle, n, a, d);
    if a < b {
      assert swap == Swap(n, a, b);
      assert Certifies(cycle, swap, n, Edges(cycle, a, b, n));
    } else {
      assert swap == Swap(n, b, a);
      TurnedEdges(cycle, a, b, n);
      assert Certifies(cycle, swap, n, Edges(cycle, b, a, n));
    }
  }

  lemma TurnedEdges(cycle: Map, a: nat, b: nat, n: nat)
    requires IsMap(cycle, n) && a < n && b < n && Connected(Edges(cycle, a, b, n), n)
    ensures Connected(Edges(cycle, b, a, n), n)
  {
    forall S: set<nat> | 0 in S && Closed(Edges(cycle, b, a, n), S) ensures Below(n) <= S {
      forall k | 0 <= k < n
        ensures Edges(cycle, a, b, n)[k].0 in S <==> Edges(cycle, a, b, n)[k].1 in S
      {
        assert Edges(cycle, b, a, n)[k].0 in S <==> Edges(cycle, b, a, n)[k].1 in S;
      }
      assert Closed(Edges(cycle, a, b, n), S);
    }
  }

  /** The edge list in full: the exchanged pair, then its images step by step along the cycle. */
  ghost predicate EdgesInFull(c: Certificate, n: nat) {
    && n > 0 && IsMap(c.cycle, n) && IsMap(c.transposition, n) && |c.edges| == n
    && c.edges[0].0 < c.edges[0].1 < n && Exchanges(c.transposition, n, c.edges[0].0, c.edges[0].1)
    && forall k :: 0 <= k < n - 1 ==>
         && c.edges[k].0 < n && c.edges[k].1 < n
         && c.edges[k + 1] == (c.cycle[c.edges[k].0], c.cycle[c.edges[k].1])
  }

  lemma CertifiedEdges(c: Certificate, n: nat)
    requires Certifies(c.cycle, c.transposition, n, c.edges)
    ensures EdgesInFull(c, n)
  {
    var a, b :|
      0 <= a < b < n && c.transposition == Swap(n, a, b) && c.edges == Edges(c.cycle, a, b, n) && Connected(c.edges, n);
    assert c.edges[0] == (a, b);
    forall k | 0 <= k < n - 1 ensures c.edges[k + 1] == (c.cycle[c.edges[k].0], c.cycle[c.edges[k].1]) {
      assert c.edges[k] == (Iterate(c.cycle, a, k), Iterate(c.cycle, b, k));
    }
  }

  /** Finds a certificate exactly when some pair of generators suits. */
  method SymmetricOrbitCertificate(gens: seq<Map>, n: nat) returns (r: Option<Certificate>)
    requires n > 0 && AllMaps(gens, n)
    ensures r.Some? <==> exists c, t :: 0 <= c < |gens| && 0 <= t < |gens| && Suits(gens[c], gens[t], n)
    ensures r.Some? ==> r.value.cycle in gens && r.value.transposition in gens && EdgesInFull(r.value, n)
    ensures r.Some? ==> FullCycle(r.value.cycle, n)
    ensures r.Some? ==> forall f :: IsPermutation(f, n) ==> Generated(gens, n, f)
  {
    r := SearchPairs(gens, n);
    forall c, t | 0 <= c < |gens| && 0 <= t < |gens|
      ensures Suits(gens[c], gens[t], n) <==> exists edges :: Certifies(gens[c], gens[t], n, edges)
    {
      CertifiesExactly(gens[c], gens[t], n);
    }
    if r.Some? {
      CertifiedEdges(r.value, n);
    }
  }

  /** Searches all pairs of generators; finds a certificate exactly when some pair has one. */
  method SearchPairs(gens: seq<Map>, n: nat) returns (r: Option<Certificate>)
    requires n > 0 && AllMaps(gens, n)
    ensures r.Some? ==> exists c, t :: 0 <= c < |gens| && 0 <= t < |gens| && gens[c] == r.value.cycle
                          && gens[t] == r.value.transposition && Certifies(gens[c], gens[t], n, r.value.edges)
    ensures r.None? ==>
              forall c, t, edges :: 0 <= c < |gens| && 0 <= t < |gens| ==> !Certifies(gens[c], gens[t], n, edges)
    ensures r.Some? ==> forall f :: IsPermutation(f, n) ==> Generated(gens, n, f)
  {
    for c := 0 to |gens|
      invariant forall i, t, edges :: 0 <= i < c && 0 <= t < |gens| ==> !Certifies(gens[i], gens[t], n, edges)
    {
      var full := IsFullCycle(gens[c], n);
      if full {
        for t := 0 to |gens|
          invariant forall s, edges :: 0 <= s < t ==> !Certifies(gens[c], gens[s], n, edges)
        {
          var swap := FindTransposition(gens[t], n);
          if swap.Some? {
            var (a, b) := swap.value;
            var edges, adj := BuildEdges(gens[c], a, b, n);
            var all := ReachesAll(edges, adj, n);
            if all {
              forall f | IsPermutation(f, n) ensures Generated(gens, n, f) {
                CertificateIsSound(gens, n, c, t, edges, f);
              }
              return Some(Certificate(gens[c], gens[t], edges));
            }
            OnlyOneSwap(n, a, b);
          }
        }
      }
    }
    return None;
  }

  lemma OnlyOneSwap(n: nat, a: nat, b: nat)
    requires a < b < n
    ensures forall x, y :: 0 <= x < y < n && Swap(n, x, y) == Swap(n, a, b) ==> (x, y) == (a, b)
  {
    forall x, y | 0 <= x < y < n && Swap(n, x, y) == Swap(n, a, b) ensures (x, y) == (a, b) {
      assert Swap(n, x, y)[x] == y && Swap(n, a, b)[x] == y;
      assert Swap(n, x, y)[y] == x && Swap(n, a, b)[y] == x;
    }
  }
}
