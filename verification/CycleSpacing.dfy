/** Which transpositions a full cycle spreads over all positions
    (integrations/cayleypy_native/multigpubeamsearch/calibration_frontier.py). */
module CycleSpacing {
  import opened Arithmetic
  import opened FactorialRanks
  import opened Sets
  import opened SymmetricGroup

  /** The walk from 0 meets the position within a turn. */
  ghost predicate Meets(c: Map, n: nat, x: int)
    requires n > 0 && IsMap(c, n)
  {
    exists k :: 0 <= k < n && Iterate(c, 0, k) == x
  }

  /** A full cycle is a map whose first n steps from 0 meet every position and end at 0. */
  lemma FullCycleMeans(c: Map, n: nat)
    requires n > 0 && IsMap(c, n)
    ensures FullCycle(c, n) <==>
            Iterate(c, 0, n) == 0 && forall x :: 0 <= x < n ==> Meets(c, n, x)
  {
    if FullCycle(c, n) {
      forall x | 0 <= x < n ensures Meets(c, n, x) {
        var k := CycleVisits(c, n, x);
      }
    }
    if forall x :: 0 <= x < n ==> Meets(c, n, x) {
      VisitsAreDistinct(c, n);
    }
  }

  lemma VisitsAreDistinct(c: Map, n: nat)
    requires n > 0 && IsMap(c, n)
    requires forall x :: 0 <= x < n ==> Meets(c, n, x)
    ensures forall i, j :: 0 <= i < j < n ==> Iterate(c, 0, i) != Iterate(c, 0, j)
  {
    var orbit := seq(n, (k: nat) => Iterate(c, 0, k));
    forall i, j | 0 <= i < j < n ensures Iterate(c, 0, i) != Iterate(c, 0, j) {
      if Iterate(c, 0, i) == Iterate(c, 0, j) {
        assert orbit[i] == orbit[j];
        var rest := orbit[..j] + orbit[j + 1..];
        forall x | x in Below(n) ensures x in Elems(rest) {
          assert Meets(c, n, x);
          var k :| 0 <= k < n && Iterate(c, 0, k) == x;
          assert orbit[k] == x;
          var m := if k < j then k else if k == j then i else k - 1;
          assert rest[m] == x;
        }
        ElemsSize(rest);
        BelowSize(n);
        SubsetSize(Below(n), Elems(rest));
      }
    }
  }

  lemma {:induction false} TurnsChangeNothing(c: Map, n: nat, x: nat, q: nat, r: nat)
    requires FullCycle(c, n) && x < n
    ensures Iterate(c, x, n * q + r) == Iterate(c, x, r)
    decreases q
  {
    if q > 0 {
      TurnsChangeNothing(c, n, x, q - 1, r);
      CycleReturns(c, n, x);
      Distribute(n, q, -1);
      IterateTwice(c, x, n, n * (q - 1) + r);
    }
  }

  lemma StepsWrap(c: Map, n: nat, x: nat, k: nat)
    requires FullCycle(c, n) && x < n
    ensures Iterate(c, x, k) == Iterate(c, x, k % n)
  {
    var q, r := k / n, k % n;
    assert k == n * q + r;
    TurnsChangeNothing(c, n, x, q, r);
  }

  /** Two walks from 0 that meet have lengths that differ by whole turns. */
  lemma MeetingWalks(c: Map, n: nat, i: nat, j: nat) returns (k: int)
    requires FullCycle(c, n) && Iterate(c, 0, i) == Iterate(c, 0, j)
    ensures i - j == n * k
  {
    StepsWrap(c, n, 0, i);
    StepsWrap(c, n, 0, j);
    var u, v := i % n, j % n;
    assert u == v;
    k := SameRest(i, j, n);
  }

  /** `S` is kept by going d steps, from every position. */
  ghost predicate KeptBy(c: Map, d: nat, S: set<nat>)
    requires IsMap(c, |c|)
  {
    forall x: nat :: x < |c| ==> (x in S <==> Iterate(c, x, d) in S)
  }

  /** No edge leaves a set exactly when d steps along the cycle do not. */
  lemma ClosedMeansKept(c: Map, n: nat, a: nat, d: nat, S: set<nat>)
    requires FullCycle(c, n) && a < n
    ensures Closed(Edges(c, a, Iterate(c, a, d), n), S) <==> KeptBy(c, d, S)
  {
    var b := Iterate(c, a, d);
    var edges := Edges(c, a, b, n);
    forall k | 0 <= k < n ensures edges[k] == (Iterate(c, a, k), Iterate(c, Iterate(c, a, k), d)) {
      IterateTwice(c, a, d, k);
      IterateTwice(c, a, k, d);
    }
    if Closed(edges, S) {
      forall x: nat | x < n ensures x in S <==> Iterate(c, x, d) in S {
        var k := WalkTo(c, n, a, x);
        assert edges[k].0 == x;
      }
    }
  }

  /** From any position the cycle reaches any other within a turn. */
  lemma WalkTo(c: Map, n: nat, a: nat, x: nat) returns (k: nat)
    requires FullCycle(c, n) && a < n && x < n
    ensures k < n && Iterate(c, a, k) == x
  {
    var i := CycleVisits(c, n, a);
    var j := CycleVisits(c, n, x);
    var steps := j + n - i;
    IterateTwice(c, 0, i, steps);
    IterateTwice(c, 0, n, j);
    StepsWrap(c, n, a, steps);
    k := steps % n;
  }

  lemma {:induction false} KeptByMultiple(c: Map, d: nat, S: set<nat>, m: nat, x: nat)
    requires IsMap(c, |c|) && KeptBy(c, d, S) && x < |c|
    ensures x in S <==> Iterate(c, x, m * d) in S
  {
    if m > 0 {
      KeptByMultiple(c, d, S, m - 1, x);
      IterateTwice(c, x, (m - 1) * d, d);
      assert (m - 1) * d + d == m * d;
    }
  }

  /** A step number coprime to the length has a multiple that is one step beyond whole turns. */
  lemma OneStep(d: nat, n: nat) returns (m: nat, z: nat)
    requires n > 1 && Gcd(d, n) == 1
    ensures m * d == n * z + 1
  {
    var x, y := Bezout(d, n);
    m := x % n;
    var turns := x / n;
    assert x == n * turns + m;
    var w := -y - turns * d;
    ReducedMultiple(d, n, x, y, m, turns);
    if w < 0 {
      Monotone(n, w, -1);
    }
    z := w;
  }

  lemma ReducedMultiple(d: nat, n: nat, x: int, y: int, m: int, turns: int)
    requires d * x + n * y == 1 && x == n * turns + m
    ensures m * d == n * (-y - turns * d) + 1
  {
    calc {
      m * d;
      (x - n * turns) * d;
      d * x - (n * turns) * d;
      1 - n * y - (n * turns) * d;
      { assert (n * turns) * d == n * (turns * d); }
      1 - n * y - n * (turns * d);
      { Distribute(n, -y, -(turns * d)); }
      n * (-y - turns * d) + 1;
    }
  }

  lemma CoprimeConnects(c: Map, n: nat, a: nat, d: nat)
    requires FullCycle(c, n) && n > 1 && a < n && Gcd(d, n) == 1
    ensures Connected(Edges(c, a, Iterate(c, a, d), n), n)
  {
    var m, z := OneStep(d, n);
    forall S: set<nat> | 0 in S && Closed(Edges(c, a, Iterate(c, a, d), n), S) ensures Below(n) <= S {
      ClosedMeansKept(c, n, a, d, S);
      forall x | x in Below(n) ensures x in S {
        var j := CycleVisits(c, n, x);
        OrbitStays(c, n, d, S, m, z, j);
      }
    }
  }

  lemma {:induction false} OrbitStays(c: Map, n: nat, d: nat, S: set<nat>, m: nat, z: nat, j: nat)
    requires FullCycle(c, n) && n > 1 && 0 in S && KeptBy(c, d, S) && m * d == n * z + 1
    ensures Iterate(c, 0, j) in S
  {
    if j > 0 {
      OrbitStays(c, n, d, S, m, z, j - 1);
      var x := Iterate(c, 0, j - 1);
      KeptByMultiple(c, d, S, m, x);
      StepsWrap(c, n, x, m * d);
      DigitsOf(n, z, 1);
      assert Iterate(c, x, 1) == c[Iterate(c, x, 0)] == c[x];
    }
  }

  /** The positions a multiple of g steps from 0. */
  ghost predicate OnGrid(c: Map, g: nat, x: nat)
    requires IsMap(c, |c|) && |c| > 0 && g > 0
  {
    exists j: nat :: Iterate(c, 0, j) == x && j % g == 0
  }

  lemma GridIsKept(c: Map, n: nat, d: nat, g: nat, x: nat)
    requires FullCycle(c, n) && g > 0 && d % g == 0 && n % g == 0 && x < n
    ensures OnGrid(c, g, x) <==> OnGrid(c, g, Iterate(c, x, d))
  {
    if OnGrid(c, g, x) {
      GridGoesOn(c, n, d, g, x);
    }
    if OnGrid(c, g, Iterate(c, x, d)) {
      GridCameFrom(c, n, d, g, x);
    }
  }

  lemma GridGoesOn(c: Map, n: nat, d: nat, g: nat, x: nat)
    requires FullCycle(c, n) && g > 0 && d % g == 0 && x < n && OnGrid(c, g, x)
    ensures OnGrid(c, g, Iterate(c, x, d))
  {
    var j: nat :| Iterate(c, 0, j) == x && j % g == 0;
    IterateTwice(c, 0, j, d);
    SumDivides(j, d, g);
  }

  lemma GridCameFrom(c: Map, n: nat, d: nat, g: nat, x: nat)
    requires FullCycle(c, n) && g > 0 && d % g == 0 && n % g == 0 && x < n && OnGrid(c, g, Iterate(c, x, d))
    ensures OnGrid(c, g, x)
  {
    var j: nat :| Iterate(c, 0, j) == Iterate(c, x, d) && j % g == 0;
    var i := CycleVisits(c, n, x);
    IterateTwice(c, 0, i, d);
    var k := MeetingWalks(c, n, i + d, j);
    WholeTurnsDivide(n, k, j, d, i, g);
  }

  lemma SumDivides(x: nat, y: nat, g: nat)
    requires g > 0 && x % g == 0 && y % g == 0
    ensures (x + y) % g == 0
  {
    DividesSum(x, y, 1, g);
  }

  lemma WholeTurnsDivide(n: nat, k: int, j: nat, d: nat, i: nat, g: nat)
    requires g > 0 && n % g == 0 && j % g == 0 && d % g == 0 && i + d - j == n * k
    ensures i % g == 0
  {
    DividesSum(n, j, k, g);
    DividesDifference(n * k + j, d, g);
  }

  lemma DividesDifference(x: int, y: int, g: nat)
    requires g > 0 && x % g == 0 && y % g == 0
    ensures (x - y) % g == 0
  {
    var s, t := x / g, y / g;
    assert x == g * s && y == g * t;
    Distribute(g, s, -t);
    MultipleHasNoRest(g, s - t);
  }

  lemma ConnectedIsCoprime(c: Map, n: nat, a: nat, d: nat)
    requires FullCycle(c, n) && n > 1 && a < n && Connected(Edges(c, a, Iterate(c, a, d), n), n)
    ensures Gcd(d, n) == 1
  {
    var g := Gcd(d, n);
    GcdDivides(d, n);
    var S := set x: nat | x < n && OnGrid(c, g, x);
    forall x: nat | x < n ensures x in S <==> Iterate(c, x, d) in S {
      GridIsKept(c, n, d, g, x);
    }
    assert Iterate(c, 0, 0) == 0 && 0 % g == 0;
    ClosedMeansKept(c, n, a, d, S);
    assert Iterate(c, 0, 1) in Below(n);
    GridWithOne(c, n, g);
  }

  lemma GridWithOne(c: Map, n: nat, g: nat)
    requires FullCycle(c, n) && g > 0 && n % g == 0 && OnGrid(c, g, Iterate(c, 0, 1))
    ensures g == 1
  {
    var j: nat :| Iterate(c, 0, j) == Iterate(c, 0, 1) && j % g == 0;
    var k := MeetingWalks(c, n, 1, j);
    DividesSum(n, j, k, g);
  }

  /** Positions d steps apart on a full cycle connect all positions exactly when d is coprime to the length. */
  lemma SpacingConnects(c: Map, n: nat, a: nat, d: nat)
    requires FullCycle(c, n) && n > 1 && a < n
    ensures Connected(Edges(c, a, Iterate(c, a, d), n), n) <==> Gcd(d, n) == 1
  {
    if Gcd(d, n) == 1 {
      CoprimeConnects(c, n, a, d);
    }
    if Connected(Edges(c, a, Iterate(c, a, d), n), n) {
      ConnectedIsCoprime(c, n, a, d);
    }
  }
}
