/** Arrangements numbered in the factorial number system, and strided numbering without repeats
    (integrations/cayleypy_native/multigpubeamsearch/calibration_frontier.py). */
module FactorialRanks {
  import opened Arithmetic
  import opened Sets

  type State = seq<nat>

  function Factorial(n: nat): (f: nat)
    ensures f >= 1
  {
    if n == 0 then 1 else n * Factorial(n - 1)
  }

  /** The symbols still available after the one at `d` is taken. */
  function Without(s: State, d: nat): (r: State)
    requires d < |s|
    ensures |r| == |s| - 1
  {
    s[..d] + s[d + 1..]
  }

  lemma WithoutFacts(s: State, d: nat)
    requires d < |s|
    ensures multiset(s) == multiset{s[d]} + multiset(Without(s, d))
  {
    assert s == s[..d] + ([s[d]] + s[d + 1..]);
  }

  lemma WithoutStaysDifferent(s: State, d: nat)
    requires d < |s| && Distinct(s)
    ensures Distinct(Without(s, d))
  {
    var w := Without(s, d);
    assert forall k :: 0 <= k < |w| ==> w[k] == s[if k < d then k else k + 1];
  }

  lemma DigitBound(n: nat, index: nat)
    requires n > 0 && index < Factorial(n)
    ensures index / Factorial(n - 1) < n && index % Factorial(n - 1) < Factorial(n - 1)
  {
    var f, d := Factorial(n - 1), index / Factorial(n - 1);
    assert index == f * d + index % f;
    if d >= n {
      Monotone(f, n, d);
    }
  }

  /** The arrangement of `available` with number `index`. */
  function Unrank(available: State, index: nat): (r: State)
    requires index < Factorial(|available|)
    decreases |available|
  {
    if available == [] then [] else
      DigitBound(|available|, index);
      var f := Factorial(|available| - 1);
      [available[index / f]] + Unrank(Without(available, index / f), index % f)
  }

  /** The first symbol and the number of the rest. */
  lemma UnrankSplit(available: State, index: nat) returns (d: nat, rest: nat)
    requires available != [] && index < Factorial(|available|)
    ensures d == index / Factorial(|available| - 1) && rest == index % Factorial(|available| - 1)
    ensures d < |available| && rest < Factorial(|available| - 1) && index == Factorial(|available| - 1) * d + rest
    ensures Unrank(available, index) == [available[d]] + Unrank(Without(available, d), rest)
  {
    DigitBound(|available|, index);
    var f := Factorial(|available| - 1);
    d, rest := index / f, index % f;
  }

  lemma UnrankJoin(available: State, d: nat, rest: nat) returns (index: nat)
    requires d < |available| && rest < Factorial(|available| - 1)
    ensures index < Factorial(|available|)
    ensures Unrank(available, index) == [available[d]] + Unrank(Without(available, d), rest)
  {
    var f := Factorial(|available| - 1);
    index := f * d + rest;
    DigitsOf(f, d, rest);
    Distribute(f, d, 1);
    Monotone(f, d + 1, |available|);
  }

  lemma {:induction false} UnrankArranges(available: State, index: nat)
    requires index < Factorial(|available|)
    ensures |Unrank(available, index)| == |available|
    ensures multiset(Unrank(available, index)) == multiset(available)
    decreases |available|
  {
    if available != [] {
      var d, rest := UnrankSplit(available, index);
      WithoutFacts(available, d);
      UnrankArranges(Without(available, d), rest);
    }
  }

  /** Different numbers below n! name different arrangements. */
  lemma {:induction false} UnrankIsInjective(available: State, i: nat, j: nat)
    requires Distinct(available) && i < Factorial(|available|) && j < Factorial(|available|)
    requires Unrank(available, i) == Unrank(available, j)
    ensures i == j
    decreases |available|
  {
    if available != [] {
      var d, rest := UnrankSplit(available, i);
      var e, rest' := UnrankSplit(available, j);
      SameStart(available[d], Unrank(Without(available, d), rest), available[e], Unrank(Without(available, e), rest'));
      assert d == e;
      WithoutStaysDifferent(available, d);
      UnrankIsInjective(Without(available, d), rest, rest');
    }
  }

  lemma SameStart(a: nat, s: State, b: nat, t: State)
    requires [a] + s == [b] + t
    ensures a == b && s == t
  {
    assert ([a] + s)[0] == ([b] + t)[0];
    assert ([a] + s)[1..] == s && ([b] + t)[1..] == t;
  }

  ghost predicate StrictlyAscending(s: State) {
    forall i, j :: 0 <= i < j < |s| ==> s[i] < s[j]
  }

  /** The first difference of the two is smaller in `s`. */
  ghost predicate ComesBefore(s: State, t: State) {
    exists p :: 0 <= p < |s| && p < |t| && s[..p] == t[..p] && s[p] < t[p]
  }

  /** Numbering sorted symbols lists their arrangements in lexicographic order. */
  lemma {:induction false} UnrankIsLexicographic(available: State, i: nat, j: nat)
    requires StrictlyAscending(available) && i < j < Factorial(|available|)
    ensures ComesBefore(Unrank(available, i), Unrank(available, j))
    decreases |available|
  {
    var d, rest := UnrankSplit(available, i);
    var e, rest' := UnrankSplit(available, j);
    SmallerNumber(Factorial(|available| - 1), d, rest, e, rest');
    var s, t := Unrank(Without(available, d), rest), Unrank(Without(available, e), rest');
    if d < e {
      StartsBefore(available[d], s, available[e], t);
    } else {
      WithoutStaysAscending(available, d);
      UnrankIsLexicographic(Without(available, d), rest, rest');
      LongerComesBefore(available[d], s, t);
    }
  }

  lemma SmallerNumber(f: nat, d: nat, rest: nat, e: nat, rest': nat)
    requires f * d + rest < f * e + rest' && rest < f && rest' < f
    ensures d < e || (d == e && rest < rest')
  {
    if e < d {
      Monotone(f, e + 1, d);
      Distribute(f, e, 1);
    }
  }

  lemma StartsBefore(a: nat, s: State, b: nat, t: State)
    requires a < b
    ensures ComesBefore([a] + s, [b] + t)
  {
    assert ([a] + s)[..0] == ([b] + t)[..0];
  }

  lemma LongerComesBefore(a: nat, s: State, t: State)
    requires ComesBefore(s, t)
    ensures ComesBefore([a] + s, [a] + t)
  {
    var p :| 0 <= p < |s| && p < |t| && s[..p] == t[..p] && s[p] < t[p];
    var q := p + 1;
    assert ([a] + s)[..q] == [a] + s[..p] && ([a] + t)[..q] == [a] + t[..p];
    assert ([a] + s)[q] == s[p] && ([a] + t)[q] == t[p];
  }

  lemma WithoutStaysAscending(s: State, d: nat)
    requires d < |s| && StrictlyAscending(s)
    ensures StrictlyAscending(Without(s, d))
  {
    var w := Without(s, d);
    assert forall k :: 0 <= k < |w| ==> w[k] == s[if k < d then k else k + 1];
  }

  /** Every arrangement has a number: together with the previous lemma, exactly one. */
  lemma {:induction false} EveryArrangementHasARank(available: State, s: State) returns (index: nat)
    requires Distinct(available) && multiset(s) == multiset(available)
    ensures index < Factorial(|available|) && Unrank(available, index) == s
    decreases |available|
  {
    assert |s| == |multiset(s)| == |multiset(available)| == |available|;
    if available == [] {
      return 0;
    }
    var d := FirstSymbol(available, s);
    WithoutStaysDifferent(available, d);
    var rest := EveryArrangementHasARank(Without(available, d), s[1..]);
    index := UnrankJoin(available, d, rest);
    assert s == [s[0]] + s[1..];
  }

  lemma FirstSymbol(available: State, s: State) returns (d: nat)
    requires s != [] && multiset(s) == multiset(available)
    ensures d < |available| && available[d] == s[0] && multiset(s[1..]) == multiset(Without(available, d))
  {
    assert s == [s[0]] + s[1..];
    assert s[0] in multiset(available);
    d :| 0 <= d < |available| && available[d] == s[0];
    WithoutFacts(available, d);
    var rest, left := multiset(s[1..]), multiset(Without(available, d));
    assert multiset{s[0]} + rest == multiset{s[0]} + left;
    forall v ensures rest[v] == left[v] {
      assert (multiset{s[0]} + rest)[v] == (multiset{s[0]} + left)[v];
    }
  }

  lemma DigitsOf(f: nat, d: nat, rest: nat)
    requires rest < f
    ensures (f * d + rest) / f == d && (f * d + rest) % f == rest
  {
    var q, r := (f * d + rest) / f, (f * d + rest) % f;
    assert f * q + r == f * d + rest;
    assert f * (q - d) == rest - r;
    SmallMultiple(f, q - d);
  }

  function Gcd(a: nat, b: nat): nat
    decreases b
  {
    if b == 0 then a else Gcd(b, a % b)
  }

  /** The greatest common divisor is a sum of multiples of both numbers. */
  lemma {:induction false} Bezout(a: nat, b: nat) returns (x: int, y: int)
    ensures a * x + b * y == Gcd(a, b)
    decreases b
  {
    if b == 0 {
      return 1, 0;
    }
    var u, v := Bezout(b, a % b);
    var q := a / b;
    assert a == b * q + a % b;
    x, y := v, u - q * v;
    calc {
      a * x + b * y;
      a * v + b * u - b * (q * v);
      { assert b * (q * v) == (b * q) * v; }
      (a - b * q) * v + b * u;
      Gcd(a, b);
    }
  }

  /** Any common divisor divides `Gcd`, so a `Gcd` of 1 means no common factor. */
  lemma {:induction false} GcdIsGreatest(a: nat, b: nat, d: nat)
    requires d > 0 && a % d == 0 && b % d == 0
    ensures Gcd(a, b) % d == 0
    decreases b
  {
    if b > 0 {
      assert a == b * (a / b) + a % b;
      MultipleDifference(a, b, a / b, d);
      GcdIsGreatest(b, a % b, d);
    }
  }

  lemma MultipleDifference(a: nat, b: nat, q: nat, d: nat)
    requires d > 0 && a % d == 0 && b % d == 0 && a >= b * q
    ensures (a - b * q) % d == 0
  {
    var s, t := a / d, b / d;
    assert a == d * s && b == d * t;
    assert b * q == d * (t * q);
    assert a - b * q == d * (s - t * q);
    MultipleHasNoRest(d, s - t * q);
  }

  lemma MultipleHasNoRest(d: nat, k: int)
    requires d > 0
    ensures (d * k) % d == 0
  {
    var n := d * k;
    var q, r := n / d, n % d;
    assert n == d * q + r;
    assert d * (k - q) == d * k - d * q;
    SmallMultiple(d, k - q);
  }

  lemma {:induction false} GcdDivides(a: nat, b: nat)
    requires b > 0
    ensures Gcd(a, b) > 0 && a % Gcd(a, b) == 0 && b % Gcd(a, b) == 0
    decreases b
  {
    var r := a % b;
    assert Gcd(a, b) == Gcd(b, r);
    if r == 0 {
      MultipleHasNoRest(b, a / b);
      assert a == b * (a / b);
      MultipleHasNoRest(b, 1);
    } else {
      GcdDivides(b, r);
      var g := Gcd(b, r);
      assert a == b * (a / b) + r;
      DividesSum(b, r, a / b, g);
    }
  }

  lemma DividesSum(b: nat, r: nat, q: int, g: nat)
    requires g > 0 && b % g == 0 && r % g == 0
    ensures (b * q + r) % g == 0
  {
    var s, t := b / g, r / g;
    assert b == g * s && r == g * t;
    assert (g * s) * q == g * (s * q);
    Distribute(g, s * q, t);
    MultipleHasNoRest(g, s * q + t);
  }

  predicate CommonDivisor(a: nat, b: nat, k: nat) {
    k > 1 && a % k == 0 && b % k == 0
  }

  /** A `Gcd` of 1 is the absence of any common divisor above 1. */
  lemma CoprimeMeans(a: nat, b: nat)
    requires b > 0
    ensures Gcd(a, b) == 1 <==> forall k :: !CommonDivisor(a, b, k)
  {
    GcdDivides(a, b);
    assert Gcd(a, b) != 1 ==> CommonDivisor(a, b, Gcd(a, b));
    forall k | CommonDivisor(a, b, k) ensures Gcd(a, b) != 1 {
      DivisorOfGcd(a, b, k);
    }
  }

  lemma DivisorOfGcd(a: nat, b: nat, k: nat)
    requires b > 0 && CommonDivisor(a, b, k)
    ensures Gcd(a, b) != 1
  {
    GcdIsGreatest(a, b, k);
  }

  function Strided(stride: nat, offset: nat, m: nat, i: nat): (r: nat)
    requires m > 0
    ensures r < m
  {
    (i * stride + offset) % m
  }

  /** With a coprime stride, the strided numbering of 0..m-1 repeats no number. */
  lemma StrideIsInjective(stride: nat, offset: nat, m: nat, i: nat, j: nat)
    requires m > 0 && Gcd(stride, m) == 1 && i < m && j < m
    requires Strided(stride, offset, m, i) == Strided(stride, offset, m, j)
    ensures i == j
  {
    var k := StrideDifference(stride, offset, m, i, j);
    var c := CoprimeFactor(stride, m, i - j, k);
    SmallMultiple(m, c);
  }

  lemma StrideDifference(stride: nat, offset: nat, m: nat, i: nat, j: nat) returns (k: int)
    requires m > 0 && Strided(stride, offset, m, i) == Strided(stride, offset, m, j)
    ensures stride * (i - j) == m * k
  {
    k := SameRest(i * stride + offset, j * stride + offset, m);
  }

  lemma SameRest(a: nat, b: nat, m: nat) returns (k: int)
    requires m > 0 && a % m == b % m
    ensures a - b == m * k
  {
    k := a / m - b / m;
    assert a == m * (a / m) + a % m && b == m * (b / m) + b % m;
    Distribute(m, a / m, -(b / m));
  }

  lemma CoprimeFactor(stride: nat, m: nat, d: int, k: int) returns (c: int)
    requires Gcd(stride, m) == 1 && stride * d == m * k
    ensures d == m * c
  {
    var x, y := Bezout(stride, m);
    c := k * x + d * y;
    Distribute(d, stride * x, m * y);
    Distribute(m, k * x, d * y);
    Reorder(stride, d, x, m, k);
    assert d * (m * y) == m * (d * y);
  }

  lemma Reorder(stride: int, d: int, x: int, m: int, k: int)
    requires stride * d == m * k
    ensures d * (stride * x) == m * (k * x)
  {
    calc {
      d * (stride * x);
      (stride * d) * x;
      (m * k) * x;
      m * (k * x);
    }
  }
}
