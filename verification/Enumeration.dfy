/** The enumerated calibration frontiers: every rank gets its count of states, and no state is
    written twice (integrations/cayleypy_native/multigpubeamsearch/calibration_frontier.py). */
module Enumeration {
  import opened Arithmetic
  import opened FactorialRanks
  import opened Sets
  import opened SymmetricGroup

  const BATCH: nat := 65536

  /** The move applied to a state: position `i` takes the symbol at `move[i]`. */
  function Apply(move: Map, s: State): (r: State)
    requires IsMap(move, |s|)
    ensures |r| == |s|
  {
    seq(|s|, (i: nat) requires i < |s| => s[move[i]])
  }

  /** The positions that sort a permutation: where each value stands. */
  ghost predicate SortsPositions(order: Map, move: Map) {
    |order| == |move| && forall k :: 0 <= k < |order| ==> order[k] < |move| && move[order[k]] == k
  }

  method Argsort(move: Map) returns (order: Map)
    requires IsPermutation(move, |move|)
    ensures SortsPositions(order, move)
  {
    order := [];
    for k := 0 to |move|
      invariant |order| == k && forall j :: 0 <= j < k ==> order[j] < |move| && move[order[j]] == j
    {
      PermutationHits(move, |move|, k);
      var at :| 0 <= at < |move| && move[at] == k;
      order := order + [at];
    }
  }

  lemma PermutationHits(f: Map, n: nat, k: nat)
    requires IsPermutation(f, n) && k < n
    ensures exists at :: 0 <= at < n && f[at] == k
  {
    if k !in f {
      var longer := f + [k];
      Pigeonhole(longer, n);
    }
  }

  ghost predicate LeadsTo(move: Map, s: State, center: State) {
    IsMap(move, |s|) && Apply(move, s) == center
  }

  lemma Predecessor(move: Map, order: Map, s: State, center: State)
    requires SortsPositions(order, move) && LeadsTo(move, s, center)
    ensures |order| == |center|
    ensures s == seq(|center|, (i: nat) requires i < |center| && SortsPositions(order, move) => center[order[i]])
  {
    assert forall i :: 0 <= i < |s| ==> s[move[order[i]]] == center[order[i]];
  }

  lemma BeforeLeads(move: Map, order: Map, before: State, center: State)
    requires IsPermutation(move, |center|) && SortsPositions(order, move) && |before| == |center|
    requires forall i :: 0 <= i < |center| ==> before[i] == center[order[i]]
    ensures LeadsTo(move, before, center)
  {
    forall i | 0 <= i < |center| ensures order[move[i]] == i {
      assert move[order[move[i]]] == move[i];
    }
    assert Apply(move, before) == center;
  }

  /** The centre and every state one move away from it. */
  method MakeForbidden(center: State, moves: seq<Map>) returns (forbidden: seq<State>)
    requires forall k :: 0 <= k < |moves| ==> IsPermutation(moves[k], |center|)
    ensures |forbidden| == 1 + |moves| && center in forbidden
    ensures forall s, k :: 0 <= k < |moves| && LeadsTo(moves[k], s, center) ==> s in forbidden
    ensures forbidden[0] == center && forall k :: 0 <= k < |moves| ==> LeadsTo(moves[k], forbidden[k + 1], center)
  {
    forbidden := [center];
    for k := 0 to |moves|
      invariant |forbidden| == 1 + k && forbidden[0] == center
      invariant forall s, j :: 0 <= j < k && LeadsTo(moves[j], s, center) ==> s in forbidden
      invariant forall j :: 0 <= j < k ==> LeadsTo(moves[j], forbidden[j + 1], center)
    {
      var order := Argsort(moves[k]);
      var before := seq(|center|, (i: nat) requires i < |center| && SortsPositions(order, moves[k])
        => center[order[i]]);
      forall s | LeadsTo(moves[k], s, center) ensures s == before {
        Predecessor(moves[k], order, s, center);
      }
      BeforeLeads(moves[k], order, before, center);
      forbidden := forbidden + [before];
    }
  }

  datatype Numbering = Numbering(symbols: State, stride: nat, offset: nat) {
    function Ceiling(): nat { Factorial(|symbols|) }

    /** The strided numbers of all arrangements are different and fit the word. */
    ghost predicate Usable() {
      && Distinct(symbols)
      && Gcd(stride, Ceiling()) == 1
      && stride * (Ceiling() - 1) + offset < WORD
    }

    function StateAt(i: nat): (s: State)
      requires i < Ceiling()
    {
      Unrank(symbols, Strided(stride, offset, Ceiling(), i))
    }
  }

  /** The state with number `i`: the arrangement whose lexicographic number is the strided one. */
  lemma StateAtMeans(p: Numbering, i: nat)
    requires i < p.Ceiling()
    ensures p.Ceiling() == Factorial(|p.symbols|) && (i * p.stride + p.offset) % p.Ceiling() < p.Ceiling()
    ensures p.StateAt(i) == Unrank(p.symbols, (i * p.stride + p.offset) % p.Ceiling())
  {
  }

  lemma StatesDiffer(p: Numbering, i: nat, j: nat)
    requires p.Usable() && i < p.Ceiling() && j < p.Ceiling() && p.StateAt(i) == p.StateAt(j)
    ensures i == j
  {
    UnrankIsInjective(p.symbols, Strided(p.stride, p.offset, p.Ceiling(), i),
                      Strided(p.stride, p.offset, p.Ceiling(), j));
    StrideIsInjective(p.stride, p.offset, p.Ceiling(), i, j);
  }

  lemma {:induction false} FactorialGrows(m: nat, n: nat)
    requires m <= n
    ensures Factorial(m) <= Factorial(n)
    decreases n
  {
    if m < n {
      FactorialGrows(m, n - 1);
      assert Factorial(n - 1) * 1 <= Factorial(n - 1) * n by {
        Monotone(Factorial(n - 1), 1, n);
      }
    }
  }

  lemma CeilingBound(n: nat)
    requires n <= 20
    ensures Factorial(n) <= 2432902008176640000
  {
    FactorialGrows(n, 20);
    FactorialOfTen();
    assert Factorial(15) == 1307674368000;
  }

  lemma FactorialOfTen()
    ensures Factorial(10) == 3628800
  {
    assert Factorial(5) == 120;
  }

  /** The largest number up to `limit` without a common factor. */
  method CoprimeUpTo(limit: nat, ceiling: nat) returns (stride: nat)
    requires 1 <= limit && 1 <= ceiling
    ensures 1 <= stride <= limit && Gcd(stride, ceiling) == 1
    ensures forall s :: stride < s <= limit ==> Gcd(s, ceiling) != 1
  {
    stride := limit;
    while Gcd(stride, ceiling) != 1
      invariant 1 <= stride <= limit
      invariant forall s :: stride < s <= limit ==> Gcd(s, ceiling) != 1
      decreases stride
    {
      GcdOfOne(ceiling);
      stride := stride - 1;
    }
  }

  lemma StrideRoom(symbols: State, stride: nat, limit: nat, ceiling: nat)
    requires ceiling == Factorial(|symbols|) && Distinct(symbols) && Gcd(stride, ceiling) == 1
    requires ceiling <= 2432902008176640000
    requires var steps := if ceiling > 2 then ceiling - 1 else 1;
             limit == (WORD - 1 - ceiling / 3) / steps && stride <= limit
    ensures Numbering(symbols, stride, ceiling / 3).Usable()
  {
    var steps := if ceiling > 2 then ceiling - 1 else 1;
    QuotientFits(WORD - 1 - ceiling / 3, steps);
    StrideFits(stride, limit, steps, ceiling - 1);
  }

  /** The largest stride without a common factor up to 65537 for which no strided number exceeds 64 bits. */
  ghost predicate LargestStride(ceiling: nat, stride: nat) {
    && 1 <= stride <= 65537 && Gcd(stride, ceiling) == 1 && StrideIsSmall(ceiling, stride)
    && forall s :: stride < s <= 65537 && StrideIsSmall(ceiling, s) ==> Gcd(s, ceiling) != 1
  }

  predicate StrideIsSmall(ceiling: nat, stride: nat) {
    stride * (if ceiling > 2 then ceiling - 1 else 1) + ceiling / 3 <= 18446744073709551615
  }

  lemma StrideIsLargest(ceiling: nat, stride: nat, limit: nat)
    requires 1 <= ceiling <= 2432902008176640000
    requires limit == (WORD - 1 - ceiling / 3) / if ceiling > 2 then ceiling - 1 else 1
    requires 1 <= stride <= limit && stride <= 65537 && Gcd(stride, ceiling) == 1
    requires forall s :: stride < s <= limit && s <= 65537 ==> Gcd(s, ceiling) != 1
    ensures LargestStride(ceiling, stride)
  {
    var steps := if ceiling > 2 then ceiling - 1 else 1;
    var room := WORD - 1 - ceiling / 3;
    QuotientFits(room, steps);
    QuotientIsLargest(room, steps, stride);
    forall s | stride < s <= 65537 && StrideIsSmall(ceiling, s) ensures s <= limit {
      QuotientIsLargest(room, steps, s);
    }
  }

  lemma QuotientIsLargest(room: nat, steps: nat, s: nat)
    requires 0 < steps
    ensures s * steps <= room <==> s <= room / steps
  {
    var q := room / steps;
    assert room == steps * q + room % steps;
    if s <= q {
      Monotone(steps, s, q);
    } else {
      Monotone(steps, q + 1, s);
      Distribute(steps, q, 1);
    }
  }

  /** The strided numbers of up to 20 symbols always fit a 64-bit word, with a stride of at least 1. */
  method ChooseStride(symbols: State) returns (p: Numbering)
    requires Distinct(symbols) && |symbols| <= 20
    ensures p.symbols == symbols && p.offset == p.Ceiling() / 3 && p.Usable()
    ensures p.offset == Factorial(|symbols|) / 3 && LargestStride(Factorial(|symbols|), p.stride)
  {
    var ceiling := Factorial(|symbols|);
    CeilingBound(|symbols|);
    var steps := if ceiling - 1 > 1 then ceiling - 1 else 1;
    var limit := (WORD - 1 - ceiling / 3) / steps;
    QuotientFits(WORD - 1 - ceiling / 3, steps);
    var stride := CoprimeUpTo(if limit < 65537 then limit else 65537, ceiling);
    StrideRoom(symbols, stride, limit, ceiling);
    StrideIsLargest(ceiling, stride, limit);
    p := Numbering(symbols, stride, ceiling / 3);
  }

  lemma QuotientFits(room: nat, steps: nat)
    requires 0 < steps <= room
    ensures 1 <= room / steps && (room / steps) * steps <= room
  {
    var q := room / steps;
    assert room == steps * q + room % steps;
    if q <= 0 {
      Monotone(steps, q, 0);
    }
  }

  lemma StrideFits(stride: nat, limit: nat, steps: nat, last: nat)
    requires stride <= limit && last <= steps
    ensures stride * last <= limit * steps
  {
    Monotone(stride, last, steps);
    Monotone(steps, stride, limit);
  }

  lemma GcdOfOne(m: nat)
    requires m >= 1
    ensures Gcd(1, m) == 1
  {
    if m > 1 {
      assert Gcd(1, m) == Gcd(m, 1) == Gcd(1, 0);
    }
  }

  /** Computing the strided number in 64-bit words loses nothing. */
  lemma NoWrap(p: Numbering, i: nat)
    requires p.Usable() && i < p.Ceiling()
    ensures ((i * p.stride) % WORD + p.offset) % WORD % p.Ceiling() == Strided(p.stride, p.offset, p.Ceiling(), i)
  {
    Monotone(p.stride, i, p.Ceiling() - 1);
    var a := i * p.stride;
    assert a == p.stride * i;
    SmallWord(a, p.offset);
  }

  lemma SmallWord(a: nat, offset: nat)
    requires a + offset < WORD
    ensures (a % WORD + offset) % WORD == a + offset
  {
  }

  /** The symbols already placed, completed by the rest of the digits, are the wanted row. */
  ghost predicate RowSoFar(target: State, row: State, available: State, rest: nat) {
    rest < Factorial(|available|) && row + Unrank(available, rest) == target
  }

  /** Takes the next digit off the number and places its symbol. */
  method PlaceDigit(ghost target: State, row: State, available: State, rest: nat) returns (digit: nat, left: nat)
    requires available != [] && RowSoFar(target, row, available, rest)
    ensures digit < |available| && RowSoFar(target, row + [available[digit]], Without(available, digit), left)
    ensures |available| == 1 ==> row + [available[digit]] == target
  {
    var factorial := Factorial(|available| - 1);
    digit, left := rest / factorial, rest % factorial;
    ghost var d, r := UnrankSplit(available, rest);
    ghost var tail := Unrank(Without(available, digit), left);
    assert row + ([available[digit]] + tail) == (row + [available[digit]]) + tail;
  }

  /** The remaining columns, shifted left from the taken one on. */
  function Shifted(available: State, digit: nat): (r: State)
    requires digit < |available|
    ensures r == Without(available, digit)
  {
    seq(|available| - 1, (c: nat) requires c < |available| - 1 => available[c + (if c >= digit then 1 else 0)])
  }

  method UnrankRow(symbols: State, index: nat) returns (row: State)
    requires index < Factorial(|symbols|)
    ensures row == Unrank(symbols, index)
  {
    var n := |symbols|;
    var available, rest := symbols, index;
    row := [];
    ghost var target := Unrank(symbols, index);
    assert [] + target == target;
    for pos := 0 to n
      invariant pos < n ==> |available| == n - pos && RowSoFar(target, row, available, rest)
      invariant pos == n ==> row == target
    {
      var digit, left := PlaceDigit(target, row, available, rest);
      rest := left;
      row := row + [available[digit]];
      if pos < n - 1 {
        available := Shifted(available, digit);
      }
    }
  }
}
