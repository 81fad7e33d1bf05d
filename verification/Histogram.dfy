/** Score histograms and the thresholds chosen from them (src/stream4.cpp, src/unique_frontier_reference.hpp). */
module Histogram {
  import opened Candidates
  import opened Frontier
  import opened Wrappers

  /** SCORE_MAX_Q * SCORE_SCALE + 1 of src/config.hpp. */
  const SCORE_BIN_COUNT: u32 := 300 * 1024 + 1

  datatype Error = BadSize | NullHistogram | CumulativeOverflow

  function Sum(h: seq<int>, n: nat): int
    requires n <= |h|
  {
    if n == 0 then 0 else Sum(h, n - 1) + h[n - 1]
  }

  /** `Sum` is the running total of the first bins. */
  lemma SumIsStepwise(h: seq<int>, n: nat)
    requires n < |h|
    ensures Sum(h, 0) == 0 && Sum(h, n + 1) == Sum(h, n) + h[n]
  {
  }

  function Max(a: int, b: int): int {
    if a < b then b else a
  }

  ghost predicate NonNegative(h: seq<int>) {
    forall i :: 0 <= i < |h| ==> 0 <= h[i]
  }

  lemma {:induction false} SumMonotone(h: seq<int>, m: nat, n: nat)
    requires NonNegative(h) && m <= n <= |h|
    ensures 0 <= Sum(h, m) <= Sum(h, n)
  {
    if m < n {
      SumMonotone(h, m, n - 1);
    } else if n > 0 {
      SumMonotone(h, m - 1, n - 1);
    }
  }

  lemma {:induction false} SumPrefix(h: seq<int>, g: seq<int>, n: nat)
    requires n <= |h| && n <= |g| && forall i :: 0 <= i < n ==> h[i] == g[i]
    ensures Sum(h, n) == Sum(g, n)
  {
    if n > 0 {
      SumPrefix(h, g, n - 1);
    }
  }

  /** Bin `k` is where the cumulative count first reaches the beam width. */
  ghost predicate Crossing(h: seq<int>, beam: int, k: nat) {
    k < |h| && beam <= Sum(h, k + 1) && (k == 0 || Sum(h, k) < beam)
  }

  lemma CrossingIsUnique(h: seq<int>, beam: int, j: nat, k: nat)
    requires NonNegative(h) && Crossing(h, beam, j) && Crossing(h, beam, k)
    ensures j == k
  {
    if j < k {
      SumMonotone(h, j + 1, k);
    } else if k < j {
      SumMonotone(h, k + 1, j);
    }
  }

  /** The threshold a histogram selects: its crossing bin, or the maximum when the beam is never filled. */
  ghost predicate Selects(h: seq<int>, beam: int, t: u32) {
    Crossing(h, beam, t) || (t == U32_MAX && Sum(h, |h|) < beam)
  }

  method HistogramThreshold(hist: seq<u64>, beam: u64) returns (r: Result<u32, Error>)
    ensures |hist| != 307201 <==> r == Err(BadSize)
    ensures r.Ok? && r.value < |hist| ==>
              beam <= Sum(hist, r.value + 1) && forall t :: 0 < t <= r.value ==> Sum(hist, t) < beam
    ensures r.Ok? && r.value >= |hist| ==> r.value == 4294967295 && forall t :: 0 < t <= |hist| ==> Sum(hist, t) < beam
    ensures r.Ok? ==> Selects(hist, beam, r.value) && (r.value < |hist| ==> Sum(hist, r.value + 1) <= U64_MAX)
    ensures r.Err? && |hist| == SCORE_BIN_COUNT ==>
              r == Err(CumulativeOverflow) && exists k: nat :: Crossing(hist, beam, k) && Sum(hist, k + 1) > U64_MAX
  {
    if |hist| != SCORE_BIN_COUNT {
      return Err(BadSize);
    }
    var cumulative: u64 := 0;
    for score := 0 to SCORE_BIN_COUNT
      invariant cumulative == Sum(hist, score)
      invariant score == 0 || cumulative < beam
      invariant forall t :: 0 < t <= score ==> Sum(hist, t) < beam
    {
      assert Sum(hist, score + 1) == Sum(hist, score) + hist[score];
      if hist[score] > U64_MAX - cumulative {
        assert Crossing(hist, beam, score);
        return Err(CumulativeOverflow);
      }
      cumulative := cumulative + hist[score];
      if cumulative >= beam {
        return Ok(score);
      }
    }
    return Ok(U32_MAX);
  }

  /** A histogram that never counts more than another never selects a smaller threshold. */
  lemma SmallerCountsSelectLater(low: seq<int>, high: seq<int>, beam: int, tLow: u32, tHigh: u32)
    requires NonNegative(low) && NonNegative(high) && |low| == |high| < U32_MAX
    requires forall n :: 0 <= n <= |low| ==> Sum(low, n) <= Sum(high, n)
    requires Selects(low, beam, tLow) && Selects(high, beam, tHigh)
    ensures tHigh <= tLow
  {
    if Crossing(low, beam, tLow) {
      if tLow < |high| {
        assert beam <= Sum(high, tLow + 1);
        SumMonotone(high, tLow + 1, |high|);
        if Crossing(high, beam, tHigh) && tLow + 1 <= tHigh {
          SumMonotone(high, tLow + 1, tHigh);
        }
      }
    }
  }

  ghost predicate ConservativeSoFar(a: seq<int>, b: seq<int>, out: seq<int>) {
    && |out| <= |a| == |b|
    && forall n :: 0 <= n <= |out| ==> Sum(out, n) == Max(Sum(a, n), Sum(b, n))
  }

  /** Every prefix sum of the output is the larger of the two input prefix sums. */
  ghost predicate IsConservative(a: seq<int>, b: seq<int>, out: seq<int>) {
    |out| == |a| && ConservativeSoFar(a, b, out)
  }

  lemma ConservativeSnoc(a: seq<int>, b: seq<int>, out: seq<int>, bin: int)
    requires ConservativeSoFar(a, b, out) && |out| < |a|
    requires bin == Max(Sum(a, |out| + 1), Sum(b, |out| + 1)) - Max(Sum(a, |out|), Sum(b, |out|))
    ensures ConservativeSoFar(a, b, out + [bin])
  {
    forall n | 0 <= n <= |out| + 1 ensures Sum(out + [bin], n) == Max(Sum(a, n), Sum(b, n)) {
      SumPrefix(out + [bin], out, if n <= |out| then n else |out|);
    }
  }

  /** Bin `k` is where a running total first leaves 64 bits: the bins before it hold the union, the rest is
      as it was. */
  ghost predicate StoppedAt(a: seq<int>, b: seq<int>, before: seq<int>, after: seq<int>, k: nat) {
    && k < |a| == |b| == |before| == |after|
    && Sum(a, k) <= U64_MAX && Sum(b, k) <= U64_MAX && (Sum(a, k + 1) > U64_MAX || Sum(b, k + 1) > U64_MAX)
    && ConservativeSoFar(a, b, after[..k])
    && after[k..] == before[k..]
  }

  /** In place; `output` may be either input. On overflow exactly the bins before the failing one have been
      written. */
  method ConservativeUnionHistogram(a: array?<u64>, b: array?<u64>, bins: u32, output: array?<u64>)
    returns (error: Option<Error>)
    requires a != null ==> bins <= a.Length
    requires b != null ==> bins <= b.Length
    requires output != null ==> bins <= output.Length
    modifies if output == null then {} else {output}
    ensures error == Some(NullHistogram) <==> bins > 0 && (a == null || b == null || output == null)
    ensures bins > 0 && error != Some(NullHistogram) ==>
              (error == Some(CumulativeOverflow) <==>
                 Sum(old(a[..bins]), bins) > U64_MAX || Sum(old(b[..bins]), bins) > U64_MAX)
    ensures bins > 0 && error.None? ==>
              IsConservative(old(a[..bins]), old(b[..bins]), output[..bins])
    ensures bins > 0 && error.None? ==> forall n :: 0 <= n <= bins ==>
              && Sum(output[..bins], n) >= Sum(old(a[..bins]), n) && Sum(output[..bins], n) >= Sum(old(b[..bins]), n)
              && (Sum(output[..bins], n) == Sum(old(a[..bins]), n) || Sum(output[..bins], n) == Sum(old(b[..bins]), n))
    ensures error == Some(CumulativeOverflow) ==>
              bins > 0 && exists k :: StoppedAt(old(a[..bins]), old(b[..bins]), old(output[..bins]), output[..bins], k)
    ensures error == Some(NullHistogram) ==> output != null ==> output[..] == old(output[..])
    ensures error.None? || error == Some(NullHistogram) || error == Some(CumulativeOverflow)
    ensures output != null ==> forall i :: bins <= i < output.Length ==> output[i] == old(output[i])
  {
    if bins == 0 {
      return None;
    }
    if a == null || b == null || output == null {
      return Some(NullHistogram);
    }
    ghost var A, B, O := a[..bins], b[..bins], output[..bins];
    var ca: u64, cb: u64, previous: u64 := 0, 0, 0;
    for i := 0 to bins
      invariant ca == Sum(A, i) && cb == Sum(B, i) && previous == Max(ca, cb)
      invariant forall k :: i <= k < bins ==> a[k] == A[k] && b[k] == B[k]
      invariant forall k :: i <= k < output.Length ==> output[k] == old(output[k])
      invariant ConservativeSoFar(A, B, output[..i])
    {
      assert Sum(A, i + 1) == Sum(A, i) + A[i] && Sum(B, i + 1) == Sum(B, i) + B[i];
      if a[i] > U64_MAX - ca || b[i] > U64_MAX - cb {
        SumMonotone(A, i + 1, bins);
        SumMonotone(B, i + 1, bins);
        assert output[..bins][..i] == output[..i];
        assert StoppedAt(A, B, O, output[..bins], i);
        return Some(CumulativeOverflow);
      }
      ca := ca + a[i];
      cb := cb + b[i];
      var lower := if ca < cb then cb else ca;
      ghost var before := output[..i];
      output[i] := lower - previous;
      previous := lower;
      assert output[..i + 1] == before + [output[i]];
      ConservativeSnoc(A, B, before, output[i]);
    }
    return None;
  }

  /** The totals 1, then 2^64 - 1 more, against an empty histogram: bin 0 has been written when the error is
      raised. */
  method OverflowCanFollowAWrite() returns (error: Option<Error>, before: seq<u64>, after: seq<u64>)
    ensures error == Some(CumulativeOverflow) && before == [0, 0] && after == [1, 0]
  {
    var a, b, output := new u64[2], new u64[2], new u64[2];
    a[0], a[1], b[0], b[1], output[0], output[1] := 1, U64_MAX, 0, 0, 0, 0;
    before := output[..];
    ghost var A, B, O := a[..2], b[..2], output[..2];
    error := ConservativeUnionHistogram(a, b, 2, output);
    after := output[..];
    TwoBins(A);
    TwoBins(B);
    ghost var k :| StoppedAt(A, B, O, output[..2], k);
    assert Sum(output[..2][..1], 1) == Sum(output[..2][..1], 0) + output[0];
  }

  lemma TwoBins(h: seq<int>)
    requires |h| == 2
    ensures Sum(h, 1) == h[0] && Sum(h, 2) == h[0] + h[1]
  {
    assert Sum(h, 1) == Sum(h, 0) + h[0];
  }

  // ---- what a histogram says about candidates ----

  ghost function WithScore(S: set<Candidate>, score: int): set<Candidate> {
    set c | c in S && c.score == score
  }

  /** The published histogram of a bank: one count per score bin. */
  ghost predicate Counts(S: set<Candidate>, h: seq<int>) {
    |h| == SCORE_BIN_COUNT && forall i :: 0 <= i < |h| ==> h[i] == |WithScore(S, i)|
  }

  lemma {:induction false} CumulativeCount(S: set<Candidate>, h: seq<int>, n: nat)
    requires Counts(S, h) && n <= |h|
    ensures Sum(h, n) == |AtMost(S, n - 1)|
  {
    if n > 0 {
      CumulativeCount(S, h, n - 1);
      assert AtMost(S, n - 1) == AtMost(S, n - 2) + WithScore(S, n - 1);
    } else {
      assert AtMost(S, -1) == {};
    }
  }

  /** A histogram that nowhere counts more hashes than `S` really has at or below that score. */
  ghost predicate LowerBound(h: seq<int>, S: set<Candidate>) {
    && |h| == SCORE_BIN_COUNT && NonNegative(h)
    && forall n :: 0 <= n <= |h| ==> Sum(h, n) <= |HashesAtMost(S, n - 1)|
  }

  lemma UniqueBankIsLowerBound(S: set<Candidate>, h: seq<int>)
    requires UniqueHashes(S) && Counts(S, h)
    ensures LowerBound(h, S)
  {
    forall n | 0 <= n <= |h| ensures Sum(h, n) <= |HashesAtMost(S, n - 1)| {
      CumulativeCount(S, h, n);
      UniqueCount(S, n - 1);
    }
  }

  lemma LowerBoundGrows(h: seq<int>, S: set<Candidate>, S': set<Candidate>)
    requires LowerBound(h, S) && S <= S'
    ensures LowerBound(h, S')
  {
    forall n | 0 <= n <= |h| ensures Sum(h, n) <= |HashesAtMost(S', n - 1)| {
      HashesMonotone(S, S', n - 1);
    }
  }

  /** The maximum of two cumulative lower bounds is one too; the pointwise sum would not be. */
  lemma ConservativeIsLowerBound(a: seq<int>, b: seq<int>, out: seq<int>, S: set<Candidate>)
    requires LowerBound(a, S) && LowerBound(b, S) && IsConservative(a, b, out)
    ensures LowerBound(out, S)
  {
    forall i | 0 <= i < |out| ensures 0 <= out[i] {
      SumMonotone(a, i, i + 1);
      SumMonotone(b, i, i + 1);
      assert Sum(out, i + 1) == Sum(out, i) + out[i];
    }
  }

  /** Conservative selection over two internally unique banks is never below exact selection over their union. */
  lemma ConservativeThresholdIsNotBelowExact(A: set<Candidate>, B: set<Candidate>, a: seq<int>, b: seq<int>,
                                             safe: seq<int>, exact: seq<int>, beam: nat, tSafe: u32, tExact: u32)
    requires UniqueHashes(A) && UniqueHashes(B) && Counts(A, a) && Counts(B, b)
    requires IsConservative(a, b, safe) && Counts(Best(A + B), exact)
    requires Selects(safe, beam, tSafe) && Selects(exact, beam, tExact)
    ensures tExact <= tSafe
  {
    UniqueBankIsLowerBound(A, a);
    UniqueBankIsLowerBound(B, b);
    LowerBoundGrows(a, A, A + B);
    LowerBoundGrows(b, B, A + B);
    ConservativeIsLowerBound(a, b, safe, A + B);
    forall n | 0 <= n <= |safe| ensures Sum(safe, n) <= Sum(exact, n) {
      CumulativeCount(Best(A + B), exact, n);
      BestIsUnique(A + B);
      UniqueCount(Best(A + B), n - 1);
      BestHashes(A + B, n - 1);
    }
    SmallerCountsSelectLater(safe, exact, beam, tSafe, tExact);
  }

  /** A threshold selected from a lower bound is safe. */
  lemma SelectedIsSafe(h: seq<int>, S: set<Candidate>, beam: nat, t: u32)
    requires LowerBound(h, S) && Selects(h, beam, t)
    ensures Safe(S, beam, t)
  {
  }

  // ---- adding histograms of disjoint domains ----

  function Column(hs: seq<seq<int>>, i: nat): int
    requires forall k :: 0 <= k < |hs| ==> i < |hs[k]|
  {
    if hs == [] then 0 else Column(hs[..|hs| - 1], i) + hs[|hs| - 1][i]
  }

  /** The bin-wise sum, over shards or (the all-reduce) over ranks. */
  ghost predicate IsTotal(hs: seq<seq<int>>, total: seq<int>) {
    && (forall k :: 0 <= k < |hs| ==> |hs[k]| == |total|)
    && forall i :: 0 <= i < |total| ==> total[i] == Column(hs, i)
  }

  ghost function InDomain(S: set<Candidate>, domain: Hash128 -> nat, k: nat): set<Candidate> {
    set c | c in S && domain(c.hash) == k
  }

  ghost function BelowDomain(S: set<Candidate>, domain: Hash128 -> nat, k: nat): set<Candidate> {
    set c | c in S && domain(c.hash) < k
  }

  /** Disjoint hash domains may be added: each hash is counted in one of them only. */
  lemma {:induction false} TotalIsLowerBound(hs: seq<seq<int>>, total: seq<int>, S: set<Candidate>,
                                             domain: Hash128 -> nat)
    requires IsTotal(hs, total) && |total| == SCORE_BIN_COUNT
    requires forall k :: 0 <= k < |hs| ==> LowerBound(hs[k], InDomain(S, domain, k))
    ensures LowerBound(total, BelowDomain(S, domain, |hs|))
    decreases |hs|
  {
    if hs == [] {
      forall n | 0 <= n <= |total| ensures Sum(total, n) == 0 {
        ZeroSum(total, n);
      }
    } else {
      var m := |hs| - 1;
      var front := seq(|total|, (i: nat) requires i < |total| => total[i] - hs[m][i]);
      TotalIsLowerBound(hs[..m], front, S, domain);
      assert forall i :: 0 <= i < |total| ==> total[i] == front[i] + hs[m][i];
      forall n | 0 <= n <= |total| ensures Sum(total, n) <= |HashesAtMost(BelowDomain(S, domain, m + 1), n - 1)| {
        SumSplits(front, hs[m], total, n);
        var below, own := HashesAtMost(BelowDomain(S, domain, m), n - 1), HashesAtMost(InDomain(S, domain, m), n - 1);
        assert HashesAtMost(BelowDomain(S, domain, m + 1), n - 1) == below + own;
        assert below * own == {};
      }
    }
  }

  lemma {:induction false} ZeroSum(h: seq<int>, n: nat)
    requires n <= |h| && forall i :: 0 <= i < |h| ==> h[i] == 0
    ensures Sum(h, n) == 0
  {
    if n > 0 {
      ZeroSum(h, n - 1);
    }
  }

  lemma {:induction false} SumSplits(a: seq<int>, b: seq<int>, t: seq<int>, n: nat)
    requires |a| == |b| == |t| && n <= |t| && forall i :: 0 <= i < |t| ==> t[i] == a[i] + b[i]
    ensures Sum(t, n) == Sum(a, n) + Sum(b, n)
  {
    if n > 0 {
      SumSplits(a, b, t, n - 1);
    }
  }
}
