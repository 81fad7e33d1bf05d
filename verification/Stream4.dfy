/** Threshold, sort and deduplicate one logical shard (src/stream4.cpp, src/unique_frontier_reference.hpp). */
module Stream4 {
  import opened Candidates
  import opened Frontier
  import opened Sets
  import HashRuns
  import Sorting

  /** The whole meaning of a Stream4 result: a bank holding the best candidate of each surviving hash. */
  ghost predicate Stream4Out(input: seq<Candidate>, threshold: u32, out: seq<Candidate>) {
    IsBank(out) && Elems(out) == Best(AtMost(Elems(input), threshold))
  }

  /** The result without `Best` and `IsBank`: hashes increase as numbers, every entry is an input at or below
      the threshold that is lowest in (score, parent, route) among those of its hash, and no hash is missing. */
  ghost predicate MergedInNumbers(input: seq<Candidate>, threshold: u32, out: seq<Candidate>) {
    && IncreasingNumbers(out)
    && (forall c :: c in out ==> c in input && c.score <= threshold)
    && (forall c, d :: c in out && d in input && d.hash == c.hash && d.score <= threshold ==>
          || c.score < d.score
          || (c.score == d.score && (c.parent < d.parent || (c.parent == d.parent && c.route <= d.route))))
    && (set d | d in input && d.score <= threshold :: d.hash) <= (set c | c in out :: c.hash)
  }

  lemma MergeIsNumeric(input: seq<Candidate>, threshold: u32, out: seq<Candidate>)
    ensures Stream4Out(input, threshold, out) <==> MergedInNumbers(input, threshold, out)
  {
    var S := AtMost(Elems(input), threshold);
    assert forall c :: c in S <==> c in input && c.score <= threshold;
    BankIsNumeric(out);
    if Stream4Out(input, threshold, out) {
      MergedIsLowest(input, threshold, out);
    }
    if MergedInNumbers(input, threshold, out) {
      LowestIsMerged(input, threshold, out);
    }
  }

  lemma MergedIsLowest(input: seq<Candidate>, threshold: u32, out: seq<Candidate>)
    requires Stream4Out(input, threshold, out)
    ensures MergedInNumbers(input, threshold, out)
  {
    var S := AtMost(Elems(input), threshold);
    BankIsNumeric(out);
    forall c | c in out ensures c in Best(S) {
      assert c in Elems(out);
    }
    forall c, d | c in out && d in input && d.hash == c.hash && d.score <= threshold
      ensures || c.score < d.score
              || (c.score == d.score && (c.parent < d.parent || (c.parent == d.parent && c.route <= d.route)))
    {
      assert d in S;
      QualityIsNumeric(d, c);
    }
    forall d | d in input && d.score <= threshold ensures d.hash in set c | c in out :: c.hash {
      var b := BestCovers(S, d);
      assert b in Elems(out);
    }
  }

  lemma LowestIsMerged(input: seq<Candidate>, threshold: u32, out: seq<Candidate>)
    requires MergedInNumbers(input, threshold, out)
    ensures Stream4Out(input, threshold, out)
  {
    BankIsNumeric(out);
    forall c | c in out ensures c in Best(AtMost(Elems(input), threshold)) {
      EntryIsBest(input, threshold, out, c);
    }
    forall b | b in Best(AtMost(Elems(input), threshold)) ensures b in out {
      BestIsEntry(input, threshold, out, b);
    }
  }

  lemma EntryIsBest(input: seq<Candidate>, threshold: u32, out: seq<Candidate>, c: Candidate)
    requires MergedInNumbers(input, threshold, out) && c in out
    ensures c in Best(AtMost(Elems(input), threshold))
  {
    forall d | d in AtMost(Elems(input), threshold) && d.hash == c.hash ensures !Better(d, c) {
      QualityIsNumeric(d, c);
    }
  }

  lemma BestIsEntry(input: seq<Candidate>, threshold: u32, out: seq<Candidate>, b: Candidate)
    requires MergedInNumbers(input, threshold, out) && b in Best(AtMost(Elems(input), threshold))
    ensures b in out
  {
    var wanted, kept := set d | d in input && d.score <= threshold :: d.hash, set c | c in out :: c.hash;
    assert b.hash in wanted && wanted <= kept;
    var c :| c in out && c.hash == b.hash;
    EntryIsBest(input, threshold, out, c);
    BestIsUnique(AtMost(Elems(input), threshold));
  }

  function HashOf(c: Candidate): Hash128 {
    c.hash
  }

  lemma MergeLessIsHashFirst()
    ensures HashRuns.HashFirst(MergeLess, HashOf)
  {
  }

  method ThresholdSortDedup(cleanAndDirty: seq<Candidate>, threshold: u32) returns (output: seq<Candidate>)
    ensures Stream4Out(cleanAndDirty, threshold, output)
    ensures MergedInNumbers(cleanAndDirty, threshold, output)
  {
    var filtered: seq<Candidate> := [];
    for i := 0 to |cleanAndDirty|
      invariant Elems(filtered) == AtMost(Elems(cleanAndDirty[..i]), threshold)
    {
      var candidate := cleanAndDirty[i];
      AtMostSnoc(cleanAndDirty, i, threshold);
      if candidate.score <= threshold {
        ElemsSnoc(filtered, candidate);
        filtered := filtered + [candidate];
      }
    }
    assert cleanAndDirty[..|cleanAndDirty|] == cleanAndDirty;
    MergeLessIsHashFirst();
    var sorted := Sorting.Sort(filtered, MergeLess);
    Sorting.SameElements(sorted, filtered);
    assert Elems(sorted) == Elems(filtered);

    output := HashRuns.KeepFirsts(sorted, MergeLess, HashOf);
    LeadersAreBest(sorted, output);
    MergeIsNumeric(cleanAndDirty, threshold, output);
  }

  lemma AtMostSnoc(s: seq<Candidate>, i: nat, t: int)
    requires i < |s|
    ensures AtMost(Elems(s[..i + 1]), t) == AtMost(Elems(s[..i]), t) + (if s[i].score <= t then {s[i]} else {})
  {
    assert s[..i + 1] == s[..i] + [s[i]];
    ElemsSnoc(s[..i], s[i]);
  }

  lemma LeadersAreBest(sorted: seq<Candidate>, output: seq<Candidate>)
    requires forall m :: 0 <= m < |output| ==> HashRuns.Leader(sorted, output[m], MergeLess, HashOf)
    requires HashRuns.Hashes(output, HashOf) == HashRuns.Hashes(sorted, HashOf)
    ensures Elems(output) == Best(Elems(sorted))
  {
    forall m | 0 <= m < |output| ensures output[m] in Best(Elems(sorted)) {
      assert HashRuns.Leader(sorted, output[m], MergeLess, HashOf);
    }
    BestIsUnique(Elems(sorted));
    forall c | c in Best(Elems(sorted)) ensures c in output {
      var k :| 0 <= k < |sorted| && sorted[k] == c;
      assert HashOf(sorted[k]) in HashRuns.Hashes(output, HashOf);
      var m :| 0 <= m < |output| && HashOf(output[m]) == HashOf(sorted[k]);
      assert output[m] in Best(Elems(sorted));
    }
  }

  ghost predicate UnionOut(a: seq<Candidate>, b: seq<Candidate>, r: seq<Candidate>) {
    IsBank(r) && Elems(r) == Best(Elems(a) + Elems(b))
  }

  /** The oracle union of two banks: concatenate, then deduplicate without a threshold. */
  method UniqueUnionReference(a: seq<Candidate>, b: seq<Candidate>) returns (r: seq<Candidate>)
    ensures UnionOut(a, b, r)
  {
    var combined := a + b;
    r := ThresholdSortDedup(combined, U32_MAX);
    assert AtMost(Elems(combined), U32_MAX) == Elems(a) + Elems(b);
  }

  /** The result depends on which candidates were given, not on their order or multiplicity. */
  lemma OrderIndependent(s: seq<Candidate>, s': seq<Candidate>, t: u32, out: seq<Candidate>, out': seq<Candidate>)
    requires Elems(s) == Elems(s') && Stream4Out(s, t, out) && Stream4Out(s', t, out')
    ensures out == out'
  {
    BankIsDeterminedByElements(out, out');
  }

  /** Merging new candidates into an already merged bank equals merging everything at once;
      a bank merged at the looser threshold `t` may be merged again at any threshold up to `t`. */
  lemma IncrementalMerge(a: seq<Candidate>, b: seq<Candidate>, t: u32, t': u32,
                         bank: seq<Candidate>, stepwise: seq<Candidate>, atOnce: seq<Candidate>)
    requires t' <= t && Stream4Out(a, t, bank)
    requires Stream4Out(bank + b, t', stepwise) && Stream4Out(a + b, t', atOnce)
    ensures stepwise == atOnce
  {
    var A, B := Elems(a), Elems(b);
    calc {
      Best(AtMost(Elems(bank + b), t'));
      { assert Elems(bank + b) == Elems(bank) + B; }
      Best(AtMost(Best(AtMost(A, t)) + B, t'));
      { assert AtMost(Best(AtMost(A, t)) + B, t') == AtMost(Best(AtMost(A, t)), t') + AtMost(B, t'); }
      Best(AtMost(Best(AtMost(A, t)), t') + AtMost(B, t'));
      { BestOfThreshold(AtMost(A, t), t'); assert AtMost(AtMost(A, t), t') == AtMost(A, t'); }
      Best(Best(AtMost(A, t')) + AtMost(B, t'));
      { BestAbsorbs(AtMost(A, t'), AtMost(B, t')); }
      Best(AtMost(A, t') + AtMost(B, t'));
      { assert AtMost(Elems(a + b), t') == AtMost(A, t') + AtMost(B, t'); }
      Best(AtMost(Elems(a + b), t'));
    }
    BankIsDeterminedByElements(stepwise, atOnce);
  }

  /** Running Stream4 on its own result, at the same or a looser threshold, changes nothing. */
  lemma Idempotent(a: seq<Candidate>, t: u32, t': u32, bank: seq<Candidate>, again: seq<Candidate>)
    requires t <= t' && Stream4Out(a, t, bank) && Stream4Out(bank, t', again)
    ensures again == bank
  {
    BestIdempotent(AtMost(Elems(a), t));
    assert AtMost(Elems(bank), t') == Elems(bank);
    BankIsDeterminedByElements(again, bank);
  }

  lemma UnionCommutes(a: seq<Candidate>, b: seq<Candidate>, ab: seq<Candidate>, ba: seq<Candidate>)
    requires UnionOut(a, b, ab) && UnionOut(b, a, ba)
    ensures ab == ba
  {
    assert Elems(a) + Elems(b) == Elems(b) + Elems(a);
    BankIsDeterminedByElements(ab, ba);
  }

  lemma UnionAssociates(a: seq<Candidate>, b: seq<Candidate>, c: seq<Candidate>,
                        ab: seq<Candidate>, left: seq<Candidate>, bc: seq<Candidate>, right: seq<Candidate>)
    requires UnionOut(a, b, ab) && UnionOut(ab, c, left)
    requires UnionOut(b, c, bc) && UnionOut(a, bc, right)
    ensures left == right
  {
    var A, B, C := Elems(a), Elems(b), Elems(c);
    BestAbsorbs(A + B, C);
    BestAbsorbs(B + C, A);
    assert A + B + C == B + C + A && A + Best(B + C) == Best(B + C) + A;
    BankIsDeterminedByElements(left, right);
  }
}
