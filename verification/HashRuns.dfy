/** The deduplication loop shared by Stream3 and Stream4: sort by hash, keep the first of each run. */
module HashRuns {
  import opened Candidates
  import Sorting

  /** `less` is a strict weak order that compares hashes first. */
  ghost predicate HashFirst<T(!new)>(less: (T, T) -> bool, hashOf: T -> Hash128) {
    && Sorting.StrictWeakOrder(less)
    && forall a, b :: hashOf(a) != hashOf(b) ==> (less(a, b) <==> HashLess(hashOf(a), hashOf(b)))
  }

  ghost predicate IncreasingHashes<T>(s: seq<T>, hashOf: T -> Hash128) {
    forall i, j :: 0 <= i < j < |s| ==> HashLess(hashOf(s[i]), hashOf(s[j]))
  }

  ghost predicate Leader<T(!new)>(s: seq<T>, c: T, less: (T, T) -> bool, hashOf: T -> Hash128) {
    c in s && forall d :: d in s && hashOf(d) == hashOf(c) ==> !less(d, c)
  }

  ghost function Hashes<T>(s: seq<T>, hashOf: T -> Hash128): set<Hash128> {
    set m | 0 <= m < |s| :: hashOf(s[m])
  }

  /** `kept` is what remains after reading the first `i` items of `sorted`. */
  ghost predicate Firsts<T(!new)>(sorted: seq<T>, i: nat, kept: seq<T>, less: (T, T) -> bool, hashOf: T -> Hash128) {
    && i <= |sorted| && |kept| <= i
    && (kept == [] <==> i == 0)
    && (i > 0 ==> hashOf(kept[|kept| - 1]) == hashOf(sorted[i - 1]))
    && IncreasingHashes(kept, hashOf)
    && (forall m :: 0 <= m < |kept| ==> Leader(sorted, kept[m], less, hashOf))
    && Hashes(kept, hashOf) == Hashes(sorted[..i], hashOf)
  }

  lemma RunStart<T(!new)>(sorted: seq<T>, i: nat, less: (T, T) -> bool, hashOf: T -> Hash128)
    requires HashFirst(less, hashOf) && Sorting.SortedBy(sorted, less) && i < |sorted|
    requires i == 0 || hashOf(sorted[i - 1]) != hashOf(sorted[i])
    ensures Leader(sorted, sorted[i], less, hashOf)
    ensures i > 0 ==> HashLess(hashOf(sorted[i - 1]), hashOf(sorted[i]))
  {
    assert i > 0 ==> !less(sorted[i], sorted[i - 1]);
    forall j | 0 <= j < i ensures HashLess(hashOf(sorted[j]), hashOf(sorted[i])) {
      if j < i - 1 {
        assert !less(sorted[i - 1], sorted[j]);
      }
    }
    forall j | i < j < |sorted| ensures !less(sorted[j], sorted[i]) {
    }
    forall d | d in sorted && hashOf(d) == hashOf(sorted[i]) ensures !less(d, sorted[i]) {
      var j :| 0 <= j < |sorted| && sorted[j] == d;
    }
  }

  lemma HashesSnoc<T>(s: seq<T>, c: T, hashOf: T -> Hash128)
    ensures Hashes(s + [c], hashOf) == Hashes(s, hashOf) + {hashOf(c)}
  {
    var t := s + [c];
    forall h | h in Hashes(s, hashOf) + {hashOf(c)} ensures h in Hashes(t, hashOf) {
      if h == hashOf(c) {
        assert hashOf(t[|s|]) == h;
      } else {
        var m :| 0 <= m < |s| && hashOf(s[m]) == h;
        assert hashOf(t[m]) == h;
      }
    }
    forall h | h in Hashes(t, hashOf) ensures h in Hashes(s, hashOf) + {hashOf(c)} {
      var m :| 0 <= m < |t| && hashOf(t[m]) == h;
      assert m < |s| ==> hashOf(s[m]) == h;
    }
  }

  lemma KeepNew<T(!new)>(sorted: seq<T>, i: nat, kept: seq<T>, less: (T, T) -> bool, hashOf: T -> Hash128)
    requires HashFirst(less, hashOf) && Sorting.SortedBy(sorted, less)
    requires i < |sorted| && Firsts(sorted, i, kept, less, hashOf)
    requires kept == [] || hashOf(kept[|kept| - 1]) != hashOf(sorted[i])
    ensures Firsts(sorted, i + 1, kept + [sorted[i]], less, hashOf)
  {
    RunStart(sorted, i, less, hashOf);
    assert sorted[..i + 1] == sorted[..i] + [sorted[i]];
    HashesSnoc(sorted[..i], sorted[i], hashOf);
    HashesSnoc(kept, sorted[i], hashOf);
  }

  lemma SkipRepeat<T(!new)>(sorted: seq<T>, i: nat, kept: seq<T>, less: (T, T) -> bool, hashOf: T -> Hash128)
    requires i < |sorted| && Firsts(sorted, i, kept, less, hashOf)
    requires kept != [] && hashOf(kept[|kept| - 1]) == hashOf(sorted[i])
    ensures Firsts(sorted, i + 1, kept, less, hashOf)
  {
    assert sorted[..i + 1] == sorted[..i] + [sorted[i]];
    HashesSnoc(sorted[..i], sorted[i], hashOf);
    assert hashOf(sorted[i]) in Hashes(kept, hashOf);
  }

  /** Increasing hashes, only leaders, and every hash represented. */
  method KeepFirsts<T(!new, ==)>(sorted: seq<T>, less: (T, T) -> bool, hashOf: T -> Hash128) returns (kept: seq<T>)
    requires HashFirst(less, hashOf) && Sorting.SortedBy(sorted, less)
    ensures IncreasingHashes(kept, hashOf) && |kept| <= |sorted|
    ensures forall m :: 0 <= m < |kept| ==> Leader(sorted, kept[m], less, hashOf)
    ensures Hashes(kept, hashOf) == Hashes(sorted, hashOf)
  {
    kept := [];
    for i := 0 to |sorted|
      invariant Firsts(sorted, i, kept, less, hashOf)
    {
      if kept == [] || hashOf(kept[|kept| - 1]) != hashOf(sorted[i]) {
        KeepNew(sorted, i, kept, less, hashOf);
        kept := kept + [sorted[i]];
      } else {
        SkipRepeat(sorted, i, kept, less, hashOf);
      }
    }
    assert sorted[..|sorted|] == sorted;
  }
}
