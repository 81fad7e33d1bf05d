/** Compacting one depth of history against the next (tools/history/candidate_history.hpp, prune_adjacent_depths). */
module PruneAdjacent {
  import opened Candidates
  import opened Wrappers

  datatype Entry = Entry(parent: u64, route: u32)

  datatype Pruned = Pruned(previous: seq<Entry>, current: seq<Entry>)

  const INVALID: u32 := U32_MAX

  ghost predicate ParentsWithin(current: seq<Entry>, size: nat) {
    forall i :: 0 <= i < |current| ==> current[i].parent < size
  }

  ghost predicate Referenced(current: seq<Entry>, p: nat) {
    exists i :: 0 <= i < |current| && current[i].parent == p
  }

  /** The parent indices that occur. */
  function Parents(entries: seq<Entry>): set<u64> {
    set e | e in entries :: e.parent
  }

  /** Every entry of the earlier depth is the parent of one of the later depth. */
  ghost predicate AllUsed(previous: seq<Entry>, current: seq<Entry>) {
    forall i: u64 :: i < |previous| ==> i in Parents(current)
  }

  ghost predicate Increasing(kept: seq<nat>) {
    forall a, b :: 0 <= a < b < |kept| ==> kept[a] < kept[b]
  }

  /** `kept` lists, in order, exactly the previous entries some current entry refers to; the compacted
      depth holds those entries, and every current entry still refers to the entry it did before. */
  ghost predicate PrunedBy(previous: seq<Entry>, current: seq<Entry>, r: Pruned, kept: seq<nat>) {
    && |r.previous| == |kept| <= |previous| && |r.current| == |current|
    && Increasing(kept)
    && (forall k :: 0 <= k < |kept| ==>
         kept[k] < |previous| && Referenced(current, kept[k]) && r.previous[k] == previous[kept[k]])
    && (forall i :: 0 <= i < |current| ==>
          && r.current[i].route == current[i].route
          && r.current[i].parent < |kept| && kept[r.current[i].parent] == current[i].parent)
  }

  /** After pruning, no entry of the previous depth is left without a child. */
  lemma PrunedIsFull(previous: seq<Entry>, current: seq<Entry>, r: Pruned, kept: seq<nat>, k: nat)
    requires PrunedBy(previous, current, r, kept) && k < |r.previous|
    ensures Referenced(r.current, k)
  {
    var i :| 0 <= i < |current| && current[i].parent == kept[k];
    var j := r.current[i].parent;
    assert kept[j] == kept[k];
    assert j == k;
  }

  /** Exactly the parents read so far are marked. */
  ghost predicate Marked(current: seq<Entry>, n: nat, remap: seq<u32>) {
    && n <= |current|
    && forall p :: 0 <= p < |remap| ==>
         (remap[p] == 1 <==> Referenced(current[..n], p)) && (remap[p] == 1 || remap[p] == INVALID)
  }

  lemma MarkOne(current: seq<Entry>, n: nat, remap: seq<u32>)
    requires n < |current| && current[n].parent < |remap| && Marked(current, n, remap)
    ensures Marked(current, n + 1, remap[current[n].parent := 1])
  {
    var shorter, longer := current[..n], current[..n + 1];
    assert forall i :: 0 <= i < n ==> longer[i] == shorter[i];
    forall p | 0 <= p < |remap| ensures Referenced(longer, p) <==> Referenced(shorter, p) || p == current[n].parent {
      if Referenced(shorter, p) {
        var i :| 0 <= i < |shorter| && shorter[i].parent == p;
        assert longer[i].parent == p;
      }
      if p == current[n].parent {
        assert longer[n].parent == p;
      }
      if Referenced(longer, p) && p != current[n].parent {
        var i :| 0 <= i < |longer| && longer[i].parent == p;
        assert shorter[i].parent == p;
      }
    }
  }

  /** The first `i` previous entries have been compacted; the rest still carry their marks. */
  ghost predicate Compacted(previous: seq<Entry>, current: seq<Entry>, i: nat, remap: seq<u32>,
                            compact: seq<Entry>, kept: seq<nat>)
  {
    && i <= |previous| == |remap| && |compact| == |kept| <= i
    && Increasing(kept)
    && (forall k :: 0 <= k < |kept| ==> kept[k] < i && compact[k] == previous[kept[k]] && remap[kept[k]] == k)
    && (forall k :: 0 <= k < |kept| ==> Referenced(current, kept[k]))
    && (forall p :: 0 <= p < i && Referenced(current, p) ==> remap[p] < |kept| && kept[remap[p]] == p)
    && (forall p :: i <= p < |remap| ==> (remap[p] != INVALID <==> Referenced(current, p)))
  }

  method PruneAdjacentDepths(previous: seq<Entry>, current: seq<Entry>)
    returns (r: Option<Pruned>, ghost kept: seq<nat>)
    requires |previous| <= U32_MAX
    ensures r.None? <==> !ParentsWithin(current, |previous|)
    ensures r.Some? ==> PrunedBy(previous, current, r.value, kept)
    ensures r.None? <==> exists i :: 0 <= i < |current| && current[i].parent >= |previous|
    ensures r.Some? ==> |r.value.current| == |current| && forall i :: 0 <= i < |current| ==>
              && r.value.current[i].route == current[i].route && r.value.current[i].parent < |r.value.previous|
              && r.value.previous[r.value.current[i].parent] == previous[current[i].parent]
    ensures r.Some? ==> AllUsed(r.value.previous, r.value.current)
  {
    r, kept := Compact(previous, current);
    if r.Some? {
      forall k: u64 | k < |r.value.previous| ensures k in Parents(r.value.current) {
        PrunedIsFull(previous, current, r.value, kept, k);
      }
    }
  }

  /** Mark, compact, renumber. */
  method Compact(previous: seq<Entry>, current: seq<Entry>) returns (r: Option<Pruned>, ghost kept: seq<nat>)
    requires |previous| <= U32_MAX
    ensures r.None? <==> !ParentsWithin(current, |previous|)
    ensures r.Some? ==> PrunedBy(previous, current, r.value, kept)
  {
    kept := [];
    var remap: seq<u32> := seq(|previous|, _ => INVALID);
    for n := 0 to |current|
      invariant |remap| == |previous| && Marked(current, n, remap)
      invariant ParentsWithin(current[..n], |previous|)
    {
      if current[n].parent >= |previous| {
        return None, kept;
      }
      MarkOne(current, n, remap);
      remap := remap[current[n].parent := 1];
    }
    assert current[..|current|] == current;

    var compact: seq<Entry> := [];
    for i := 0 to |previous|
      invariant Compacted(previous, current, i, remap, compact, kept)
    {
      if remap[i] != INVALID {
        remap := remap[i := |compact|];
        compact := compact + [previous[i]];
        kept := kept + [i];
      }
    }

    var renumbered: seq<Entry> := [];
    for i := 0 to |current|
      invariant |renumbered| == i
      invariant forall k :: 0 <= k < i ==> renumbered[k] == Entry(remap[current[k].parent], current[k].route)
    {
      renumbered := renumbered + [Entry(remap[current[i].parent], current[i].route)];
    }
    forall i | 0 <= i < |current| ensures Referenced(current, current[i].parent) {
    }
    return Some(Pruned(compact, renumbered)), kept;
  }
}
