/** Where a static-hybrid history keeps its depths, as values: two arenas, planned and fallback ranges
    (tools/history/candidate_history.hpp, static-hybrid mode). */
module HybridState {
  import opened Candidates
  import opened HistoryBudget
  import opened HistoryState
  import opened PruneAdjacent
  import opened Wrappers

  datatype Located = Located(arena: Location, offset: nat)

  datatype Work = Work(depth: nat, host: seq<Candidate>, location: Option<Located>)

  /** The flags of a slot and its writer as one enumeration. `Broken` is a writer that has thrown. */
  datatype HybridSlot =
    | Free | Acquired | Copying(work: Work) | Writing(work: Work)
    | Written(work: Work, result: Located) | Broken(work: Work)

  /** The fields of the store, then what the proofs remember: the committed entries, the range each depth
      lives in now, and whether its entries have been written there. */
  datatype Hybrid = Hybrid(
    plan: Plan, beam: nat, moves: nat,
    counts: seq<nat>, locations: seq<Located>, ready: seq<bool>, slots: seq<HybridSlot>, ramUsed: nat,
    ram: seq<Entry>, disk: seq<Entry>,
    committed: seq<Depth>, at: seq<Located>, written: seq<bool>)
  {
    ghost predicate Sized() {
      |committed| == |counts| == |locations| == |ready| == |at| == |written| <= |plan.depths|
    }

    function Arena(l: Location): seq<Entry> {
      if l == Ram then ram else disk
    }
  }

  /** The entries of the first `n` depths that were planned for disk and live in RAM now. */
  function Moved(planned: seq<Reservation>, at: seq<Located>, counts: seq<nat>, n: nat): nat
    requires n <= |at| == |counts| <= |planned|
  {
    if n == 0 then 0
    else
      var moved := planned[n - 1].location == Disk && at[n - 1].arena == Ram;
      Moved(planned, at, counts, n - 1) + if moved then counts[n - 1] else 0
  }

  lemma {:induction false} MovedPrefix(planned: seq<Reservation>, at: seq<Located>, counts: seq<nat>,
                                       at': seq<Located>, counts': seq<nat>, n: nat)
    requires n <= |at| == |counts| <= |planned| && n <= |at'| == |counts'| <= |planned|
    requires forall d :: 0 <= d < n ==> at[d].arena == at'[d].arena && counts[d] == counts'[d]
    ensures Moved(planned, at, counts, n) == Moved(planned, at', counts', n)
  {
    if n > 0 {
      MovedPrefix(planned, at, counts, at', counts', n - 1);
    }
  }

  lemma {:induction false} MovedUpdate(planned: seq<Reservation>, at: seq<Located>, counts: seq<nat>, n: nat, d: nat,
                                       here: Located)
    requires d < n <= |at| == |counts| <= |planned|
    requires planned[d].location == Disk && at[d].arena == Disk && here.arena == Ram
    ensures Moved(planned, at[d := here], counts, n) == Moved(planned, at, counts, n) + counts[d]
  {
    if d < n - 1 {
      MovedUpdate(planned, at, counts, n - 1, d, here);
    } else {
      MovedPrefix(planned, at, counts, at[d := here], counts, n - 1);
    }
  }

  /** The RAM tail handed out is exactly what the moved depths hold. */
  ghost predicate TailIsMoved(h: Hybrid)
    requires h.Sized()
  {
    h.ramUsed == h.plan.ram + Moved(h.plan.depths, h.at, h.counts, |h.committed|)
  }

  ghost predicate PlanFits(h: Hybrid) {
    && Placed(h.plan.depths, h.beam, h.moves)
    && h.plan.ram == Reserved(h.plan.depths, Ram, |h.plan.depths|)
    && h.plan.disk == Reserved(h.plan.depths, Disk, |h.plan.depths|) <= |h.disk|
    && h.plan.ram <= h.ramUsed <= |h.ram|
  }

  /** A depth lives at its planned range, or, planned for disk, in the RAM tail handed out after failures. */
  ghost predicate RangeOk(h: Hybrid, d: nat)
    requires h.Sized() && d < |h.committed|
  {
    var planned, here := h.plan.depths[d], h.at[d];
    && |h.committed[d]| == h.counts[d] <= planned.bound
    && (if here.arena == planned.location then here.offset == planned.offset
        else here.arena == Ram && h.plan.ram <= here.offset && here.offset + h.counts[d] <= h.ramUsed)
  }

  /** Live ranges of one arena never overlap. */
  ghost predicate Apart(h: Hybrid, d: nat, e: nat)
    requires h.Sized() && d < |h.committed| && e < |h.committed|
  {
    h.at[d].arena == h.at[e].arena ==>
      h.at[d].offset + h.counts[d] <= h.at[e].offset || h.at[e].offset + h.counts[e] <= h.at[d].offset
  }

  ghost predicate Inside(h: Hybrid, d: nat)
    requires h.Sized() && d < |h.committed|
  {
    h.at[d].offset + h.counts[d] <= |h.Arena(h.at[d].arena)|
  }

  ghost predicate Holds(h: Hybrid, d: nat)
    requires h.Sized() && d < |h.committed|
  {
    Inside(h, d) && h.Arena(h.at[d].arena)[h.at[d].offset..h.at[d].offset + h.counts[d]] == h.committed[d]
  }

  ghost predicate DepthFine(h: Hybrid, d: nat)
    requires h.Sized() && d < |h.committed|
  {
    && RangeOk(h, d)
    && (h.written[d] ==> Holds(h, d))
    && (h.ready[d] ==> h.written[d] && h.locations[d] == h.at[d])
  }

  predicate Pending(s: HybridSlot) {
    (s.Copying? || s.Writing?) && s.work.location.Some?
  }

  ghost predicate SlotFine(h: Hybrid, s: nat)
    requires h.Sized() && s < |h.slots|
  {
    var slot := h.slots[s];
    && (Pending(slot) ==>
          var d := slot.work.depth;
          && d < |h.committed| && !h.written[d] && !h.ready[d] && h.at[d] == slot.work.location.value
          && h.committed[d] == Compress(slot.work.host))
    && (slot.Written? ==>
          slot.work.depth < |h.committed| && h.written[slot.work.depth] && h.at[slot.work.depth] == slot.result)
  }

  /** The slot has taken up committed depth `d` and not been collected. */
  predicate Carries(slot: HybridSlot, d: nat) {
    !slot.Free? && !slot.Acquired? && slot.work.depth == d && (slot.Written? || slot.work.location.Some?)
  }

  ghost predicate Carried(h: Hybrid, d: nat)
    requires d < |h.ready|
  {
    h.ready[d] || exists s :: 0 <= s < |h.slots| && Carries(h.slots[s], d)
  }

  /** No committed depth is forgotten: it is readable or some slot still has it. */
  ghost predicate Accounted(h: Hybrid) {
    forall d :: 0 <= d < |h.ready| ==> Carried(h, d)
  }

  /** A step on one slot forgets no depth when it drops a depth only to make it readable. */
  lemma AccountedStays(h: Hybrid, h': Hybrid, s: nat)
    requires Accounted(h) && |h.ready| <= |h'.ready| && s < |h.slots| == |h'.slots|
    requires forall t :: 0 <= t < |h.slots| && t != s ==> h'.slots[t] == h.slots[t]
    requires forall d :: 0 <= d < |h.ready| && h.ready[d] ==> h'.ready[d]
    requires forall d :: 0 <= d < |h.ready| && Carries(h.slots[s], d) ==> h'.ready[d] || Carries(h'.slots[s], d)
    requires forall d :: |h.ready| <= d < |h'.ready| ==> Carries(h'.slots[s], d)
    ensures Accounted(h')
  {
    forall d | 0 <= d < |h'.ready| ensures Carried(h', d) {
      if d < |h.ready| && !h.ready[d] {
        assert Carried(h, d);
        var t :| 0 <= t < |h.slots| && Carries(h.slots[t], d);
        assert h'.ready[d] || Carries(h'.slots[t], d);
      } else if d >= |h.ready| {
        assert Carries(h'.slots[s], d);
      }
    }
  }

  /** When no slot has work left, done or broken, every committed depth is readable. */
  lemma IdleIsReady(h: Hybrid)
    requires Safe(h) && forall s :: 0 <= s < |h.slots| ==> h.slots[s].Free? || h.slots[s].Acquired?
    ensures forall d :: 0 <= d < |h.committed| ==> h.ready[d]
  {
    forall d | 0 <= d < |h.committed| ensures h.ready[d] {
      assert Carried(h, d);
    }
  }

  ghost predicate OneWriterEach(slots: seq<HybridSlot>) {
    forall s, t :: 0 <= s < t < |slots| && Pending(slots[s]) && Pending(slots[t]) ==>
      slots[s].work.depth != slots[t].work.depth
  }

  ghost predicate Safe(h: Hybrid) {
    && h.Sized() && PlanFits(h)
    && (forall d :: 0 <= d < |h.committed| ==> DepthFine(h, d))
    && (forall d, e :: 0 <= d < e < |h.committed| ==> Apart(h, d, e))
    && (forall s :: 0 <= s < |h.slots| ==> SlotFine(h, s))
    && OneWriterEach(h.slots) && Accounted(h) && TailIsMoved(h)
  }

  lemma RangesAreInside(h: Hybrid, d: nat)
    requires h.Sized() && PlanFits(h) && d < |h.committed| && RangeOk(h, d)
    ensures Inside(h, d)
  {
    PlannedInside(h.plan.depths, h.beam, h.moves, d);
  }

  /** In every reachable state each live range is inside its arena and no cell belongs to two of them. */
  lemma LiveRangesAreSafe(h: Hybrid, d: nat, e: nat, i: nat)
    requires Safe(h) && d < |h.committed| && e < |h.committed| && d != e
    requires h.at[d].arena == h.at[e].arena && h.at[d].offset <= i < h.at[d].offset + h.counts[d]
    ensures i < |h.Arena(h.at[d].arena)|
    ensures !(h.at[e].offset <= i < h.at[e].offset + h.counts[e])
  {
    assert DepthFine(h, d);
    RangesAreInside(h, d);
    assert Apart(h, if d < e then d else e, if d < e then e else d);
  }

  /** A range still in its planned place cannot meet another planned one, nor the fallback tail. */
  lemma NewRangeIsApart(h: Hybrid, d: nat, e: nat)
    requires h.Sized() && PlanFits(h) && d < |h.committed| && e < |h.committed| && d != e
    requires RangeOk(h, d) && RangeOk(h, e)
    requires h.at[d].arena == h.plan.depths[d].location || h.at[e].arena == h.plan.depths[e].location
    ensures Apart(h, d, e)
  {
    PlannedInside(h.plan.depths, h.beam, h.moves, d);
    PlannedInside(h.plan.depths, h.beam, h.moves, e);
    if h.plan.depths[d].location == h.plan.depths[e].location {
      if d < e {
        PlannedApart(h.plan.depths, h.beam, h.moves, d, e);
      } else {
        PlannedApart(h.plan.depths, h.beam, h.moves, e, d);
      }
    }
  }

  /** A ready depth's entries stand at its recorded place. */
  lemma ReadyEntry(h: Hybrid, d: nat, i: nat)
    requires Safe(h) && d < |h.committed| && h.ready[d] && i < |h.committed[d]|
    ensures h.locations[d] == h.at[d] && h.at[d].offset + i < |h.Arena(h.at[d].arena)|
    ensures h.Arena(h.at[d].arena)[h.at[d].offset + i] == h.committed[d][i]
  {
    assert DepthFine(h, d);
    var arena, offset := h.Arena(h.at[d].arena), h.at[d].offset;
    assert arena[offset..offset + h.counts[d]][i] == arena[offset + i];
  }

  // ---- the steps ----

  /** A depth is committed at `here`: its planned range, or a fallback range ending at the new `ramUsed`. */
  function CommitAt(h: Hybrid, s: nat, host: seq<Candidate>, here: Located, ramUsed: nat): Hybrid
    requires s < |h.slots|
  {
    h.(counts := h.counts + [|host|], locations := h.locations + [here], ready := h.ready + [false],
       slots := h.slots[s := Copying(Work(|h.counts|, host, Some(here)))], ramUsed := ramUsed,
       committed := h.committed + [Compress(host)], at := h.at + [here], written := h.written + [false])
  }

  /** What `reserve_static_location` may answer. */
  ghost predicate MayCommitAt(h: Hybrid, count: nat, here: Located, ramUsed: nat)
  {
    var d := |h.counts|;
    && d < |h.plan.depths| && count <= h.plan.depths[d].bound
    && (|| (here == Located(h.plan.depths[d].location, h.plan.depths[d].offset) && ramUsed == h.ramUsed)
        || (h.plan.depths[d].location == Disk && here == Located(Ram, h.ramUsed)
            && ramUsed == h.ramUsed + count <= |h.ram|))
  }

  lemma CommitAtIsSafe(h: Hybrid, s: nat, host: seq<Candidate>, here: Located, ramUsed: nat)
    requires Safe(h) && s < |h.slots| && h.slots[s].Acquired? && MayCommitAt(h, |host|, here, ramUsed)
    ensures Safe(CommitAt(h, s, host, here, ramUsed))
  {
    var h', n := CommitAt(h, s, host, here, ramUsed), |h.committed|;
    forall d | 0 <= d <= n ensures DepthFine(h', d) {
      if d < n {
        assert DepthFine(h, d);
      }
    }
    forall d, e | 0 <= d < e <= n ensures Apart(h', d, e) {
      if e < n {
        assert Apart(h, d, e);
      } else {
        assert DepthFine(h', d) && DepthFine(h', e) && DepthFine(h, d);
        CommittedApart(h, s, host, here, ramUsed, d);
      }
    }
    forall t | 0 <= t < |h.slots|
      ensures SlotFine(h', t) && (t != s && Pending(h.slots[t]) ==> h.slots[t].work.depth < n)
    {
      assert SlotFine(h, t);
    }
    AccountedStays(h, h', s);
    CommitKeepsTail(h, s, host, here, ramUsed);
  }

  lemma CommitKeepsTail(h: Hybrid, s: nat, host: seq<Candidate>, here: Located, ramUsed: nat)
    requires Safe(h) && s < |h.slots| && MayCommitAt(h, |host|, here, ramUsed)
    ensures CommitAt(h, s, host, here, ramUsed).Sized() && TailIsMoved(CommitAt(h, s, host, here, ramUsed))
  {
    var h' := CommitAt(h, s, host, here, ramUsed);
    MovedPrefix(h.plan.depths, h.at, h.counts, h'.at, h'.counts, |h.committed|);
  }

  lemma CommittedApart(h: Hybrid, s: nat, host: seq<Candidate>, here: Located, ramUsed: nat, d: nat)
    requires Safe(h) && s < |h.slots| && MayCommitAt(h, |host|, here, ramUsed) && d < |h.committed|
    requires var h' := CommitAt(h, s, host, here, ramUsed);
             h'.Sized() && PlanFits(h') && RangeOk(h', d) && RangeOk(h', |h.committed|)
    ensures Apart(CommitAt(h, s, host, here, ramUsed), d, |h.committed|)
  {
    var h', n := CommitAt(h, s, host, here, ramUsed), |h.committed|;
    if h'.at[d].arena == h'.plan.depths[d].location || h'.at[n].arena == h'.plan.depths[n].location {
      NewRangeIsApart(h', d, n);
    } else {
      assert DepthFine(h, d);
    }
  }

  /** Two versions of an arena agree outside a range. */
  ghost predicate SameOutside(a: seq<Entry>, b: seq<Entry>, offset: nat, count: nat) {
    |a| == |b| && forall i :: 0 <= i < |a| && (i < offset || offset + count <= i) ==> a[i] == b[i]
  }

  /** A writer finishes: whatever it did to the planned disk range, the depth's entries end up at `here`. */
  function WriteAt(h: Hybrid, s: nat, here: Located, ramUsed: nat, ram: seq<Entry>, disk: seq<Entry>): Hybrid
    requires h.Sized() && s < |h.slots| && Pending(h.slots[s]) && h.slots[s].work.depth < |h.committed|
  {
    var d := h.slots[s].work.depth;
    h.(slots := h.slots[s := Written(h.slots[s].work, here)], ramUsed := ramUsed, ram := ram, disk := disk,
       at := h.at[d := here], written := h.written[d := true])
  }

  /** What a writer may do: fill its own range, or spoil its own disk range and fill fresh RAM. */
  ghost predicate MayWrite(h: Hybrid, s: nat, here: Located, ramUsed: nat, ram: seq<Entry>, disk: seq<Entry>)
    requires h.Sized() && s < |h.slots| && Pending(h.slots[s]) && h.slots[s].work.depth < |h.committed|
  {
    var d := h.slots[s].work.depth;
    var count, before := h.counts[d], h.at[d];
    && (|| (here == before && ramUsed == h.ramUsed)
        || (before.arena == Disk && here == Located(Ram, h.ramUsed) && ramUsed == h.ramUsed + count <= |h.ram|))
    && (if here.arena == Ram then SameOutside(h.ram, ram, here.offset, count) else ram == h.ram)
    && (if before.arena == Disk then SameOutside(h.disk, disk, before.offset, count) else disk == h.disk)
    && here.offset + count <= |(if here.arena == Ram then ram else disk)|
    && (if here.arena == Ram then ram else disk)[here.offset..here.offset + count] == h.committed[d]
  }

  /** A writer that fills its own range is allowed. */
  lemma OwnRamWrite(h: Hybrid, s: nat, here: Located, ram: seq<Entry>)
    requires h.Sized() && s < |h.slots| && Pending(h.slots[s]) && h.slots[s].work.depth < |h.committed|
    requires here == h.at[h.slots[s].work.depth] && here.arena == Ram
    requires var count := h.counts[h.slots[s].work.depth];
             && SameOutside(h.ram, ram, here.offset, count) && here.offset + count <= |ram|
             && ram[here.offset..here.offset + count] == h.committed[h.slots[s].work.depth]
    ensures MayWrite(h, s, here, h.ramUsed, ram, h.disk)
  {
  }

  lemma OwnDiskWrite(h: Hybrid, s: nat, here: Located, disk: seq<Entry>)
    requires h.Sized() && s < |h.slots| && Pending(h.slots[s]) && h.slots[s].work.depth < |h.committed|
    requires here == h.at[h.slots[s].work.depth] && here.arena == Disk
    requires var count := h.counts[h.slots[s].work.depth];
             && SameOutside(h.disk, disk, here.offset, count) && here.offset + count <= |disk|
             && disk[here.offset..here.offset + count] == h.committed[h.slots[s].work.depth]
    ensures MayWrite(h, s, here, h.ramUsed, h.ram, disk)
  {
  }

  lemma OutsideKeeps(a: seq<Entry>, b: seq<Entry>, offset: nat, count: nat, other: nat, size: nat)
    requires SameOutside(a, b, offset, count) && other + size <= |a|
    requires other + size <= offset || offset + count <= other
    ensures a[other..other + size] == b[other..other + size]
  {
  }

  lemma WriteApart(h: Hybrid, s: nat, here: Located, ramUsed: nat, ram: seq<Entry>, disk: seq<Entry>, e: nat)
    requires Safe(h) && s < |h.slots| && Pending(h.slots[s]) && h.slots[s].work.depth < |h.committed|
    requires MayWrite(h, s, here, ramUsed, ram, disk)
    requires e < |h.committed| && e != h.slots[s].work.depth
    ensures Apart(WriteAt(h, s, here, ramUsed, ram, disk), e, h.slots[s].work.depth)
  {
    var d := h.slots[s].work.depth;
    assert DepthFine(h, e);
    assert Apart(h, if d < e then d else e, if d < e then e else d);
    if h.at[e].arena == Ram {
      PlannedInside(h.plan.depths, h.beam, h.moves, e);
    }
  }

  lemma WriteKeepsEntries(h: Hybrid, s: nat, here: Located, ramUsed: nat, ram: seq<Entry>, disk: seq<Entry>, e: nat)
    requires Safe(h) && s < |h.slots| && Pending(h.slots[s]) && h.slots[s].work.depth < |h.committed|
    requires MayWrite(h, s, here, ramUsed, ram, disk)
    requires e < |h.committed| && e != h.slots[s].work.depth
    requires Apart(WriteAt(h, s, here, ramUsed, ram, disk), e, h.slots[s].work.depth)
    requires Holds(h, e)
    ensures Holds(WriteAt(h, s, here, ramUsed, ram, disk), e)
  {
    var d := h.slots[s].work.depth;
    assert Apart(h, if d < e then d else e, if d < e then e else d);
    var other, size := h.at[e].offset, h.counts[e];
    if h.at[e].arena == Ram && here.arena == Ram {
      OutsideKeeps(h.ram, ram, here.offset, h.counts[d], other, size);
    } else if h.at[e].arena == Disk && h.at[d].arena == Disk {
      OutsideKeeps(h.disk, disk, h.at[d].offset, h.counts[d], other, size);
    }
  }

  lemma WriteKeepsOthers(h: Hybrid, s: nat, here: Located, ramUsed: nat, ram: seq<Entry>, disk: seq<Entry>, e: nat)
    requires Safe(h) && s < |h.slots| && Pending(h.slots[s]) && h.slots[s].work.depth < |h.committed|
    requires MayWrite(h, s, here, ramUsed, ram, disk)
    requires e < |h.committed| && e != h.slots[s].work.depth
    ensures DepthFine(WriteAt(h, s, here, ramUsed, ram, disk), e)
    ensures Apart(WriteAt(h, s, here, ramUsed, ram, disk), e, h.slots[s].work.depth)
  {
    assert DepthFine(h, e);
    WriteApart(h, s, here, ramUsed, ram, disk, e);
    if h.written[e] {
      WriteKeepsEntries(h, s, here, ramUsed, ram, disk, e);
    }
  }

  lemma WriteOwnDepth(h: Hybrid, s: nat, here: Located, ramUsed: nat, ram: seq<Entry>, disk: seq<Entry>)
    requires Safe(h) && s < |h.slots| && Pending(h.slots[s]) && h.slots[s].work.depth < |h.committed|
    requires MayWrite(h, s, here, ramUsed, ram, disk)
    ensures var h' := WriteAt(h, s, here, ramUsed, ram, disk);
            h'.Sized() && PlanFits(h') && DepthFine(h', h.slots[s].work.depth)
  {
    assert SlotFine(h, s);
    assert DepthFine(h, h.slots[s].work.depth);
    RangesAreInside(h, h.slots[s].work.depth);
  }

  lemma WriteIsSafe(h: Hybrid, s: nat, here: Located, ramUsed: nat, ram: seq<Entry>, disk: seq<Entry>)
    requires Safe(h) && s < |h.slots| && Pending(h.slots[s]) && h.slots[s].work.depth < |h.committed|
    requires MayWrite(h, s, here, ramUsed, ram, disk)
    ensures Safe(WriteAt(h, s, here, ramUsed, ram, disk))
  {
    var d, h' := h.slots[s].work.depth, WriteAt(h, s, here, ramUsed, ram, disk);
    WriteOwnDepth(h, s, here, ramUsed, ram, disk);
    forall e | 0 <= e < |h.committed| && e != d ensures DepthFine(h', e) && Apart(h', e, d) {
      WriteKeepsOthers(h, s, here, ramUsed, ram, disk, e);
    }
    forall e, f | 0 <= e < f < |h.committed| ensures Apart(h', e, f) {
      assert Apart(h, e, f);
      assert e == d ==> Apart(h', f, d);
    }
    assert SlotFine(h, s);
    forall t | 0 <= t < |h.slots| ensures SlotFine(h', t) {
      assert SlotFine(h, t);
    }
    AccountedStays(h, h', s);
    assert DepthFine(h, d);
    if here == h.at[d] {
      MovedPrefix(h.plan.depths, h.at, h.counts, h'.at, h'.counts, |h.committed|);
    } else {
      MovedUpdate(h.plan.depths, h.at, h.counts, |h.committed|, d, here);
    }
  }

  /** The main thread collects a finished writer. */
  function Collect(h: Hybrid, s: nat): Hybrid
    requires h.Sized() && s < |h.slots| && h.slots[s].Written? && h.slots[s].work.depth < |h.committed|
  {
    var d := h.slots[s].work.depth;
    h.(locations := h.locations[d := h.slots[s].result], ready := h.ready[d := true], slots := h.slots[s := Free])
  }

  lemma CollectIsSafe(h: Hybrid, s: nat)
    requires Safe(h) && s < |h.slots| && h.slots[s].Written?
    ensures h.slots[s].work.depth < |h.committed| && Safe(Collect(h, s))
  {
    assert SlotFine(h, s);
    var h' := Collect(h, s);
    forall e | 0 <= e < |h.committed| ensures DepthFine(h', e) {
      assert DepthFine(h, e);
    }
    forall e, f | 0 <= e < f < |h.committed| ensures Apart(h', e, f) {
      assert Apart(h, e, f);
    }
    forall t | 0 <= t < |h.slots| ensures SlotFine(h', t) {
      assert SlotFine(h, t);
    }
    AccountedStays(h, h', s);
  }

  /** Changing one slot without giving it new work. */
  lemma SlotStepIsSafe(h: Hybrid, s: nat, slot: HybridSlot)
    requires Safe(h) && s < |h.slots| && !slot.Written?
    requires Pending(slot) ==> Pending(h.slots[s]) && slot.work == h.slots[s].work
    requires forall d :: Carries(h.slots[s], d) ==> Carries(slot, d)
    ensures Safe(h.(slots := h.slots[s := slot]))
  {
    var h' := h.(slots := h.slots[s := slot]);
    forall e | 0 <= e < |h.committed| ensures DepthFine(h', e) {
      assert DepthFine(h, e);
    }
    forall e, f | 0 <= e < f < |h.committed| ensures Apart(h', e, f) {
      assert Apart(h, e, f);
    }
    forall t | 0 <= t < |h.slots| ensures SlotFine(h', t) {
      assert SlotFine(h, t) && SlotFine(h, s);
    }
    AccountedStays(h, h', s);
  }

  /** A failed disk write leaves arbitrary entries in the depth's own disk range only. */
  lemma SpoiledDiskIsSafe(h: Hybrid, s: nat, disk: seq<Entry>)
    requires Safe(h) && s < |h.slots| && Pending(h.slots[s])
    requires var d := h.slots[s].work.depth;
             d < |h.committed| && h.at[d].arena == Disk && SameOutside(h.disk, disk, h.at[d].offset, h.counts[d])
    ensures Safe(h.(disk := disk, slots := h.slots[s := Broken(h.slots[s].work)]))
  {
    assert SlotFine(h, s);
    var d, h' := h.slots[s].work.depth, h.(disk := disk, slots := h.slots[s := Broken(h.slots[s].work)]);
    forall e | 0 <= e < |h.committed| ensures DepthFine(h', e) {
      assert DepthFine(h, e);
      if h.written[e] {
        assert Apart(h, if d < e then d else e, if d < e then e else d);
        var a, b := h.Arena(h.at[e].arena), h'.Arena(h.at[e].arena);
        assert forall i :: h.at[e].offset <= i < h.at[e].offset + h.counts[e] ==> a[i] == b[i];
      }
    }
    forall e, f | 0 <= e < f < |h.committed| ensures Apart(h', e, f) {
      assert Apart(h, e, f);
    }
    forall t | 0 <= t < |h.slots| ensures SlotFine(h', t) {
      assert SlotFine(h, t);
    }
    AccountedStays(h, h', s);
  }
}
