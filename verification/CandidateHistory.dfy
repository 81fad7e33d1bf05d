/** The mutable in-memory candidate history (tools/history/candidate_history.hpp, RAM mode).
    Asynchronous copies, writers and prune workers finish at arbitrary moments. */
module CandidateHistory {
  import opened Candidates
  import opened PruneAdjacent
  import opened HistoryState
  import opened Wrappers

  datatype ReadError = DepthOutOfRange | IndexOutOfRange | NotMaterialised

  datatype PathError = DepthNotPositive | DepthExceedsHistory | ParentOutOfRange

  datatype CommitError = CountExceedsCapacity | NotDepthOrdered

  /** What the proofs remember beside the real fields. */
  datatype Memory = Memory(committed: seq<Depth>, contents: seq<Depth>, keep: seq<seq<nat>>, phase: seq<Phase>)

  class Store {
    const capacity: u32
    const workerCount: nat
    const pruneEnabled: bool
    var depthCounts: seq<nat>
    var ramDepths: seq<Depth>
    var ramReady: seq<bool>
    var pruneDirty: seq<bool>
    var pruneJobs: seq<Job>
    var slots: seq<Slot>
    var bytesStored: int
    var bytesPruned: int
    ghost var memory: Memory

    ghost function Snapshot(): State
      reads this
    {
      State(pruneEnabled, depthCounts, ramDepths, ramReady, pruneDirty, pruneJobs, slots, bytesStored, bytesPruned,
            memory.committed, memory.contents, memory.keep, memory.phase)
    }

    ghost predicate Valid()
      reads this
    {
      workerCount > 0 && Inv(Snapshot())
    }

    constructor (capacity: u32, slotCount: nat, workerCount: nat, pruneEnabled: bool)
      requires capacity > 0 && slotCount > 0 && workerCount > 0
      ensures Valid() && memory.committed == [] && |slots| == slotCount && this.capacity == capacity
      ensures this.pruneEnabled == pruneEnabled && this.workerCount == workerCount
      ensures forall s :: 0 <= s < slotCount ==> slots[s].free && !slots[s].Busy()
      ensures depthCounts == [] && pruneJobs == [] && bytesStored == 0 && bytesPruned == 0
    {
      this.capacity, this.workerCount, this.pruneEnabled := capacity, workerCount, pruneEnabled;
      depthCounts, ramDepths, ramReady, pruneDirty, pruneJobs := [], [], [], [], [];
      slots := seq(slotCount, _ => Slot(true, false, false, 0, []));
      bytesStored, bytesPruned := 0, 0;
      memory := Memory([], [], [], []);
    }

    predicate JobUsesDepth(job: Job, depth: nat) {
      job.depth == depth || job.depth + 1 == depth
    }

    predicate AnyJobUsesPair(depth: nat)
      reads this
    {
      exists k :: 0 <= k < |pruneJobs| && (JobUsesDepth(pruneJobs[k], depth) || JobUsesDepth(pruneJobs[k], depth + 1))
    }

    predicate Eligible(depth: nat)
      reads this
      requires |pruneDirty| == |ramReady| == |ramDepths|
    {
      depth + 1 < |ramDepths| && pruneDirty[depth] && ramReady[depth] && ramReady[depth + 1] && !AnyJobUsesPair(depth)
    }

    /** Stored depths are never in a job, so the explicit check for overlapping jobs never rejects a pair. */
    lemma ReadyPairIsFree(depth: nat)
      requires Valid() && depth + 1 < |ramDepths| && ramReady[depth] && ramReady[depth + 1]
      ensures !AnyJobUsesPair(depth)
    {
      var st := Snapshot();
      assert PhaseOk(st, depth) && PhaseOk(st, depth + 1);
      forall k | 0 <= k < |pruneJobs|
        ensures !JobUsesDepth(pruneJobs[k], depth) && !JobUsesDepth(pruneJobs[k], depth + 1) {
        assert JobOk(st, k);
      }
    }

    /** `job.worker.get()`: the worker ran `prune_adjacent_depths` on the moved contents. */
    method FinishJob(k: nat)
      requires Valid() && k < |pruneJobs|
      modifies this
      ensures Valid() && memory.committed == old(memory.committed) && slots == old(slots)
      ensures pruneJobs == Erase(old(pruneJobs), k) && Owed(pruneDirty) < old(Owed(pruneDirty))
      ensures exists r, kept ::
                && CanComplete(old(Snapshot()), k, r, kept) && CompletePreHolds(old(Snapshot()), k, kept)
                && Snapshot() == Complete(old(Snapshot()), k, r, kept)
    {
      ghost var st := Snapshot();
      JobParentsWithin(st, k);
      JobSizes(st, k);
      var r, kept := PruneAdjacentDepths(pruneJobs[k].previous, pruneJobs[k].current);
      CompleteKeepsInv(st, k, r.value, kept);
      CompleteOwesLess(st, k, r.value, kept);
      StoreResult(k, r.value, kept);
    }

    method StoreResult(k: nat, result: Pruned, ghost kept: seq<nat>)
      requires Sized(Snapshot()) && k < |pruneJobs| && CompletePreHolds(Snapshot(), k, kept)
      requires |result.previous| <= |pruneJobs[k].previous| && |result.current| == |pruneJobs[k].current|
      modifies this
      ensures Snapshot() == Complete(old(Snapshot()), k, result, kept)
    {
      var job := pruneJobs[k];
      var d := job.depth;
      var before := (|job.previous| + |job.current|) * ENTRY_BYTES;
      var after := (|result.previous| + |result.current|) * ENTRY_BYTES;
      ghost var st' := Complete(Snapshot(), k, result, kept);
      ramDepths := ramDepths[d := result.previous][d + 1 := result.current];
      depthCounts := depthCounts[d := |result.previous|][d + 1 := |result.current|];
      ramReady := ramReady[d := true][d + 1 := true];
      pruneDirty := if d > 0 then pruneDirty[d := false][d - 1 := true] else pruneDirty[d := false];
      if before > after {
        bytesStored := bytesStored - (before - after);
        bytesPruned := bytesPruned + (before - after);
      }
      pruneJobs := Erase(pruneJobs, k);
      memory := Memory(st'.committed, st'.contents, st'.keep, st'.phase);
    }

    method LaunchJob(d: nat)
      requires Valid() && d + 1 < |ramDepths| && pruneDirty[d] && ramReady[d] && ramReady[d + 1]
      modifies this
      ensures Valid() && memory.committed == old(memory.committed) && slots == old(slots)
      ensures pruneDirty == old(pruneDirty)
      ensures Snapshot() == Launch(old(Snapshot()), d)
    {
      ghost var st := Snapshot();
      LaunchKeepsInv(st, d);
      var previous, current := ramDepths[d], ramDepths[d + 1];
      ramDepths := ramDepths[d := []][d + 1 := []];
      ramReady := ramReady[d := false][d + 1 := false];
      pruneJobs := pruneJobs + [Job(d, previous, current)];
      memory := memory.(phase := memory.phase[d := InJob(d)][d + 1 := InJob(d)]);
      assert Snapshot() == Launch(st, d);
    }

    ghost predicate NothingToPrune()
      reads this
    {
      NothingToPruneFrom(0)
    }

    ghost predicate NothingToPruneFrom(first: nat)
      reads this
    {
      |pruneDirty| == |ramReady| &&
        forall d :: first <= d && d + 1 < |pruneDirty| ==> !(pruneDirty[d] && ramReady[d] && ramReady[d + 1])
    }

    /** Scan from the newest pair to the oldest and launch the first eligible one. */
    method LaunchNewest() returns (launched: bool)
      requires Valid()
      modifies this
      ensures Valid() && memory.committed == old(memory.committed) && slots == old(slots)
      ensures pruneDirty == old(pruneDirty)
      ensures |pruneJobs| == old(|pruneJobs|) + (if launched then 1 else 0)
      ensures !launched ==> NothingToPrune() && pruneJobs == old(pruneJobs)
      ensures launched ==>
                var d := pruneJobs[|pruneJobs| - 1].depth;
                && d + 1 < old(|ramDepths|) && old(Eligible(d)) && Snapshot() == Launch(old(Snapshot()), d)
                && old(NothingToPruneFrom(d + 1))
    {
      if |ramDepths| < 2 {
        return false;
      }
      var depth := |ramDepths| - 1;
      while depth > 0
        invariant 0 <= depth < |ramDepths| == |pruneDirty| == |ramReady| && unchanged(this)
        invariant NothingToPruneFrom(depth)
      {
        depth := depth - 1;
        if Eligible(depth) {
          LaunchJob(depth);
          return true;
        }
        if ramReady[depth] && ramReady[depth + 1] {
          ReadyPairIsFree(depth);
        }
      }
      return false;
    }

    method FinishReadyJobs(waitAll: bool) returns (progressed: bool)
      requires Valid()
      modifies this
      ensures Valid() && memory.committed == old(memory.committed) && slots == old(slots)
      ensures progressed ==> Owed(pruneDirty) < old(Owed(pruneDirty))
      ensures !progressed ==> unchanged(this)
      ensures |pruneJobs| <= old(|pruneJobs|)
      ensures waitAll ==> pruneJobs == [] && (progressed <==> old(pruneJobs) != [])
    {
      progressed := false;
      var i := 0;
      while i < |pruneJobs|
        invariant i <= |pruneJobs| && Valid() && memory.committed == old(memory.committed) && slots == old(slots)
        invariant progressed ==> Owed(pruneDirty) < old(Owed(pruneDirty))
        invariant !progressed ==> unchanged(this)
        invariant waitAll ==> i == 0
        invariant |pruneJobs| <= old(|pruneJobs|)
        invariant old(pruneJobs) == [] ==> !progressed
        decreases |pruneJobs| - i
      {
        var done: bool := *;
        if waitAll || done {
          FinishJob(i);
          progressed := true;
        } else {
          i := i + 1;
        }
      }
    }

    method PumpPruneJobs(waitAll: bool)
      requires Valid()
      modifies this
      ensures Valid() && memory.committed == old(memory.committed) && slots == old(slots)
      ensures waitAll ==> pruneJobs == [] && NothingToPrune()
      ensures |pruneJobs| < workerCount ==> NothingToPrune()
      ensures old(|pruneJobs|) <= workerCount ==> |pruneJobs| <= workerCount
      ensures Owed(pruneDirty) <= old(Owed(pruneDirty))
    {
      if !pruneEnabled {
        return;
      }
      var progressed := true;
      while progressed
        invariant Valid() && memory.committed == old(memory.committed) && slots == old(slots)
        invariant !progressed ==> pruneJobs == [] && NothingToPrune()
        invariant Owed(pruneDirty) <= old(Owed(pruneDirty))
        invariant old(|pruneJobs|) <= workerCount ==> |pruneJobs| <= workerCount
        decreases Owed(pruneDirty), |pruneJobs| == 0, progressed
      {
        progressed := FinishReadyJobs(waitAll);
        ghost var finished := progressed;
        label Launching:
        var launched := true;
        while |pruneJobs| < workerCount && launched
          invariant Valid() && memory.committed == old(memory.committed) && slots == old(slots)
          invariant pruneDirty == old@Launching(pruneDirty)
          invariant launched || NothingToPrune()
          invariant progressed <==> finished || |pruneJobs| > old@Launching(|pruneJobs|)
          invariant |pruneJobs| >= old@Launching(|pruneJobs|)
          invariant old(|pruneJobs|) <= workerCount ==> |pruneJobs| <= workerCount
          decreases workerCount - |pruneJobs|, launched
        {
          launched := LaunchNewest();
          if launched {
            progressed := true;
          }
        }
        if !waitAll {
          break;
        }
      }
    }

    method FinishWriter(s: nat)
      requires Valid() && s < |slots| && slots[s].writing
      modifies this
      ensures Valid() && memory.committed == old(memory.committed)
      ensures slots == old(slots)[s := old(slots)[s].(free := true, writing := false, copying := false)]
      ensures old(slots)[s].depth < old(|memory.committed|) && Snapshot() == Materialise(old(Snapshot()), s)
    {
      ghost var st := Snapshot();
      assert SlotOk(st, s);
      MaterialiseKeepsInv(st, s);
      var d := slots[s].depth;
      ramDepths := ramDepths[d := Compress(slots[s].host)];
      ramReady := ramReady[d := true];
      if pruneEnabled && d > 0 {
        pruneDirty := pruneDirty[d - 1 := true];
      }
      slots := slots[s := slots[s].(free := true, writing := false, copying := false)];
      memory := memory.(phase := memory.phase[d := Stored]);
      assert Snapshot() == Materialise(st, s);
    }

    method StartWriter(s: nat)
      requires Valid() && s < |slots| && slots[s].copying
      modifies this`slots
      ensures Valid() && slots == old(slots)[s := old(slots)[s].(copying := false, writing := true)]
    {
      SlotChangeKeepsInv(Snapshot(), s, slots[s].(copying := false, writing := true));
      assert SlotOk(Snapshot(), s);
      slots := slots[s := slots[s].(copying := false, writing := true)];
    }

    function BusyCount(slots: seq<Slot>): nat {
      if slots == [] then 0 else BusyCount(slots[..|slots| - 1]) + (if slots[|slots| - 1].Busy() then 1 else 0)
    }

    lemma {:induction false} BusyUpdate(slots: seq<Slot>, s: nat, slot: Slot)
      requires s < |slots|
      ensures BusyCount(slots[s := slot])
              == BusyCount(slots) - (if slots[s].Busy() then 1 else 0) + (if slot.Busy() then 1 else 0)
    {
      var last := |slots| - 1;
      if s < last {
        BusyUpdate(slots[..last], s, slot);
        assert slots[s := slot][..last] == slots[..last][s := slot];
      } else {
        assert slots[s := slot][..last] == slots[..last];
      }
    }

    /** A pump leaves a slot without work alone, and one with work keeps it or becomes free. */
    static predicate SlotKept(before: Slot, after: Slot) {
      if !before.Busy() then after == before
      else if after.Busy() then !after.free && after.depth == before.depth && after.host == before.host
      else after.free
    }

    static predicate SlotsKept(before: seq<Slot>, after: seq<Slot>) {
      |before| == |after| && forall s :: 0 <= s < |before| ==> SlotKept(before[s], after[s])
    }

    /** One pass over a slot: a finished copy starts its writer, a finished writer frees the slot. */
    method PumpSlot(s: nat, waitAll: bool) returns (progressed: bool)
      requires Valid() && s < |slots|
      modifies this
      ensures Valid() && memory.committed == old(memory.committed) && |slots| == old(|slots|)
      ensures forall t :: 0 <= t < |slots| && t != s ==> slots[t] == old(slots)[t]
      ensures SlotKept(old(slots)[s], slots[s])
      ensures waitAll ==> !slots[s].Busy() && (progressed ==> BusyCount(slots) < old(BusyCount(slots)))
      ensures BusyCount(slots) <= old(BusyCount(slots))
    {
      progressed := false;
      ghost var before := slots;
      assert SlotOk(Snapshot(), s);
      var copied: bool := *;
      if slots[s].copying && (waitAll || copied) {
        StartWriter(s);
        BusyUpdate(before, s, slots[s]);
        progressed := true;
      }
      ghost var middle := slots;
      var written: bool := *;
      if !slots[s].copying && !slots[s].free && slots[s].writing && (waitAll || written) {
        FinishWriter(s);
        BusyUpdate(middle, s, slots[s]);
        progressed := true;
      }
    }

    lemma AllSlotsFit()
      requires Valid()
      ensures SlotsKept(slots, slots)
    {
      forall s | 0 <= s < |slots| ensures SlotKept(slots[s], slots[s]) {
        assert SlotOk(Snapshot(), s);
      }
    }

    /** One pass over all slots. */
    method PumpSlots(waitAll: bool) returns (progressed: bool)
      requires Valid()
      modifies this
      ensures Valid() && memory.committed == old(memory.committed) && SlotsKept(old(slots), slots)
      ensures waitAll ==> forall s :: 0 <= s < |slots| ==> !slots[s].Busy()
      ensures BusyCount(slots) <= old(BusyCount(slots))
      ensures waitAll && progressed ==> BusyCount(slots) < old(BusyCount(slots))
    {
      AllSlotsFit();
      progressed := false;
      for s := 0 to |slots|
        invariant Valid() && memory.committed == old(memory.committed) && SlotsKept(old(slots), slots)
        invariant forall t :: s <= t < |slots| ==> slots[t] == old(slots)[t]
        invariant waitAll ==> forall t :: 0 <= t < s ==> !slots[t].Busy()
        invariant BusyCount(slots) <= old(BusyCount(slots))
        invariant waitAll && progressed ==> BusyCount(slots) < old(BusyCount(slots))
      {
        var moved := PumpSlot(s, waitAll);
        progressed := progressed || moved;
      }
    }

    method PumpCompleted(waitAll: bool)
      requires Valid()
      modifies this
      ensures Valid() && memory.committed == old(memory.committed) && |slots| == old(|slots|)
      ensures SlotsKept(old(slots), slots)
      ensures waitAll ==> (forall s :: 0 <= s < |slots| ==> !slots[s].Busy()) && pruneJobs == [] && NothingToPrune()
    {
      AllSlotsFit();
      var progressed := true;
      while progressed
        invariant Valid() && memory.committed == old(memory.committed) && SlotsKept(old(slots), slots)
        invariant waitAll && !progressed ==> forall s :: 0 <= s < |slots| ==> !slots[s].Busy()
        decreases BusyCount(slots), progressed
      {
        progressed := PumpSlots(waitAll);
        if !waitAll {
          break;
        }
      }
      PumpPruneJobs(waitAll);
    }

    /** A slot that was free or held work, waiting for all pending work only when none is free. Nothing is
        returned exactly when every slot had been acquired and not committed. */
    method AcquireSlot() returns (r: Option<nat>)
      requires Valid()
      modifies this
      ensures Valid() && memory.committed == old(memory.committed) && |slots| == old(|slots|)
      ensures r.Some? ==> r.value < |slots| && !slots[r.value].free && !slots[r.value].Busy()
      ensures r.Some? ==> old(slots)[r.value].free || old(slots)[r.value].Busy()
      ensures r.None? <==> forall s :: 0 <= s < |slots| ==> !old(slots)[s].free && !old(slots)[s].Busy()
      ensures r.None? ==> slots == old(slots)
      ensures r.Some? ==> forall s :: 0 <= s < |slots| && s != r.value ==> SlotKept(old(slots)[s], slots[s])
    {
      PumpCompleted(false);
      r := TakeFreeSlot();
      if r.Some? {
        return r;
      }
      PumpCompleted(true);
      r := TakeFreeSlot();
    }

    method TakeFreeSlot() returns (r: Option<nat>)
      requires Valid()
      modifies this`slots
      ensures Valid() && |slots| == old(|slots|)
      ensures r.Some? ==> r.value < |slots| && !slots[r.value].free && !slots[r.value].Busy()
      ensures r.Some? ==>
                old(slots)[r.value].free && slots == old(slots)[r.value := old(slots)[r.value].(free := false)]
      ensures r.None? ==> slots == old(slots) && forall s :: 0 <= s < |slots| ==> !slots[s].free
    {
      for s := 0 to |slots|
        invariant slots == old(slots)
        invariant forall t :: 0 <= t < s ==> !slots[t].free
      {
        if slots[s].free {
          assert SlotOk(Snapshot(), s);
          SlotChangeKeepsInv(Snapshot(), s, slots[s].(free := false));
          slots := slots[s := slots[s].(free := false)];
          return Some(s);
        }
      }
      return None;
    }

    /** Commits must arrive in depth order. While pruning is on the store stays usable only if the new
        parents lie in the depth before; a parent outside it is accepted here and makes a later prune job
        throw. The out-of-order error is raised only after the slot has been marked as copying, which
        breaks the invariant. */
    method CommitSlot(s: nat, depth: nat, host: seq<Candidate>) returns (error: Option<CommitError>)
      requires Valid() && s < |slots| && !slots[s].free && !slots[s].Busy()
      modifies this
      ensures error == Some(CountExceedsCapacity) <==> |host| > capacity
      ensures error == Some(CountExceedsCapacity) ==> unchanged(this)
      ensures error == Some(NotDepthOrdered) <==> |host| <= capacity && depth != old(|depthCounts|)
      ensures error == Some(NotDepthOrdered) ==> !Valid()
      ensures error == Some(NotDepthOrdered) ==>
                Snapshot() == old(Snapshot()).(slots := old(slots)[s := Slot(false, true, false, depth, host)])
      ensures error.None? ==> Snapshot() == Commit(old(Snapshot()), s, host)
      ensures error.None? ==> memory.committed == old(memory.committed) + [Compress(host)] && |slots| == old(|slots|)
      ensures error.None? ==>
                var entries := memory.committed[depth];
                && |memory.committed| == depth + 1 && |entries| == |host|
                && forall i :: 0 <= i < |host| ==> entries[i] == Entry(host[i].parent, host[i].route)
      ensures error.None? ==> bytesStored == old(bytesStored) + 16 * |host| && bytesPruned == old(bytesPruned)
      ensures error.None? && (pruneEnabled ==> ParentsCommitted(old(memory.committed), host)) ==> Valid()
    {
      if |host| > capacity {
        return Some(CountExceedsCapacity);
      }
      if depth == |depthCounts| && (pruneEnabled ==> ParentsCommitted(memory.committed, host)) {
        CommitKeepsInv(Snapshot(), s, host);
      }
      slots := slots[s := Slot(false, true, false, depth, host)];
      if depth != |depthCounts| {
        NoDepthIsHere(old(Snapshot()), s, depth, Slot(false, true, false, depth, host));
        return Some(NotDepthOrdered);
      }
      assert slots[s := slots[s]] == slots;
      PushDepth(s, host);
      return None;
    }

    /** A slot without work cannot be marked as copying a depth that is not its own. */
    lemma NoDepthIsHere(st: State, s: nat, depth: nat, slot: Slot)
      requires Inv(st) && s < |st.slots| && !st.slots[s].Busy() && slot.Busy() && slot.depth == depth
      ensures !Inv(st.(slots := st.slots[s := slot]))
    {
      var st' := st.(slots := st.slots[s := slot]);
      if depth < |st.committed| {
        assert PhaseOk(st, depth);
      }
      assert !SlotOk(st', s);
    }

    method PushDepth(s: nat, host: seq<Candidate>)
      requires s < |slots| && slots[s] == Slot(false, true, false, |depthCounts|, host)
      modifies this
      ensures Snapshot() == Commit(old(Snapshot()), s, host)
    {
      ghost var st' := Commit(Snapshot(), s, host);
      assert slots[s := slots[s]] == slots;
      depthCounts := depthCounts + [|host|];
      ramDepths := ramDepths + [[]];
      ramReady := ramReady + [false];
      pruneDirty := pruneDirty + [false];
      bytesStored := bytesStored + ENTRY_BYTES * |host|;
      memory := Memory(st'.committed, st'.contents, st'.keep, st'.phase);
    }

    /** Wait for everything: afterwards every depth is stored, nothing is left to prune, every entry of every
        non-last depth is a parent, and the bytes add up. */
    method FinishAll()
      requires Valid()
      modifies this
      ensures Valid() && memory.committed == old(memory.committed) && SlotsKept(old(slots), slots)
      ensures Settled(Snapshot())
      ensures pruneEnabled ==> forall d :: 0 <= d && d + 1 < |memory.committed| ==> Full(ramDepths[d], ramDepths[d + 1])
      ensures pruneEnabled ==>
                forall d :: 0 <= d && d + 1 < |ramDepths| ==> AllUsed(ramDepths[d], ramDepths[d + 1])
      ensures bytesStored == 16 * Total(ramDepths)
      ensures bytesStored + bytesPruned == 16 * Total(memory.committed)
    {
      PumpCompleted(true);
      PumpPruneJobs(true);
      SettledIsFixpoint(Snapshot());
      if pruneEnabled {
        forall d | 0 <= d && d + 1 < |ramDepths|
          ensures AllUsed(ramDepths[d], ramDepths[d + 1])
        {
          FullMeansUsed(ramDepths[d], ramDepths[d + 1]);
        }
      }
    }

    method ReadEntry(depth: nat, index: nat) returns (r: Result<Entry, ReadError>)
      requires Valid()
      ensures r == if depth >= |depthCounts| then Err(DepthOutOfRange)
                   else if index >= |memory.contents[depth]| then Err(IndexOutOfRange)
                   else if !ramReady[depth] then Err(NotMaterialised)
                   else Ok(memory.contents[depth][index])
    {
      if depth >= |depthCounts| {
        return Err(DepthOutOfRange);
      }
      assert DepthOk(Snapshot(), depth) && PhaseOk(Snapshot(), depth);
      if index >= depthCounts[depth] {
        return Err(IndexOutOfRange);
      }
      if !ramReady[depth] {
        return Err(NotMaterialised);
      }
      return Ok(ramDepths[depth][index]);
    }

    /** Walks from a solution back to the initial frontier, filling the path from its end. */
    method WalkBack(solved: Entry, solvedDepth: u32) returns (r: Result<(seq<u8>, seq<u64>), PathError>)
      requires Valid() && 0 < solvedDepth <= |memory.committed| + 1
      requires forall d :: 0 <= d < |ramReady| ==> ramReady[d]
      ensures r.Err? ==> r == Err(ParentOutOfRange) && !Chained(memory.contents, solved, solvedDepth)
      ensures r.Ok? ==> Chained(memory.contents, solved, solvedDepth)
      ensures r.Ok? ==> r.value.0 == Moves(RoutesTo(memory.contents, solved, solvedDepth))
      ensures r.Ok? ==> r.value.1 == ParentsTo(memory.contents, solved, solvedDepth)
      ensures r.Ok? ==> |r.value.0| == |r.value.1| == solvedDepth
      ensures r.Ok? ==> r.value.1[0] == RootTo(memory.contents, solved, solvedDepth)
    {
      ghost var depths := memory.contents;
      var moves: seq<u8> := seq(solvedDepth, _ => 0);
      var parents: seq<u64> := seq(solvedDepth, _ => 0);
      var cursor, depth := solved, solvedDepth as int;
      WalkingStarts(depths, solved, solvedDepth, moves, parents);
      while depth > 0
        invariant Walking(depths, solved, solvedDepth, cursor, depth, moves, parents)
      {
        var out := depth - 1;
        ghost var before, above := moves, parents;
        moves := moves[out := UnpackMove(cursor.route)];
        parents := parents[out := cursor.parent];
        if out == 0 {
          WalkingEnds(depths, solved, solvedDepth, cursor, before, above);
          break;
        }
        WalkingStep(depths, solved, solvedDepth, cursor, depth, before, above);
        var entry := ReadEntry(out - 1, cursor.parent);
        if entry.Err? {
          return Err(ParentOutOfRange);
        }
        cursor := entry.value;
        depth := out;
      }
      return Ok((moves, parents));
    }

    /** `reconstruct_solution_from_history`: as the runner does, after everything has settled. A solution found
        while expanding the newest committed depth gets exactly the moves recorded before any pruning. */
    method Reconstruct(solved: Entry, solvedDepth: u32)
      returns (r: Result<(seq<u8>, seq<u64>), PathError>, ghost chain: seq<u64>)
      requires Valid() && Settled(Snapshot())
      ensures solvedDepth == 0 ==> r == Err(DepthNotPositive)
      ensures solvedDepth > |memory.committed| + 1 ==> r == Err(DepthExceedsHistory)
      ensures 0 < solvedDepth <= |memory.committed| + 1 ==>
                (r == Err(ParentOutOfRange) <==> !Chained(memory.contents, solved, solvedDepth))
      ensures r.Ok? ==> Chained(memory.contents, solved, solvedDepth) && |r.value.0| == |r.value.1| == solvedDepth
      ensures r.Ok? ==> r.value.0 == Moves(RoutesTo(memory.contents, solved, solvedDepth))
      ensures r.Ok? ==> r.value.1 == ParentsTo(memory.contents, solved, solvedDepth)
      ensures r.Ok? && solvedDepth == |memory.committed| + 1 ==>
                && InRange(memory.committed, solved, solvedDepth)
                && r.value.0 == Moves(RoutesTo(memory.committed, solved, solvedDepth))
                && r.value.1[0] == RootTo(memory.committed, solved, solvedDepth)
      ensures r.Ok? ==> PathThrough(memory.contents, solved, solvedDepth, r.value.0, r.value.1)
      ensures r == Err(ParentOutOfRange) ==>
                forall moves, parents :: !PathThrough(memory.contents, solved, solvedDepth, moves, parents)
      ensures r.Ok? && solvedDepth == |memory.committed| + 1 ==>
                PathThrough(memory.committed, solved, solvedDepth, r.value.0, chain) && chain[0] == r.value.1[0]
      ensures r.Err? ==> r.error.DepthNotPositive? || r.error.DepthExceedsHistory? || r.error.ParentOutOfRange?
    {
      chain := [];
      if solvedDepth == 0 {
        return Err(DepthNotPositive), chain;
      }
      if solvedDepth > |depthCounts| + 1 {
        return Err(DepthExceedsHistory), chain;
      }
      ghost var st := Snapshot();
      SettledIsFixpoint(st);
      r := WalkBack(solved, solvedDepth);
      if r.Err? {
        NoPath(solved, solvedDepth);
        return r, chain;
      }
      ChainedIsPath(st.contents, solved, solvedDepth);
      if solvedDepth == |depthCounts| + 1 {
        NewestRoutesUnchanged(st, solved);
        NewestChainIsCommitted(st, solved);
        ChainedIsPath(st.committed, solved, solvedDepth);
        chain := ParentsTo(st.committed, solved, solvedDepth);
      }
    }

    lemma NoPath(solved: Entry, depth: nat)
      requires !Chained(memory.contents, solved, depth)
      ensures forall moves, parents :: !PathThrough(memory.contents, solved, depth, moves, parents)
    {
      forall moves, parents | PathThrough(memory.contents, solved, depth, moves, parents) ensures false {
        PathIsChained(memory.contents, solved, depth, moves, parents);
      }
    }
  }
}
