/** The static-hybrid candidate history: planned disk and RAM ranges, with RAM fallback after disk failures
    (tools/history/candidate_history.hpp). Writers run and are collected at arbitrary moments. */
module StaticHybrid {
  import opened Candidates
  import opened HistoryBudget
  import opened HistoryState
  import opened HybridState
  import opened PruneAdjacent
  import opened Wrappers

  datatype CommitError = CountExceedsCapacity | NotDepthOrdered | Refused(reason: HistoryBudget.Error)

  datatype WriteError = MissingLocation | RamCapacity | RamFallbackExhausted

  datatype ReadError = DepthOutOfRange | IndexOutOfRange | NotMaterialised | RamReadExceedsCapacity | DiskReadFailed

  class Store {
    const capacity: u32
    const plan: Plan
    const ramArena: array<Entry>
    const diskArena: array<Entry>
    const stagingCapacity: u32
    ghost const beam: nat
    ghost const moves: nat
    var depthCounts: seq<nat>
    var depthLocations: seq<Located>
    var ramReady: seq<bool>
    var slots: seq<HybridSlot>
    var ramUsed: nat
    var diskWriteFailed: bool
    ghost var memory: Memory

    ghost function Snapshot(): Hybrid
      reads this, ramArena, diskArena
    {
      Hybrid(plan, beam, moves, depthCounts, depthLocations, ramReady, slots, ramUsed, ramArena[..], diskArena[..],
             memory.committed, memory.at, memory.written)
    }

    ghost predicate Valid()
      reads this, ramArena, diskArena
    {
      ramArena != diskArena && stagingCapacity > 0 && ramArena.Length <= U64_MAX && Safe(Snapshot())
    }

    constructor (capacity: u32, slotCount: nat, plan: Plan, ghost beam: nat, ghost moves: nat, ramEntries: u64,
                 diskEntries: u64)
      requires capacity > 0 && PlanOk(plan, |plan.depths|, beam, moves, ramEntries, diskEntries)
      ensures Valid() && memory.committed == [] && |slots| == slotCount && fresh(ramArena) && fresh(diskArena)
      ensures this.plan == plan && this.capacity == capacity
      ensures ramArena.Length == ramEntries && diskArena.Length == diskEntries
      ensures ramUsed == plan.ram && !diskWriteFailed
      ensures stagingCapacity == (if capacity < 1048576 then capacity else 1048576)
      ensures forall s :: 0 <= s < slotCount ==> slots[s].Free?
    {
      this.capacity, this.plan, this.beam, this.moves := capacity, plan, beam, moves;
      stagingCapacity := if capacity < 0x10_0000 then capacity else 0x10_0000;
      ramArena := new Entry[ramEntries](_ => Entry(0, 0));
      diskArena := new Entry[diskEntries](_ => Entry(0, 0));
      depthCounts, depthLocations, ramReady := [], [], [];
      slots := seq(slotCount, _ => Free);
      ramUsed, diskWriteFailed := plan.ram, false;
      memory := Memory([], [], []);
    }

    method Acquire(s: nat)
      requires Valid() && s < |slots| && slots[s].Free?
      modifies this`slots
      ensures Valid() && slots == old(slots)[s := Acquired]
    {
      SlotStepIsSafe(Snapshot(), s, Acquired);
      slots := slots[s := Acquired];
    }

    /** A planned disk range is given up once any disk write has failed. */
    predicate FallsBack(depth: nat)
      reads this
    {
      depth < |plan.depths| && plan.depths[depth].location == Disk && diskWriteFailed
    }

    function Place(depth: nat): Located
      reads this
      requires depth < |plan.depths|
    {
      if FallsBack(depth) then Located(Ram, ramUsed)
      else Located(plan.depths[depth].location, plan.depths[depth].offset)
    }

    /** `reserve_static_location`: the planned range, or the RAM tail once a disk write has failed. */
    method ReserveLocation(depth: nat, count: u32) returns (r: Result<Located, HistoryBudget.Error>)
      requires Valid() && depth == |depthCounts|
      modifies this`ramUsed
      ensures r.Ok? ==> MayCommitAt(old(Snapshot()), count, r.value, ramUsed) && r.value == old(Place(depth))
      ensures r.Ok? ==>
                if plan.depths[depth].location == Disk && diskWriteFailed
                then r.value == Located(Ram, old(ramUsed)) && ramUsed == old(ramUsed) + count
                else
                  && r.value == Located(plan.depths[depth].location, plan.depths[depth].offset)
                  && ramUsed == old(ramUsed)
      ensures r.Err? ==> ramUsed == old(ramUsed)
      ensures r == Err(DepthBeyondPlan) <==> depth >= |plan.depths|
      ensures r == Err(CountExceedsBound) <==> depth < |plan.depths| && count > plan.depths[depth].bound
      ensures r.Err? <==>
                || depth >= |plan.depths| || count > plan.depths[depth].bound
                || (plan.depths[depth].location == Disk && diskWriteFailed && old(ramUsed) + count > ramArena.Length)
    {
      var reservation := Lookup(plan, depth, count);
      if reservation.Err? {
        return Err(reservation.error);
      }
      if reservation.value.location == Disk && diskWriteFailed {
        var offset, end := ReserveFallbackRam(count, ramArena.Length, ramUsed);
        if offset.None? {
          return Err(FallbackExhausted);
        }
        ramUsed := end;
        return Ok(Located(Ram, offset.value));
      }
      return Ok(Located(reservation.value.location, reservation.value.offset));
    }

    /** On an error after the capacity check the slot stays marked as copying, without a location. */
    method CommitSlot(s: nat, depth: nat, host: seq<Candidate>) returns (error: Option<CommitError>)
      requires Valid() && s < |slots| && slots[s].Acquired?
      modifies this
      ensures Valid()
      ensures error == Some(CountExceedsCapacity) <==> |host| > capacity
      ensures error == Some(NotDepthOrdered) <==> |host| <= capacity && depth != old(|depthCounts|)
      ensures error.Some? && error.value.Refused? <==>
                && |host| <= capacity && depth == old(|depthCounts|)
                && (|| depth >= |plan.depths| || |host| > plan.depths[depth].bound
                    || (plan.depths[depth].location == Disk && diskWriteFailed
                        && old(ramUsed) + |host| > ramArena.Length))
      ensures |slots| == old(|slots|) && forall t :: 0 <= t < |slots| && t != s ==> slots[t] == old(slots)[t]
      ensures error == Some(CountExceedsCapacity) ==> unchanged(this)
      ensures error.Some? && error != Some(CountExceedsCapacity) ==> slots[s] == Copying(Work(depth, host, None))
      ensures error.Some? ==> memory == old(memory) && depthCounts == old(depthCounts) && ramUsed == old(ramUsed)
      ensures error.None? ==> slots[s] == Copying(Work(depth, host, Some(old(Place(depth)))))
      ensures error.None? ==> memory.committed == old(memory.committed) + [Compress(host)]
      ensures error.None? ==>
                var entries := memory.committed[depth];
                && |memory.committed| == depth + 1 && |entries| == |host|
                && forall i :: 0 <= i < |host| ==> entries[i] == Entry(host[i].parent, host[i].route)
      ensures error.None? ==> MayCommitAt(old(Snapshot()), |host|, memory.at[|old(memory.committed)|], ramUsed)
      ensures error.None? ==> memory.at == old(memory.at) + [old(Place(depth))]
      ensures error.None? ==>
                memory.at[depth] ==
                if plan.depths[depth].location == Disk && diskWriteFailed then Located(Ram, old(ramUsed))
                else Located(plan.depths[depth].location, plan.depths[depth].offset)
      ensures diskWriteFailed == old(diskWriteFailed)
    {
      if |host| > capacity {
        return Some(CountExceedsCapacity);
      }
      if depth != |depthCounts| {
        SlotStepIsSafe(Snapshot(), s, Copying(Work(depth, host, None)));
        slots := slots[s := Copying(Work(depth, host, None))];
        return Some(NotDepthOrdered);
      }
      ghost var h := Snapshot();
      var location := ReserveLocation(depth, |host|);
      if location.Err? {
        SlotStepIsSafe(Snapshot(), s, Copying(Work(depth, host, None)));
        slots := slots[s := Copying(Work(depth, host, None))];
        return Some(Refused(location.error));
      }
      PushDepth(h, s, host, location.value);
      return None;
    }

    /** The depth is recorded at its place and left with its slot. */
    method PushDepth(ghost h: Hybrid, s: nat, host: seq<Candidate>, here: Located)
      requires ramArena != diskArena && stagingCapacity > 0 && ramArena.Length <= U64_MAX
      requires Safe(h) && Snapshot() == h.(ramUsed := ramUsed)
      requires s < |slots| && slots[s].Acquired? && MayCommitAt(h, |host|, here, ramUsed)
      modifies this`slots, this`depthLocations, this`depthCounts, this`ramReady, this`memory
      ensures Valid() && slots == old(slots)[s := Copying(Work(old(|depthCounts|), host, Some(here)))]
      ensures memory.committed == old(memory.committed) + [Compress(host)] && memory.at == old(memory.at) + [here]
    {
      CommitAtIsSafe(h, s, host, here, ramUsed);
      slots := slots[s := Copying(Work(|depthCounts|, host, Some(here)))];
      depthLocations := depthLocations + [here];
      depthCounts := depthCounts + [|host|];
      ramReady := ramReady + [false];
      memory := Memory(memory.committed + [Compress(host)], memory.at + [here], memory.written + [false]);
      assert Snapshot() == CommitAt(h, s, host, here, ramUsed);
    }

    method StartWriter(s: nat)
      requires Valid() && s < |slots| && slots[s].Copying?
      modifies this`slots
      ensures Valid() && slots == old(slots)[s := Writing(old(slots)[s].work)]
    {
      SlotStepIsSafe(Snapshot(), s, Writing(slots[s].work));
      slots := slots[s := Writing(slots[s].work)];
    }

    /** `materialize_depth` on the writer thread. Whether a disk write fails is not determined. A writer that
        throws leaves its slot broken and its depth unwritten; nothing else is affected. */
    method RunWriter(s: nat) returns (error: Option<WriteError>)
      requires Valid() && s < |slots| && slots[s].Writing?
      modifies this`slots, this`ramUsed, this`diskWriteFailed, this`memory, ramArena, diskArena
      ensures Valid() && memory.committed == old(memory.committed) && |slots| == old(|slots|)
      ensures forall t :: 0 <= t < |slots| && t != s ==> slots[t] == old(slots)[t]
      ensures error.None? <==> slots[s].Written?
      ensures error.None? ==>
                && old(slots)[s].work.depth < old(|memory.written|)
                && memory.written == old(memory.written)[old(slots)[s].work.depth := true]
      ensures error.Some? ==> slots[s] == Broken(old(slots)[s].work) && memory == old(memory)
      ensures error == Some(MissingLocation) <==> old(slots)[s].work.location.None?
      ensures error == Some(RamCapacity) ==>
                && ramArena.Length == 0 && old(slots)[s].work.location.Some?
                && (old(slots)[s].work.location.value.arena == Ram || diskWriteFailed)
      ensures error == Some(RamFallbackExhausted) ==>
                && old(slots)[s].work.location.Some? && old(slots)[s].work.location.value.arena == Disk
                && diskWriteFailed && |old(slots)[s].work.host| > ramArena.Length - old(ramUsed)
      ensures error == Some(RamFallbackExhausted) ==>
                plan.ram + old(Moved(plan.depths, memory.at, depthCounts, |depthCounts|)) + |old(slots)[s].work.host|
                > ramArena.Length
      ensures error.None? && slots[s].result == old(slots)[s].work.location.value ==>
                ramUsed == old(ramUsed) && diskWriteFailed == old(diskWriteFailed)
      ensures error.None? && slots[s].result != old(slots)[s].work.location.value ==>
                && old(slots)[s].work.location.value.arena == Disk && diskWriteFailed
                && slots[s].result == Located(Ram, old(ramUsed)) && ramUsed == old(ramUsed) + |old(slots)[s].work.host|
      ensures old(diskWriteFailed) ==> diskWriteFailed
    {
      ghost var h := Snapshot();
      var work := slots[s].work;
      if work.location.None? {
        SlotStepIsSafe(h, s, Broken(work));
        slots := slots[s := Broken(slots[s].work)];
        return Some(MissingLocation);
      }
      assert SlotFine(h, s) && DepthFine(h, work.depth);
      RangesAreInside(h, work.depth);
      var here := work.location.value;
      if here.arena == Ram {
        error := RunRamWriter(s, here);
      } else {
        error := RunDiskWriter(s, here);
      }
    }

    method RunRamWriter(s: nat, here: Located) returns (error: Option<WriteError>)
      requires Valid() && s < |slots| && slots[s].Writing? && slots[s].work.location == Some(here) && here.arena == Ram
      requires slots[s].work.depth < |memory.at| && here == memory.at[slots[s].work.depth]
      requires depthCounts[slots[s].work.depth] == |slots[s].work.host|
      requires here.offset + |slots[s].work.host| <= ramArena.Length
      requires memory.committed[slots[s].work.depth] == Compress(slots[s].work.host)
      modifies this`slots, this`memory, ramArena
      ensures Valid() && memory.committed == old(memory.committed) && |slots| == old(|slots|)
      ensures forall t :: 0 <= t < |slots| && t != s ==> slots[t] == old(slots)[t]
      ensures error.None? ==> slots[s] == Written(old(slots)[s].work, here)
      ensures error.None? ==> memory.written == old(memory.written)[old(slots)[s].work.depth := true]
      ensures error.Some? ==> error == Some(RamCapacity) && ramArena.Length == 0
      ensures error.Some? ==> slots[s] == Broken(old(slots)[s].work) && memory == old(memory)
    {
      ghost var h := Snapshot();
      var work := slots[s].work;
      if ramArena.Length == 0 || here.offset + |work.host| > ramArena.Length {
        SlotStepIsSafe(h, s, Broken(work));
        slots := slots[s := Broken(work)];
        return Some(RamCapacity);
      }
      WriteChunks(ramArena, here.offset, work.host, |work.host| + 1);
      OwnRamWrite(h, s, here, ramArena[..]);
      Record(h, s, here);
      return None;
    }

    method RunDiskWriter(s: nat, here: Located) returns (error: Option<WriteError>)
      requires Valid() && s < |slots| && slots[s].Writing? && slots[s].work.location == Some(here) && here.arena == Disk
      requires slots[s].work.depth < |memory.at| && here == memory.at[slots[s].work.depth]
      requires depthCounts[slots[s].work.depth] == |slots[s].work.host|
      requires here.offset + |slots[s].work.host| <= diskArena.Length
      requires memory.committed[slots[s].work.depth] == Compress(slots[s].work.host)
      modifies this`slots, this`ramUsed, this`diskWriteFailed, this`memory, ramArena, diskArena
      ensures Valid() && memory.committed == old(memory.committed) && |slots| == old(|slots|)
      ensures forall t :: 0 <= t < |slots| && t != s ==> slots[t] == old(slots)[t]
      ensures error.None? <==> slots[s].Written?
      ensures error.None? ==> memory.written == old(memory.written)[old(slots)[s].work.depth := true]
      ensures error.Some? ==> slots[s] == Broken(old(slots)[s].work) && memory == old(memory)
      ensures error != Some(MissingLocation)
      ensures error == Some(RamCapacity) ==>
                && ramArena.Length == 0 && old(slots)[s].work.location.Some?
                && (old(slots)[s].work.location.value.arena == Ram || diskWriteFailed)
      ensures error == Some(RamFallbackExhausted) ==>
                && old(slots)[s].work.location.Some? && old(slots)[s].work.location.value.arena == Disk
                && diskWriteFailed && |old(slots)[s].work.host| > ramArena.Length - old(ramUsed)
      ensures error.None? && slots[s].result == old(slots)[s].work.location.value ==>
                ramUsed == old(ramUsed) && diskWriteFailed == old(diskWriteFailed)
      ensures error.None? && slots[s].result != old(slots)[s].work.location.value ==>
                && old(slots)[s].work.location.value.arena == Disk && diskWriteFailed
                && slots[s].result == Located(Ram, old(ramUsed)) && ramUsed == old(ramUsed) + |old(slots)[s].work.host|
      ensures old(diskWriteFailed) ==> diskWriteFailed
    {
      ghost var h := Snapshot();
      var work := slots[s].work;
      var fails: bool := *;
      if !fails {
        WriteChunks(diskArena, here.offset, work.host, stagingCapacity);
        OwnDiskWrite(h, s, here, diskArena[..]);
        Record(h, s, here);
        return None;
      }
      SpoilRange(diskArena, here.offset, |work.host|);
      diskWriteFailed := true;
      error := FallBack(h, s);
    }

    /** Both threads' bookkeeping of a successful write. */
    method Record(ghost h: Hybrid, s: nat, here: Located)
      requires ramArena != diskArena && stagingCapacity > 0 && ramArena.Length <= U64_MAX
      requires Safe(h) && s < |slots| && slots[s].Writing? && Pending(slots[s]) && slots[s].work.depth < |h.committed|
      requires Snapshot() == h.(ramUsed := ramUsed, ram := ramArena[..], disk := diskArena[..])
      requires MayWrite(h, s, here, ramUsed, ramArena[..], diskArena[..])
      modifies this`slots, this`memory
      ensures Valid() && memory.committed == old(memory.committed)
      ensures slots == old(slots)[s := Written(old(slots)[s].work, here)]
      ensures memory.written == old(memory.written)[old(slots)[s].work.depth := true]
    {
      WriteIsSafe(h, s, here, ramUsed, ramArena[..], diskArena[..]);
      var d := slots[s].work.depth;
      memory := memory.(at := memory.at[d := here], written := memory.written[d := true]);
      slots := slots[s := Written(slots[s].work, here)];
      assert Snapshot() == WriteAt(h, s, here, ramUsed, ramArena[..], diskArena[..]);
    }

    /** `reserve_static_ram_fallback`, then the RAM write, after the disk range has been spoiled. */
    method FallBack(ghost h: Hybrid, s: nat) returns (error: Option<WriteError>)
      requires ramArena != diskArena && stagingCapacity > 0 && ramArena.Length <= U64_MAX
      requires Safe(h) && s < |slots| && slots[s].Writing? && Pending(slots[s]) && slots[s].work.depth < |h.committed|
      requires Snapshot() == h.(disk := diskArena[..]) && diskWriteFailed
      requires var d := slots[s].work.depth;
               && h.at[d].arena == Disk && h.counts[d] == |slots[s].work.host|
               && h.committed[d] == Compress(slots[s].work.host)
               && SameOutside(h.disk, diskArena[..], h.at[d].offset, h.counts[d])
      modifies this`slots, this`ramUsed, this`memory, ramArena
      ensures Valid() && memory.committed == old(memory.committed) && |slots| == old(|slots|)
      ensures forall t :: 0 <= t < |slots| && t != s ==> slots[t] == old(slots)[t]
      ensures error.None? <==> slots[s].Written?
      ensures error.None? ==> memory.written == old(memory.written)[old(slots)[s].work.depth := true]
      ensures error.Some? ==> slots[s] == Broken(old(slots)[s].work) && memory == old(memory)
      ensures error != Some(MissingLocation)
      ensures error == Some(RamFallbackExhausted) <==> |old(slots)[s].work.host| > ramArena.Length - old(ramUsed)
      ensures error == Some(RamCapacity) ==> ramArena.Length == 0
      ensures error.None? ==> slots[s] == Written(old(slots)[s].work, Located(Ram, old(ramUsed)))
      ensures error.None? ==> ramUsed == old(ramUsed) + |old(slots)[s].work.host|
    {
      var host := slots[s].work.host;
      if |host| > ramArena.Length - ramUsed {
        SpoiledDiskIsSafe(h, s, diskArena[..]);
        slots := slots[s := Broken(slots[s].work)];
        return Some(RamFallbackExhausted);
      }
      if ramArena.Length == 0 {
        SpoiledDiskIsSafe(h, s, diskArena[..]);
        slots := slots[s := Broken(slots[s].work)];
        return Some(RamCapacity);
      }
      var here := Located(Ram, ramUsed);
      ramUsed := ramUsed + |host|;
      WriteChunks(ramArena, here.offset, host, |host| + 1);
      Record(h, s, here);
      return None;
    }

    method Collect(s: nat)
      requires Valid() && s < |slots| && slots[s].Written?
      modifies this`slots, this`ramReady, this`depthLocations
      ensures Valid() && slots == old(slots)[s := Free]
      ensures old(slots)[s].work.depth < |ramReady| && ramReady == old(ramReady)[old(slots)[s].work.depth := true]
    {
      ghost var h := Snapshot();
      CollectIsSafe(h, s);
      var d := slots[s].work.depth;
      depthLocations := depthLocations[d := slots[s].result];
      ramReady := ramReady[d := true];
      slots := slots[s := Free];
      assert Snapshot() == HybridState.Collect(h, s);
    }

    /** No slot has work that is pending, waiting to be collected or broken. */
    predicate Idle()
      reads this
    {
      forall s :: 0 <= s < |slots| ==> slots[s].Free? || slots[s].Acquired?
    }

    /** Reading a materialised depth gives exactly what was committed, wherever it was placed or moved, unless
        the disk fails to read. When the store is idle every committed depth is materialised. */
    method ReadEntry(depth: nat, index: nat) returns (r: Result<Entry, ReadError>)
      requires Valid()
      ensures r == Err(DiskReadFailed) ==>
                && depth < |memory.committed| && index < |memory.committed[depth]| && ramReady[depth]
                && memory.at[depth].arena == Disk
      ensures r != Err(DiskReadFailed) ==>
                r == if depth >= |memory.committed| then Err(DepthOutOfRange)
                     else if index >= |memory.committed[depth]| then Err(IndexOutOfRange)
                     else if !ramReady[depth] then Err(NotMaterialised)
                     else Ok(memory.committed[depth][index])
      ensures Idle() ==> r != Err(NotMaterialised)
    {
      if depth >= |depthCounts| {
        return Err(DepthOutOfRange);
      }
      assert DepthFine(Snapshot(), depth);
      if index >= depthCounts[depth] {
        return Err(IndexOutOfRange);
      }
      if Idle() {
        IdleIsReady(Snapshot());
      }
      if depth >= |depthLocations| || depth >= |ramReady| || !ramReady[depth] {
        return Err(NotMaterialised);
      }
      ReadyEntry(Snapshot(), depth, index);
      var location := depthLocations[depth];
      if location.arena == Ram {
        if location.offset + index >= ramArena.Length {
          return Err(RamReadExceedsCapacity);
        }
        return Ok(ramArena[location.offset + index]);
      }
      var readFails: bool := *;
      if readFails || location.offset + index >= diskArena.Length {
        return Err(DiskReadFailed);
      }
      return Ok(diskArena[location.offset + index]);
    }
  }

  /** What the proofs remember beside the real fields. */
  datatype Memory = Memory(committed: seq<Depth>, at: seq<Located>, written: seq<bool>)

  /** Entries are compressed into a bounded staging buffer and written chunk by chunk. */
  method WriteChunks(arena: array<Entry>, offset: nat, host: seq<Candidate>, stagingCapacity: nat)
    requires stagingCapacity > 0 && offset + |host| <= arena.Length
    modifies arena
    ensures arena[offset..offset + |host|] == Compress(host)
    ensures forall k :: 0 <= k < |host| ==> arena[offset + k] == Entry(host[k].parent, host[k].route)
    ensures SameOutside(old(arena[..]), arena[..], offset, |host|)
  {
    var begin := 0;
    while begin < |host|
      invariant 0 <= begin <= |host|
      invariant forall k :: 0 <= k < begin ==> arena[offset + k] == Compress(host)[k]
      invariant SameOutside(old(arena[..]), arena[..], offset, |host|)
    {
      var chunk := if stagingCapacity < |host| - begin then stagingCapacity else |host| - begin;
      var staging := Compress(host[begin..begin + chunk]);
      for i := 0 to chunk
        invariant forall k :: 0 <= k < begin + i ==> arena[offset + k] == Compress(host)[k]
        invariant SameOutside(old(arena[..]), arena[..], offset, |host|)
      {
        arena[offset + begin + i] := staging[i];
      }
      begin := begin + chunk;
    }
  }

  /** A write that fails part-way: anything may be in the range, nothing outside it changes. */
  method SpoilRange(arena: array<Entry>, offset: nat, count: nat)
    requires offset + count <= arena.Length
    modifies arena
    ensures SameOutside(old(arena[..]), arena[..], offset, count)
  {
    for i := 0 to count
      invariant SameOutside(old(arena[..]), arena[..], offset, count)
    {
      var junk: Entry := *;
      arena[offset + i] := junk;
    }
  }
}
