/** The in-memory candidate history as values: what is stored where, and what every step keeps
    (tools/history/candidate_history.hpp, RAM mode). */
module HistoryState {
  import opened Candidates
  import opened PruneAdjacent

  type Depth = seq<Entry>

  /** A prune of depths `depth` and `depth + 1`, running on the contents moved out of the store. */
  datatype Job = Job(depth: nat, previous: Depth, current: Depth)

  /** A pinned slot: free, acquired, being copied to (`copying`) or being written out (`writing`). */
  datatype Slot = Slot(free: bool, copying: bool, writing: bool, depth: nat, host: seq<Candidate>)
  {
    predicate Busy() {
      copying || writing
    }
  }

  /** Where a committed depth currently is. */
  datatype Phase = InSlot(slot: nat) | Stored | InJob(job: nat)

  /** The real fields of the store, followed by what the proofs remember: the entries as committed, the current
      logical contents, and for each current entry the committed entry it descends from. */
  datatype State = State(
    prune: bool, counts: seq<nat>, ram: seq<Depth>, ready: seq<bool>, dirty: seq<bool>,
    jobs: seq<Job>, slots: seq<Slot>,
    stored: int, pruned: int,
    committed: seq<Depth>, contents: seq<Depth>, keep: seq<seq<nat>>, phase: seq<Phase>)

  function Compress(host: seq<Candidate>): Depth {
    seq(|host|, (i: nat) requires i < |host| => Entry(host[i].parent, host[i].route))
  }

  const ENTRY_BYTES: nat := 16

  function Total(depths: seq<Depth>): nat {
    if depths == [] then 0 else Total(depths[..|depths| - 1]) + |depths[|depths| - 1]|
  }

  ghost predicate Sized(st: State) {
    |st.committed| == |st.contents| == |st.keep| == |st.phase| == |st.counts| == |st.ram| == |st.ready| == |st.dirty|
  }

  /** The current entries of a depth are some of the committed ones, in order, with their routes. */
  ghost predicate DepthOk(st: State, d: nat)
    requires Sized(st) && d < |st.committed|
  {
    var now, was, keep := st.contents[d], st.committed[d], st.keep[d];
    && |keep| == |now| <= |was| <= U32_MAX && st.counts[d] == |now|
    && Increasing(keep)
    && forall i :: 0 <= i < |now| ==> keep[i] < |was| && now[i].route == was[keep[i]].route
  }

  /** The current parent of an entry descends from its committed parent. */
  ghost predicate LinkOk(st: State, d: nat)
    requires Sized(st) && 0 < d < |st.committed| && DepthOk(st, d) && DepthOk(st, d - 1)
  {
    forall i :: 0 <= i < |st.contents[d]| ==>
      && st.contents[d][i].parent < |st.contents[d - 1]|
      && st.keep[d - 1][st.contents[d][i].parent] == st.committed[d][st.keep[d][i]].parent
  }

  ghost predicate RootOk(st: State)
    requires Sized(st) && |st.committed| > 0 && DepthOk(st, 0)
  {
    forall i :: 0 <= i < |st.contents[0]| ==> st.contents[0][i].parent == st.committed[0][st.keep[0][i]].parent
  }

  ghost predicate Traced(st: State)
    requires Sized(st)
  {
    && (forall d :: 0 <= d < |st.committed| ==> DepthOk(st, d))
    && (|st.committed| > 0 ==> RootOk(st))
    && (st.prune ==> forall d :: 0 < d < |st.committed| ==> LinkOk(st, d))
    && (!st.prune ==> Untouched(st))
  }

  /** With pruning off nothing is ever dirty, in a job or removed. */
  ghost predicate Untouched(st: State)
    requires Sized(st)
  {
    && st.contents == st.committed && st.jobs == []
    && (forall d :: 0 <= d < |st.dirty| ==> !st.dirty[d])
    && forall d, i :: 0 <= d < |st.keep| && 0 <= i < |st.keep[d]| ==> st.keep[d][i] == i
  }

  ghost predicate Whole(st: State, d: nat)
    requires Sized(st) && d < |st.committed|
  {
    |st.contents[d]| == |st.committed[d]|
  }

  ghost predicate PhaseOk(st: State, d: nat)
    requires Sized(st) && d < |st.committed|
  {
    && (st.ready[d] <==> st.phase[d].Stored?)
    && (st.ready[d] ==> st.ram[d] == st.contents[d])
    && (st.phase[d].InSlot? ==>
          && st.contents[d] == st.committed[d]
          && st.phase[d].slot < |st.slots| && st.slots[st.phase[d].slot].Busy()
          && st.slots[st.phase[d].slot].depth == d)
    && (st.phase[d].InJob? ==> (st.phase[d].job == d || st.phase[d].job + 1 == d) && HasJob(st.jobs, st.phase[d].job))
    // only a depth whose successor has been materialised may have lost entries
    && (d + 1 == |st.committed| || st.phase[d + 1].InSlot? ==> Whole(st, d))
  }

  ghost predicate HasJob(jobs: seq<Job>, depth: nat) {
    exists k :: 0 <= k < |jobs| && jobs[k].depth == depth
  }

  ghost predicate JobOk(st: State, k: nat)
    requires Sized(st) && k < |st.jobs|
  {
    var j := st.jobs[k];
    && j.depth + 1 < |st.committed| && st.dirty[j.depth]
    && st.phase[j.depth] == st.phase[j.depth + 1] == InJob(j.depth)
    && j.previous == st.contents[j.depth] && j.current == st.contents[j.depth + 1]
  }

  /** No depth is in two in-flight jobs. */
  ghost predicate JobsApart(jobs: seq<Job>) {
    forall a, b :: 0 <= a < b < |jobs| ==>
      jobs[a].depth != jobs[b].depth && jobs[a].depth + 1 != jobs[b].depth && jobs[b].depth + 1 != jobs[a].depth
  }

  ghost predicate SlotOk(st: State, s: nat)
    requires Sized(st) && s < |st.slots|
  {
    var slot := st.slots[s];
    && (slot.free ==> !slot.Busy()) && !(slot.copying && slot.writing)
    && (slot.Busy() ==>
          slot.depth < |st.committed| && st.phase[slot.depth] == InSlot(s)
          && st.committed[slot.depth] == Compress(slot.host))
  }

  /** Every entry of the earlier depth is some entry's parent. */
  ghost predicate Full(previous: Depth, current: Depth) {
    forall i :: 0 <= i < |previous| ==> Referenced(current, i)
  }

  lemma FullMeansUsed(previous: Depth, current: Depth)
    requires Full(previous, current)
    ensures AllUsed(previous, current)
  {
    forall i: u64 | i < |previous| ensures i in Parents(current) {
      assert Referenced(current, i);
    }
  }

  /** A depth not marked dirty needs no pruning against its materialised successor. */
  ghost predicate CleanOk(st: State, d: nat)
    requires Sized(st) && d < |st.committed|
  {
    st.prune && d + 1 < |st.committed| && !st.phase[d + 1].InSlot? && !st.dirty[d] ==>
      Full(st.contents[d], st.contents[d + 1])
  }

  ghost predicate BytesOk(st: State) {
    && st.stored + st.pruned == ENTRY_BYTES * Total(st.committed)
    && st.stored == ENTRY_BYTES * Total(st.contents)
  }

  ghost predicate Inv(st: State) {
    && Sized(st) && Traced(st)
    && (forall d :: 0 <= d < |st.committed| ==> PhaseOk(st, d))
    && (forall k :: 0 <= k < |st.jobs| ==> JobOk(st, k))
    && JobsApart(st.jobs)
    && (forall s :: 0 <= s < |st.slots| ==> SlotOk(st, s))
    && (forall d :: 0 <= d < |st.committed| ==> CleanOk(st, d))
    && BytesOk(st)
  }

  // ---- reading paths back ----

  /** The routes from the root to entry `i` of depth `d`. */
  function Routes(depths: seq<Depth>, d: nat, i: nat): seq<u32>
    requires d < |depths| && i < |depths[d]|
  {
    if d == 0 then [depths[0][i].route]
    else if depths[d][i].parent < |depths[d - 1]| then Routes(depths, d - 1, depths[d][i].parent) + [depths[d][i].route]
    else []
  }

  /** The parent index in the initial frontier at the root of that path. */
  function Root(depths: seq<Depth>, d: nat, i: nat): u64
    requires d < |depths| && i < |depths[d]|
  {
    if d == 0 then depths[0][i].parent
    else if depths[d][i].parent < |depths[d - 1]| then Root(depths, d - 1, depths[d][i].parent)
    else 0
  }

  /** Whatever has been pruned, an entry reads back the path of the committed entry it descends from. */
  lemma {:induction false} PathsPreserved(st: State, d: nat, i: nat)
    requires Sized(st) && Traced(st) && d < |st.committed| && i < |st.contents[d]|
    ensures DepthOk(st, d)
    ensures Routes(st.contents, d, i) == Routes(st.committed, d, st.keep[d][i])
    ensures Root(st.contents, d, i) == Root(st.committed, d, st.keep[d][i])
  {
    assert DepthOk(st, d);
    if d > 0 && st.prune {
      assert DepthOk(st, d - 1) && LinkOk(st, d);
      PathsPreserved(st, d - 1, st.contents[d][i].parent);
    }
  }

  /** The routes to a candidate `entry` generated at `depth`, the entries of its ancestors being in `depths`. */
  function RoutesTo(depths: seq<Depth>, entry: Entry, depth: nat): seq<u32>
    requires 0 < depth <= |depths| + 1 && (depth > 1 ==> entry.parent < |depths[depth - 2]|)
  {
    if depth == 1 then [entry.route] else Routes(depths, depth - 2, entry.parent) + [entry.route]
  }

  function RootTo(depths: seq<Depth>, entry: Entry, depth: nat): u64
    requires 0 < depth <= |depths| + 1 && (depth > 1 ==> entry.parent < |depths[depth - 2]|)
  {
    if depth == 1 then entry.parent else Root(depths, depth - 2, entry.parent)
  }

  /** The parent index read at every depth of that path. */
  function ParentsTo(depths: seq<Depth>, entry: Entry, depth: nat): seq<u64>
    requires depth <= |depths| + 1
    decreases depth
  {
    if depth == 0 then []
    else if depth == 1 then [entry.parent]
    else if entry.parent < |depths[depth - 2]| then
      ParentsTo(depths, depths[depth - 2][entry.parent], depth - 1) + [entry.parent]
    else []
  }

  function Moves(routes: seq<u32>): (moves: seq<u8>)
    ensures |moves| == |routes|
  {
    seq(|routes|, (i: nat) requires i < |routes| => UnpackMove(routes[i]))
  }

  ghost predicate InRange(depths: seq<Depth>, entry: Entry, depth: nat) {
    0 < depth <= |depths| + 1 && (depth > 1 ==> entry.parent < |depths[depth - 2]|)
  }

  /** The entry's parent and all parents above it are in range. */
  ghost predicate Chained(depths: seq<Depth>, entry: Entry, depth: nat)
    decreases depth
  {
    InRange(depths, entry, depth) && (depth > 1 ==> Chained(depths, depths[depth - 2][entry.parent], depth - 1))
  }

  /** A path without recursion: its last step is the solution's own, and every earlier parent index names the
      entry, of the depth before, whose move and parent stand one place earlier. */
  ghost predicate PathThrough(depths: seq<Depth>, solved: Entry, depth: nat, moves: seq<u8>, parents: seq<u64>) {
    && 0 < depth <= |depths| + 1 && |moves| == |parents| == depth
    && moves[depth - 1] == solved.route % 256 && parents[depth - 1] == solved.parent
    && forall k :: 0 <= k < depth - 1 ==> StepThrough(depths[k], moves, parents, k)
  }

  ghost predicate StepThrough(entries: Depth, moves: seq<u8>, parents: seq<u64>, k: nat) {
    && k + 1 < |moves| == |parents| && parents[k + 1] < |entries|
    && moves[k] == entries[parents[k + 1]].route % 256 && parents[k] == entries[parents[k + 1]].parent
  }

  lemma {:induction false} ChainedIsPath(depths: seq<Depth>, entry: Entry, depth: nat)
    requires Chained(depths, entry, depth)
    ensures PathThrough(depths, entry, depth, Moves(RoutesTo(depths, entry, depth)), ParentsTo(depths, entry, depth))
    ensures ParentsTo(depths, entry, depth)[0] == RootTo(depths, entry, depth)
    decreases depth
  {
    ChainedLengths(depths, entry, depth);
    if depth > 1 {
      var above := depths[depth - 2][entry.parent];
      ChainedIsPath(depths, above, depth - 1);
      var moves, parents := Moves(RoutesTo(depths, above, depth - 1)), ParentsTo(depths, above, depth - 1);
      LongerPath(depths, entry, depth, moves, parents);
      assert Moves(RoutesTo(depths, entry, depth)) == moves + [UnpackMove(entry.route)];
      assert ParentsTo(depths, entry, depth) == parents + [entry.parent];
    }
  }

  lemma LongerPath(depths: seq<Depth>, entry: Entry, depth: nat, moves: seq<u8>, parents: seq<u64>)
    requires InRange(depths, entry, depth) && depth > 1
    requires PathThrough(depths, depths[depth - 2][entry.parent], depth - 1, moves, parents)
    ensures PathThrough(depths, entry, depth, moves + [UnpackMove(entry.route)], parents + [entry.parent])
  {
    var moves', parents' := moves + [UnpackMove(entry.route)], parents + [entry.parent];
    forall k | 0 <= k < depth - 1 ensures StepThrough(depths[k], moves', parents', k) {
      assert k < depth - 2 ==> StepThrough(depths[k], moves, parents, k);
    }
  }

  lemma {:induction false} PathIsChained(depths: seq<Depth>, entry: Entry, depth: nat, moves: seq<u8>,
                                         parents: seq<u64>)
    requires PathThrough(depths, entry, depth, moves, parents)
    ensures Chained(depths, entry, depth)
    decreases depth
  {
    if depth > 1 {
      var last := depth - 2;
      assert StepThrough(depths[last], moves, parents, last);
      forall k | 0 <= k < depth - 2 ensures StepThrough(depths[k], moves[..depth - 1], parents[..depth - 1], k) {
        assert StepThrough(depths[k], moves, parents, k);
      }
      PathIsChained(depths, depths[last][entry.parent], depth - 1, moves[..depth - 1], parents[..depth - 1]);
    }
  }

  /** A chain through the current contents descends from a chain through the committed entries. */
  lemma {:induction false} ChainedWhenCommitted(st: State, d: nat, i: nat)
    requires Inv(st) && d < |st.committed| && i < |st.contents[d]| && Chained(st.contents, st.contents[d][i], d + 1)
    ensures DepthOk(st, d) && st.keep[d][i] < |st.committed[d]|
    ensures Chained(st.committed, st.committed[d][st.keep[d][i]], d + 1)
  {
    assert DepthOk(st, d);
    if d > 0 {
      assert DepthOk(st, d - 1);
      ChainedWhenCommitted(st, d - 1, st.contents[d][i].parent);
      if st.prune {
        assert LinkOk(st, d);
      }
    }
  }

  lemma NewestChainIsCommitted(st: State, solved: Entry)
    requires Inv(st) && Chained(st.contents, solved, |st.committed| + 1)
    ensures Chained(st.committed, solved, |st.committed| + 1)
  {
    if st.committed != [] {
      var d := |st.committed| - 1;
      assert PhaseOk(st, d) && DepthOk(st, d);
      ChainedWhenCommitted(st, d, solved.parent);
      IncreasingIsIdentity(st.keep[d], solved.parent);
    }
  }

  lemma {:induction false} ChainedLengths(depths: seq<Depth>, entry: Entry, depth: nat)
    requires Chained(depths, entry, depth)
    ensures |RoutesTo(depths, entry, depth)| == depth && |ParentsTo(depths, entry, depth)| == depth
    decreases depth
  {
    if depth > 1 {
      ChainedLengths(depths, depths[depth - 2][entry.parent], depth - 1);
    }
  }

  /** While pruning is on, every parent recorded in the store is in range. */
  lemma {:induction false} InRangeIsChained(st: State, entry: Entry, depth: nat)
    requires Inv(st) && st.prune && InRange(st.contents, entry, depth)
    ensures Chained(st.contents, entry, depth)
    decreases depth
  {
    if depth > 1 {
      var d := depth - 2;
      assert DepthOk(st, d);
      if d > 0 {
        assert DepthOk(st, d - 1) && LinkOk(st, d);
      }
      InRangeIsChained(st, st.contents[d][entry.parent], depth - 1);
    }
  }

  /** A walk back from `solved` has reached `cursor`: what is left to read is a prefix of the answer. */
  ghost predicate Walk(depths: seq<Depth>, solved: Entry, solvedDepth: nat, cursor: Entry, depth: nat,
                       moves: seq<u8>, parents: seq<u64>)
  {
    && Chained(depths, solved, solvedDepth) && Chained(depths, cursor, depth)
    && depth <= solvedDepth == |moves| == |parents|
    && RoutesTo(depths, cursor, depth) <= RoutesTo(depths, solved, solvedDepth)
    && |RoutesTo(depths, cursor, depth)| == depth && |RoutesTo(depths, solved, solvedDepth)| == solvedDepth
    && RootTo(depths, cursor, depth) == RootTo(depths, solved, solvedDepth)
    && ParentsTo(depths, cursor, depth) <= ParentsTo(depths, solved, solvedDepth)
    && |ParentsTo(depths, cursor, depth)| == depth && |ParentsTo(depths, solved, solvedDepth)| == solvedDepth
    && (forall i :: depth <= i < solvedDepth ==> moves[i] == Moves(RoutesTo(depths, solved, solvedDepth))[i])
    && (forall i :: depth <= i < solvedDepth ==> parents[i] == ParentsTo(depths, solved, solvedDepth)[i])
  }

  lemma WalkStart(depths: seq<Depth>, solved: Entry, solvedDepth: nat, moves: seq<u8>, parents: seq<u64>)
    requires Chained(depths, solved, solvedDepth) && |moves| == |parents| == solvedDepth
    ensures Walk(depths, solved, solvedDepth, solved, solvedDepth, moves, parents)
  {
    ChainedLengths(depths, solved, solvedDepth);
  }

  /** Reading the cursor's parent stays inside the history and moves the walk one depth down. */
  lemma WalkStep(depths: seq<Depth>, solved: Entry, solvedDepth: nat, cursor: Entry, depth: nat, moves: seq<u8>,
                 parents: seq<u64>)
    requires Walk(depths, solved, solvedDepth, cursor, depth, moves, parents) && depth > 1
    ensures Walk(depths, solved, solvedDepth, depths[depth - 2][cursor.parent], depth - 1,
                 moves[depth - 1 := UnpackMove(cursor.route)], parents[depth - 1 := cursor.parent])
  {
    ChainedLengths(depths, depths[depth - 2][cursor.parent], depth - 1);
    assert RoutesTo(depths, cursor, depth)[depth - 1] == cursor.route;
    assert RoutesTo(depths, solved, solvedDepth)[depth - 1] == cursor.route;
    assert ParentsTo(depths, cursor, depth)[depth - 1] == cursor.parent;
    assert ParentsTo(depths, solved, solvedDepth)[depth - 1] == cursor.parent;
  }

  lemma WalkDone(depths: seq<Depth>, solved: Entry, solvedDepth: nat, cursor: Entry, moves: seq<u8>, parents: seq<u64>)
    requires Walk(depths, solved, solvedDepth, cursor, 1, moves, parents)
    ensures moves[0 := UnpackMove(cursor.route)] == Moves(RoutesTo(depths, solved, solvedDepth))
    ensures parents[0 := cursor.parent] == ParentsTo(depths, solved, solvedDepth)
    ensures cursor.parent == RootTo(depths, solved, solvedDepth)
  {
    assert RoutesTo(depths, cursor, 1)[0] == cursor.route;
    assert ParentsTo(depths, cursor, 1)[0] == cursor.parent;
  }

  /** The walk stays on its way exactly when it was started inside the history. */
  ghost predicate Walking(depths: seq<Depth>, solved: Entry, solvedDepth: nat, cursor: Entry, depth: nat,
                          moves: seq<u8>, parents: seq<u64>)
  {
    && 0 < depth <= solvedDepth == |moves| == |parents|
    && (Chained(depths, solved, solvedDepth) <==> Chained(depths, cursor, depth))
    && (Chained(depths, solved, solvedDepth) ==> Walk(depths, solved, solvedDepth, cursor, depth, moves, parents))
  }

  lemma WalkingStarts(depths: seq<Depth>, solved: Entry, solvedDepth: nat, moves: seq<u8>, parents: seq<u64>)
    requires 0 < solvedDepth == |moves| == |parents|
    ensures Walking(depths, solved, solvedDepth, solved, solvedDepth, moves, parents)
  {
    if Chained(depths, solved, solvedDepth) {
      WalkStart(depths, solved, solvedDepth, moves, parents);
    }
  }

  lemma WalkingStep(depths: seq<Depth>, solved: Entry, solvedDepth: nat, cursor: Entry, depth: nat, moves: seq<u8>,
                    parents: seq<u64>)
    requires Walking(depths, solved, solvedDepth, cursor, depth, moves, parents) && 1 < depth <= |depths| + 1
    ensures cursor.parent >= |depths[depth - 2]| ==> !Chained(depths, solved, solvedDepth)
    ensures cursor.parent < |depths[depth - 2]| ==>
              Walking(depths, solved, solvedDepth, depths[depth - 2][cursor.parent], depth - 1,
                      moves[depth - 1 := UnpackMove(cursor.route)], parents[depth - 1 := cursor.parent])
  {
    if Chained(depths, solved, solvedDepth) {
      WalkStep(depths, solved, solvedDepth, cursor, depth, moves, parents);
    }
  }

  lemma WalkingEnds(depths: seq<Depth>, solved: Entry, solvedDepth: nat, cursor: Entry, moves: seq<u8>,
                    parents: seq<u64>)
    requires Walking(depths, solved, solvedDepth, cursor, 1, moves, parents)
    ensures Chained(depths, solved, solvedDepth)
    ensures moves[0 := UnpackMove(cursor.route)] == Moves(RoutesTo(depths, solved, solvedDepth))
    ensures parents[0 := cursor.parent] == ParentsTo(depths, solved, solvedDepth)
    ensures cursor.parent == RootTo(depths, solved, solvedDepth)
  {
    assert Chained(depths, cursor, 1);
    WalkDone(depths, solved, solvedDepth, cursor, moves, parents);
  }

  /** From the newest depth, the current and the committed history tell the same path. */
  lemma NewestRoutesUnchanged(st: State, solved: Entry)
    requires Inv(st) && InRange(st.contents, solved, |st.committed| + 1)
    ensures InRange(st.committed, solved, |st.committed| + 1)
    ensures RoutesTo(st.contents, solved, |st.committed| + 1) == RoutesTo(st.committed, solved, |st.committed| + 1)
    ensures RootTo(st.contents, solved, |st.committed| + 1) == RootTo(st.committed, solved, |st.committed| + 1)
  {
    if st.committed != [] {
      assert PhaseOk(st, |st.committed| - 1);
      NewestPathsUnchanged(st, solved.parent);
    }
  }

  lemma {:induction false} IncreasingIsIdentity(keep: seq<nat>, i: nat)
    requires Increasing(keep) && i < |keep| && forall k :: 0 <= k < |keep| ==> keep[k] < |keep|
    ensures keep[i] == i
  {
    AtLeast(keep, i);
    AtMost(keep, i);
  }

  lemma {:induction false} AtLeast(keep: seq<nat>, i: nat)
    requires Increasing(keep) && i < |keep|
    ensures keep[i] >= i
  {
    if i > 0 {
      AtLeast(keep, i - 1);
    }
  }

  lemma {:induction false} AtMost(keep: seq<nat>, i: nat)
    requires Increasing(keep) && i < |keep| && forall k :: 0 <= k < |keep| ==> keep[k] < |keep|
    ensures keep[i] <= i
    decreases |keep| - i
  {
    if i + 1 < |keep| {
      AtMost(keep, i + 1);
    }
  }

  /** The newest depth keeps every index, and every index its committed path. */
  lemma NewestPathsUnchanged(st: State, i: nat)
    requires Inv(st) && st.committed != [] && i < |st.committed[|st.committed| - 1]|
    ensures var d := |st.committed| - 1;
            && |st.contents[d]| == |st.committed[d]|
            && Routes(st.contents, d, i) == Routes(st.committed, d, i)
            && Root(st.contents, d, i) == Root(st.committed, d, i)
  {
    var d := |st.committed| - 1;
    assert PhaseOk(st, d) && DepthOk(st, d);
    PathsPreserved(st, d, i);
    IncreasingIsIdentity(st.keep[d], i);
  }

  // ---- the steps ----

  /** Two adjacent stored depths are moved out of the store into a prune job. */
  function Launch(st: State, d: nat): State
    requires d + 1 < |st.ram| == |st.ready| && |st.phase| == |st.ram|
  {
    st.(ram := st.ram[d := []][d + 1 := []],
        ready := st.ready[d := false][d + 1 := false],
        jobs := st.jobs + [Job(d, st.ram[d], st.ram[d + 1])],
        phase := st.phase[d := InJob(d)][d + 1 := InJob(d)])
  }

  lemma LaunchKeepsInv(st: State, d: nat)
    requires Inv(st) && d + 1 < |st.committed| && st.dirty[d] && st.ready[d] && st.ready[d + 1]
    ensures Inv(Launch(st, d))
  {
    var st' := Launch(st, d);
    assert PhaseOk(st, d) && PhaseOk(st, d + 1);
    forall k | 0 <= k < |st.jobs| ensures JobOk(st', k) && JobsTouch(st.jobs[k], d) == false {
      assert JobOk(st, k);
    }
    assert JobOk(st', |st.jobs|);
    forall e | 0 <= e < |st.committed| ensures PhaseOk(st', e) {
      LaunchPhase(st, d, e);
    }
    forall s | 0 <= s < |st.slots| ensures SlotOk(st', s) {
      assert SlotOk(st, s);
    }
    SameDepths(st, st');
    forall e | 0 <= e < |st.committed| ensures CleanOk(st', e) {
      assert CleanOk(st, e);
      if e + 1 < |st.committed| {
        assert PhaseOk(st, e + 1);
      }
    }
  }

  predicate JobsTouch(j: Job, d: nat) {
    j.depth == d || j.depth == d + 1 || j.depth + 1 == d
  }

  lemma LaunchPhase(st: State, d: nat, e: nat)
    requires Inv(st) && d + 1 < |st.committed| && st.ready[d] && st.ready[d + 1] && e < |st.committed|
    ensures PhaseOk(Launch(st, d), e)
  {
    var st' := Launch(st, d);
    assert PhaseOk(st, e) && PhaseOk(st, d) && PhaseOk(st, d + 1);
    assert st'.jobs[|st.jobs|].depth == d;
    if st.phase[e].InJob? {
      var k :| 0 <= k < |st.jobs| && st.jobs[k].depth == st.phase[e].job;
      assert st'.jobs[k].depth == st.phase[e].job;
    }
  }

  /** Steps that move data around without changing the logical contents keep every path. */
  lemma SameDepths(st: State, st': State)
    requires Sized(st) && Traced(st) && Sized(st')
    requires st'.committed == st.committed && st'.contents == st.contents && st'.keep == st.keep
    requires st'.counts == st.counts
    requires st'.prune == st.prune && (!st.prune ==> st'.jobs == st.jobs && st'.dirty == st.dirty)
    ensures Traced(st')
  {
    forall d | 0 <= d < |st.committed| ensures DepthOk(st', d) {
      assert DepthOk(st, d);
    }
    forall d | st.prune && 0 < d < |st.committed| ensures LinkOk(st', d) {
      assert LinkOk(st, d);
    }
  }

  function Erase<T>(s: seq<T>, k: nat): seq<T>
    requires k < |s|
  {
    s[..k] + s[k + 1..]
  }

  function Compose(keep: seq<nat>, kept: seq<nat>): seq<nat>
    requires forall i :: 0 <= i < |kept| ==> kept[i] < |keep|
  {
    seq(|kept|, (i: nat) requires i < |kept| => keep[kept[i]])
  }

  lemma ComposeIncreasing(keep: seq<nat>, kept: seq<nat>)
    requires Increasing(keep) && Increasing(kept) && forall i :: 0 <= i < |kept| ==> kept[i] < |keep|
    ensures Increasing(Compose(keep, kept))
  {
  }

  /** A finished job's result is stored; the pair is clean and the pair before it dirty. */
  function Complete(st: State, k: nat, r: Pruned, kept: seq<nat>): State
    requires Sized(st) && k < |st.jobs| && st.jobs[k].depth + 1 < |st.committed|
    requires forall i :: 0 <= i < |kept| ==> kept[i] < |st.keep[st.jobs[k].depth]|
  {
    var d := st.jobs[k].depth;
    var saved := ENTRY_BYTES * (|st.jobs[k].previous| - |r.previous|);
    st.(counts := st.counts[d := |r.previous|][d + 1 := |r.current|],
        ram := st.ram[d := r.previous][d + 1 := r.current],
        ready := st.ready[d := true][d + 1 := true],
        dirty := if d > 0 then st.dirty[d := false][d - 1 := true] else st.dirty[d := false],
        jobs := Erase(st.jobs, k),
        stored := st.stored - saved, pruned := st.pruned + saved,
        contents := st.contents[d := r.previous][d + 1 := r.current],
        keep := st.keep[d := Compose(st.keep[d], kept)],
        phase := st.phase[d := Stored][d + 1 := Stored])
  }

  ghost predicate CanComplete(st: State, k: nat, r: Pruned, kept: seq<nat>) {
    Inv(st) && k < |st.jobs| && PrunedBy(st.jobs[k].previous, st.jobs[k].current, r, kept)
  }

  /** An in-flight job can always be completed: its parents are in range. */
  lemma JobParentsWithin(st: State, k: nat)
    requires Inv(st) && k < |st.jobs|
    ensures ParentsWithin(st.jobs[k].current, |st.jobs[k].previous|)
  {
    assert JobOk(st, k) && st.prune;
    assert LinkOk(st, st.jobs[k].depth + 1);
  }

  lemma JobSizes(st: State, k: nat)
    requires Inv(st) && k < |st.jobs|
    ensures |st.jobs[k].previous| <= U32_MAX
  {
    assert JobOk(st, k) && DepthOk(st, st.jobs[k].depth);
  }

  lemma CompletePre(st: State, k: nat, r: Pruned, kept: seq<nat>)
    requires CanComplete(st, k, r, kept)
    ensures var d := st.jobs[k].depth;
            && st.prune && d + 1 < |st.committed| && JobOk(st, k) && DepthOk(st, d) && DepthOk(st, d + 1)
            && forall i :: 0 <= i < |kept| ==> kept[i] < |st.keep[d]|
  {
    assert JobOk(st, k);
    assert DepthOk(st, st.jobs[k].depth);
  }

  lemma CompleteDepth(st: State, k: nat, r: Pruned, kept: seq<nat>, e: nat)
    requires CanComplete(st, k, r, kept) && e < |st.committed|
    ensures CompletePreHolds(st, k, kept) && DepthOk(Complete(st, k, r, kept), e)
  {
    CompletePre(st, k, r, kept);
    assert DepthOk(st, e);
    if e == st.jobs[k].depth {
      ComposeIncreasing(st.keep[e], kept);
    }
  }

  ghost predicate CompletePreHolds(st: State, k: nat, kept: seq<nat>) {
    && Sized(st) && k < |st.jobs| && st.jobs[k].depth + 1 < |st.committed|
    && forall i :: 0 <= i < |kept| ==> kept[i] < |st.keep[st.jobs[k].depth]|
  }

  lemma CompleteLink(st: State, k: nat, r: Pruned, kept: seq<nat>, e: nat)
    requires CanComplete(st, k, r, kept) && 0 < e < |st.committed| && CompletePreHolds(st, k, kept)
    requires DepthOk(Complete(st, k, r, kept), e) && DepthOk(Complete(st, k, r, kept), e - 1)
    ensures LinkOk(Complete(st, k, r, kept), e)
  {
    CompletePre(st, k, r, kept);
    assert DepthOk(st, e) && DepthOk(st, e - 1) && LinkOk(st, e);
    var d := st.jobs[k].depth;
    var st' := Complete(st, k, r, kept);
    forall i | 0 <= i < |st'.contents[e]|
      ensures st'.contents[e][i].parent < |st'.contents[e - 1]|
           && st'.keep[e - 1][st'.contents[e][i].parent] == st'.committed[e][st'.keep[e][i]].parent
    {
      if e == d {
        assert st'.contents[e][i] == st.contents[e][kept[i]];
      } else if e == d + 1 {
        assert st.jobs[k].current[i].parent < |st.contents[d]|;
      }
    }
  }

  lemma CompleteRoot(st: State, k: nat, r: Pruned, kept: seq<nat>)
    requires CanComplete(st, k, r, kept) && CompletePreHolds(st, k, kept) && DepthOk(Complete(st, k, r, kept), 0)
    ensures RootOk(Complete(st, k, r, kept))
  {
    CompletePre(st, k, r, kept);
    assert DepthOk(st, 0) && RootOk(st);
  }

  lemma CompletePhase(st: State, k: nat, r: Pruned, kept: seq<nat>, e: nat)
    requires CanComplete(st, k, r, kept) && e < |st.committed| && CompletePreHolds(st, k, kept)
    ensures PhaseOk(Complete(st, k, r, kept), e)
  {
    CompletePre(st, k, r, kept);
    assert PhaseOk(st, e);
    var d, st' := st.jobs[k].depth, Complete(st, k, r, kept);
    if st.phase[e].InJob? && e != d && e != d + 1 {
      var f := st.phase[e].job;
      var m :| 0 <= m < |st.jobs| && st.jobs[m].depth == f;
      var m' := if m < k then m else m - 1;
      assert m != k ==> st'.jobs[m'].depth == f;
    }
  }

  lemma CompleteJob(st: State, k: nat, r: Pruned, kept: seq<nat>, m: nat)
    requires CanComplete(st, k, r, kept) && m < |st.jobs| - 1 && CompletePreHolds(st, k, kept)
    ensures JobOk(Complete(st, k, r, kept), m)
  {
    CompletePre(st, k, r, kept);
    assert JobOk(st, if m < k then m else m + 1);
  }

  lemma CompleteClean(st: State, k: nat, r: Pruned, kept: seq<nat>, e: nat)
    requires CanComplete(st, k, r, kept) && e < |st.committed| && CompletePreHolds(st, k, kept)
    ensures CleanOk(Complete(st, k, r, kept), e)
  {
    CompletePre(st, k, r, kept);
    assert CleanOk(st, e);
    var d := st.jobs[k].depth;
    if e == d {
      forall i | 0 <= i < |r.previous| ensures Referenced(r.current, i) {
        PrunedIsFull(st.jobs[k].previous, st.jobs[k].current, r, kept, i);
      }
    } else if e == d + 1 && e + 1 < |st.committed| {
      assert |r.current| == |st.contents[e]|;
    }
  }

  lemma {:induction false} TotalUpdate(depths: seq<Depth>, d: nat, x: Depth)
    requires d < |depths|
    ensures Total(depths[d := x]) == Total(depths) - |depths[d]| + |x|
  {
    var front, last := depths[..|depths| - 1], |depths| - 1;
    if d < last {
      TotalUpdate(front, d, x);
      assert depths[d := x][..last] == front[d := x];
    } else {
      assert depths[d := x][..last] == front;
    }
  }

  lemma CompleteTraced(st: State, k: nat, r: Pruned, kept: seq<nat>)
    requires CanComplete(st, k, r, kept)
    ensures CompletePreHolds(st, k, kept) && Sized(Complete(st, k, r, kept)) && Traced(Complete(st, k, r, kept))
  {
    CompletePre(st, k, r, kept);
    var st' := Complete(st, k, r, kept);
    forall e | 0 <= e < |st.committed| ensures DepthOk(st', e) {
      CompleteDepth(st, k, r, kept, e);
    }
    forall e | 0 < e < |st.committed| ensures LinkOk(st', e) {
      CompleteLink(st, k, r, kept, e);
    }
    CompleteRoot(st, k, r, kept);
  }

  lemma CompleteBytes(st: State, k: nat, r: Pruned, kept: seq<nat>)
    requires CanComplete(st, k, r, kept) && CompletePreHolds(st, k, kept)
    ensures BytesOk(Complete(st, k, r, kept))
  {
    var d := st.jobs[k].depth;
    assert JobOk(st, k);
    TotalUpdate(st.contents, d, r.previous);
    TotalUpdate(st.contents[d := r.previous], d + 1, r.current);
  }

  lemma CompleteKeepsInv(st: State, k: nat, r: Pruned, kept: seq<nat>)
    requires CanComplete(st, k, r, kept)
    ensures CompletePreHolds(st, k, kept) && Inv(Complete(st, k, r, kept))
  {
    CompleteTraced(st, k, r, kept);
    CompleteBytes(st, k, r, kept);
    var st' := Complete(st, k, r, kept);
    forall e | 0 <= e < |st.committed| ensures PhaseOk(st', e) && CleanOk(st', e) {
      CompletePhase(st, k, r, kept, e);
      CompleteClean(st, k, r, kept, e);
    }
    forall m | 0 <= m < |st'.jobs| ensures JobOk(st', m) {
      CompleteJob(st, k, r, kept, m);
    }
    forall s | 0 <= s < |st.slots| ensures SlotOk(st', s) {
      CompleteSlot(st, k, r, kept, s);
    }
  }

  lemma CompleteSlot(st: State, k: nat, r: Pruned, kept: seq<nat>, s: nat)
    requires CanComplete(st, k, r, kept) && CompletePreHolds(st, k, kept) && s < |st.slots|
    ensures SlotOk(Complete(st, k, r, kept), s)
  {
    assert SlotOk(st, s) && JobOk(st, k);
  }

  // ---- slots ----

  /** Replacing a slot that holds no depth, without making it hold one, or letting a copy become a write. */
  lemma SlotChangeKeepsInv(st: State, s: nat, slot: Slot)
    requires Inv(st) && s < |st.slots| && (slot.free ==> !slot.Busy()) && !(slot.copying && slot.writing)
    requires slot.Busy() == st.slots[s].Busy()
    requires slot.Busy() ==> slot.depth == st.slots[s].depth && slot.host == st.slots[s].host
    ensures Inv(st.(slots := st.slots[s := slot]))
  {
    var st' := st.(slots := st.slots[s := slot]);
    assert SlotOk(st, s);
    forall d | 0 <= d < |st.committed| ensures PhaseOk(st', d) && CleanOk(st', d) {
      assert PhaseOk(st, d) && CleanOk(st, d);
    }
    forall k | 0 <= k < |st.jobs| ensures JobOk(st', k) {
      assert JobOk(st, k);
    }
    forall t | 0 <= t < |st.slots| ensures SlotOk(st', t) {
      assert SlotOk(st, t);
    }
    SameDepths(st, st');
  }

  /** A written slot's entries become a stored depth, and the pair before it becomes dirty. */
  function Materialise(st: State, s: nat): State
    requires Sized(st) && s < |st.slots| && st.slots[s].depth < |st.committed|
  {
    var d := st.slots[s].depth;
    st.(ram := st.ram[d := Compress(st.slots[s].host)],
        ready := st.ready[d := true],
        dirty := if st.prune && d > 0 then st.dirty[d - 1 := true] else st.dirty,
        slots := st.slots[s := st.slots[s].(free := true, writing := false, copying := false)],
        phase := st.phase[d := Stored])
  }

  lemma MaterialiseKeepsInv(st: State, s: nat)
    requires Inv(st) && s < |st.slots| && st.slots[s].Busy()
    ensures st.slots[s].depth < |st.committed| && Inv(Materialise(st, s))
  {
    assert SlotOk(st, s);
    var st', d := Materialise(st, s), st.slots[s].depth;
    assert PhaseOk(st, d);
    forall e | 0 <= e < |st.committed| ensures PhaseOk(st', e) && CleanOk(st', e) {
      assert PhaseOk(st, e) && CleanOk(st, e);
    }
    forall k | 0 <= k < |st.jobs| ensures JobOk(st', k) {
      assert JobOk(st, k);
    }
    forall t | 0 <= t < |st.slots| ensures SlotOk(st', t) {
      assert SlotOk(st, t);
    }
    SameDepths(st, st');
  }

  /** A new depth is committed from an acquired slot. */
  function Commit(st: State, s: nat, host: seq<Candidate>): State
    requires s < |st.slots|
  {
    st.(counts := st.counts + [|host|],
        ram := st.ram + [[]], ready := st.ready + [false], dirty := st.dirty + [false],
        slots := st.slots[s := Slot(false, true, false, |st.counts|, host)],
        stored := st.stored + ENTRY_BYTES * |host|,
        committed := st.committed + [Compress(host)], contents := st.contents + [Compress(host)],
        keep := st.keep + [seq(|host|, (i: nat) => i)],
        phase := st.phase + [InSlot(s)])
  }

  /** The parents of a newly committed depth point into the depth committed before it. */
  ghost predicate ParentsCommitted(committed: seq<Depth>, host: seq<Candidate>) {
    committed != [] ==> ParentsWithin(Compress(host), |committed[|committed| - 1]|)
  }

  lemma CommitTraced(st: State, s: nat, host: seq<Candidate>)
    requires Inv(st) && s < |st.slots| && |host| <= U32_MAX
    requires st.prune ==> ParentsCommitted(st.committed, host)
    ensures Sized(Commit(st, s, host)) && Traced(Commit(st, s, host))
  {
    var st', n := Commit(st, s, host), |st.committed|;
    forall e | 0 <= e <= n ensures DepthOk(st', e) {
      if e < n {
        assert DepthOk(st, e);
      }
    }
    forall e | st.prune && 0 < e <= n ensures LinkOk(st', e) {
      if e < n {
        assert LinkOk(st, e);
      } else {
        CommitLink(st, s, host);
      }
    }
  }

  lemma CommitKeepsInv(st: State, s: nat, host: seq<Candidate>)
    requires Inv(st) && s < |st.slots| && !st.slots[s].Busy() && |host| <= U32_MAX
    requires st.prune ==> ParentsCommitted(st.committed, host)
    ensures Inv(Commit(st, s, host))
  {
    var st', n := Commit(st, s, host), |st.committed|;
    CommitTraced(st, s, host);
    forall e | 0 <= e <= n ensures PhaseOk(st', e) && CleanOk(st', e) {
      if e < n {
        assert PhaseOk(st, e) && CleanOk(st, e);
      }
    }
    forall k | 0 <= k < |st.jobs| ensures JobOk(st', k) {
      assert JobOk(st, k);
    }
    forall t | 0 <= t < |st.slots| ensures SlotOk(st', t) {
      assert SlotOk(st, t);
    }
    assert st'.committed[..n] == st.committed && st'.contents[..n] == st.contents;
  }

  lemma CommitLink(st: State, s: nat, host: seq<Candidate>)
    requires Inv(st) && st.prune && s < |st.slots| && ParentsCommitted(st.committed, host) && st.committed != []
    requires var st' := Commit(st, s, host); DepthOk(st', |st.committed|) && DepthOk(st', |st.committed| - 1)
    ensures LinkOk(Commit(st, s, host), |st.committed|)
  {
    var last, entries := |st.committed| - 1, Compress(host);
    assert PhaseOk(st, last) && DepthOk(st, last);
    forall i | 0 <= i < |entries| ensures st.keep[last][entries[i].parent] == entries[i].parent {
      IncreasingIsIdentity(st.keep[last], entries[i].parent);
    }
  }

  // ---- termination and the fixpoint ----

  /** The pruning still owed: the sum of d + 1 over dirty depths d. */
  function Owed(dirty: seq<bool>): nat {
    if dirty == [] then 0
    else Owed(dirty[..|dirty| - 1]) + (if dirty[|dirty| - 1] then |dirty| else 0)
  }

  lemma {:induction false} OwedUpdate(dirty: seq<bool>, d: nat, b: bool)
    requires d < |dirty|
    ensures Owed(dirty[d := b]) == Owed(dirty) - (if dirty[d] then d + 1 else 0) + (if b then d + 1 else 0)
  {
    var last := |dirty| - 1;
    if d < last {
      OwedUpdate(dirty[..last], d, b);
      assert dirty[d := b][..last] == dirty[..last][d := b];
    } else {
      assert dirty[d := b][..last] == dirty[..last];
    }
  }

  /** Every completed job strictly lowers what is owed, although it makes the pair before it dirty again. */
  lemma CompleteOwesLess(st: State, k: nat, r: Pruned, kept: seq<nat>)
    requires CanComplete(st, k, r, kept) && CompletePreHolds(st, k, kept)
    ensures Owed(Complete(st, k, r, kept).dirty) < Owed(st.dirty)
  {
    assert JobOk(st, k);
    CleaningOwesLess(st.dirty, st.jobs[k].depth);
  }

  lemma CleaningOwesLess(dirty: seq<bool>, d: nat)
    requires d < |dirty| && dirty[d]
    ensures Owed(if d > 0 then dirty[d := false][d - 1 := true] else dirty[d := false]) < Owed(dirty)
  {
    OwedUpdate(dirty, d, false);
    if d > 0 {
      OwedUpdate(dirty[d := false], d - 1, true);
    }
  }

  /** Nothing is in flight and nothing is left to launch. */
  ghost predicate Settled(st: State) {
    && st.jobs == [] && |st.ready| == |st.dirty|
    && (forall s :: 0 <= s < |st.slots| ==> !st.slots[s].Busy())
    && (forall d :: 0 <= d && d + 1 < |st.dirty| ==> !(st.dirty[d] && st.ready[d] && st.ready[d + 1]))
  }

  /** When everything has settled, every depth is stored, every entry of every non-last depth is some
      next-depth entry's parent, and stored plus pruned bytes equal the bytes first committed. */
  lemma SettledIsFixpoint(st: State)
    requires Inv(st) && Settled(st)
    ensures forall d :: 0 <= d < |st.committed| ==> st.ready[d] && st.ram[d] == st.contents[d]
    ensures st.prune ==> forall d :: 0 <= d && d + 1 < |st.committed| ==> Full(st.ram[d], st.ram[d + 1])
    ensures st.stored == ENTRY_BYTES * Total(st.ram)
    ensures st.stored + st.pruned == ENTRY_BYTES * Total(st.committed)
  {
    forall d | 0 <= d < |st.committed| ensures st.ready[d] {
      assert PhaseOk(st, d);
    }
    forall d | 0 <= d < |st.committed| ensures st.ram[d] == st.contents[d] {
      assert PhaseOk(st, d);
    }
    assert st.ram == st.contents;
    forall d | st.prune && 0 <= d && d + 1 < |st.committed| ensures Full(st.ram[d], st.ram[d + 1]) {
      assert CleanOk(st, d) && PhaseOk(st, d + 1) && PhaseOk(st, d);
    }
  }
}
