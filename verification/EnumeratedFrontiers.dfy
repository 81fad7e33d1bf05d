/** Filling every rank's calibration frontier from one strided numbering, and why no state repeats
    (integrations/cayleypy_native/multigpubeamsearch/calibration_frontier.py). */
module EnumeratedFrontiers {
  import opened Arithmetic
  import opened FactorialRanks
  import opened Sets
  import opened SymmetricGroup
  import opened Enumeration
  import opened OrbitCertificate
  import opened Wrappers

  /** The states numbered `from` to `to` that are not forbidden, in order. */
  ghost function Fresh(p: Numbering, forbidden: seq<State>, from: nat, end: nat): (r: seq<State>)
    requires from <= end <= p.Ceiling()
    decreases end
  {
    if from == end then [] else
      Fresh(p, forbidden, from, end - 1) + if p.StateAt(end - 1) in forbidden then [] else [p.StateAt(end - 1)]
  }

  /** The forbidden states met between two numbers. */
  ghost function Skipped(p: Numbering, forbidden: seq<State>, from: nat, end: nat): (r: seq<State>)
    requires from <= end <= p.Ceiling()
    decreases end
  {
    if from == end then [] else
      Skipped(p, forbidden, from, end - 1) + if p.StateAt(end - 1) in forbidden then [p.StateAt(end - 1)] else []
  }

  /** Written states never meet the numbers still to come. */
  ghost predicate Ahead(p: Numbering, cursor: nat, states: seq<State>) {
    forall j :: cursor <= j < p.Ceiling() ==> p.StateAt(j) !in states
  }

  ghost predicate LegalState(p: Numbering, forbidden: seq<State>, s: State) {
    multiset(s) == multiset(p.symbols) && s !in forbidden
  }

  ghost predicate Legal(p: Numbering, forbidden: seq<State>, states: seq<State>) {
    forall s :: s in states ==> LegalState(p, forbidden, s)
  }

  lemma StateArranges(p: Numbering, forbidden: seq<State>, i: nat)
    requires i < p.Ceiling()
    ensures LegalState(p, forbidden, p.StateAt(i)) <==> p.StateAt(i) !in forbidden
  {
    UnrankArranges(p.symbols, Strided(p.stride, p.offset, p.Ceiling(), i));
  }

  lemma {:induction false} FreshIsAllowed(p: Numbering, forbidden: seq<State>, from: nat, end: nat)
    requires from <= end <= p.Ceiling()
    ensures Legal(p, forbidden, Fresh(p, forbidden, from, end))
    decreases end
  {
    if from < end {
      FreshIsAllowed(p, forbidden, from, end - 1);
      StateArranges(p, forbidden, end - 1);
      var s, front := p.StateAt(end - 1), Fresh(p, forbidden, from, end - 1);
      assert Fresh(p, forbidden, from, end) == front + if s in forbidden then [] else [s];
    }
  }

  lemma {:induction false} SkippedIsForbidden(p: Numbering, forbidden: seq<State>, from: nat, end: nat)
    requires from <= end <= p.Ceiling()
    ensures forall s :: s in Skipped(p, forbidden, from, end) ==> s in forbidden
    ensures |Fresh(p, forbidden, from, end)| + |Skipped(p, forbidden, from, end)| == end - from
    decreases end
  {
    if from < end {
      SkippedIsForbidden(p, forbidden, from, end - 1);
    }
  }

  lemma FreshIsLegal(p: Numbering, forbidden: seq<State>, from: nat, end: nat)
    requires p.Usable() && from <= end <= p.Ceiling()
    ensures Legal(p, forbidden, Fresh(p, forbidden, from, end))
    ensures forall s :: s in Skipped(p, forbidden, from, end) ==> s in forbidden
    ensures |Fresh(p, forbidden, from, end)| + |Skipped(p, forbidden, from, end)| == end - from
  {
    FreshIsAllowed(p, forbidden, from, end);
    SkippedIsForbidden(p, forbidden, from, end);
  }

  lemma {:induction false} FreshIsDistinct(p: Numbering, forbidden: seq<State>, from: nat, end: nat)
    requires p.Usable() && from <= end <= p.Ceiling()
    ensures Distinct(Fresh(p, forbidden, from, end)) && Ahead(p, end, Fresh(p, forbidden, from, end))
    ensures Distinct(Skipped(p, forbidden, from, end)) && Ahead(p, end, Skipped(p, forbidden, from, end))
    decreases end
  {
    if from < end {
      FreshIsDistinct(p, forbidden, from, end - 1);
      forall j | end <= j < p.Ceiling() ensures p.StateAt(j) != p.StateAt(end - 1) {
        if p.StateAt(j) == p.StateAt(end - 1) {
          StatesDiffer(p, j, end - 1);
        }
      }
    }
  }

  /** The states come in the order of their numbers. */
  lemma {:induction false} FreshJoins(p: Numbering, forbidden: seq<State>, from: nat, mid: nat, end: nat)
    requires from <= mid <= end <= p.Ceiling()
    ensures Fresh(p, forbidden, from, end) == Fresh(p, forbidden, from, mid) + Fresh(p, forbidden, mid, end)
    decreases end
  {
    if mid < end {
      FreshJoins(p, forbidden, from, mid, end - 1);
    }
  }

  lemma {:induction false} SkippedJoins(p: Numbering, forbidden: seq<State>, from: nat, mid: nat, end: nat)
    requires from <= mid <= end <= p.Ceiling()
    ensures Skipped(p, forbidden, from, end) == Skipped(p, forbidden, from, mid) + Skipped(p, forbidden, mid, end)
    decreases end
  {
    if mid < end {
      SkippedJoins(p, forbidden, from, mid, end - 1);
    }
  }

  /** No more numbers are lost to forbidden states than there are forbidden states. */
  lemma SkippedAreFew(p: Numbering, forbidden: seq<State>, from: nat, end: nat)
    requires p.Usable() && from <= end <= p.Ceiling()
    ensures |Skipped(p, forbidden, from, end)| <= |forbidden|
  {
    FreshIsLegal(p, forbidden, from, end);
    FreshIsDistinct(p, forbidden, from, end);
    DistinctWithin(Skipped(p, forbidden, from, end), forbidden);
  }

  lemma DistinctWithin<T>(s: seq<T>, t: seq<T>)
    requires Distinct(s) && forall x :: x in s ==> x in t
    ensures |s| <= |t|
  {
    ElemsSize(s);
    ElemsSize(t);
    SubsetSize(Elems(s), Elems(t));
  }

  /** What is written so far: no state twice, none forbidden, and none that a later number names. */
  ghost predicate Written(p: Numbering, forbidden: seq<State>, cursor: nat, states: seq<State>) {
    cursor <= p.Ceiling() && Distinct(states) && Legal(p, forbidden, states) && Ahead(p, cursor, states)
  }

  lemma BatchIsWritten(p: Numbering, forbidden: seq<State>, cursor: nat, end: nat, states: seq<State>, keep: nat)
    requires p.Usable() && Written(p, forbidden, cursor, states) && cursor <= end <= p.Ceiling()
    requires keep <= |Fresh(p, forbidden, cursor, end)|
    ensures Written(p, forbidden, end, states + Fresh(p, forbidden, cursor, end)[..keep])
  {
    var novel := Fresh(p, forbidden, cursor, end);
    FreshIsLegal(p, forbidden, cursor, end);
    FreshIsDistinct(p, forbidden, cursor, end);
    FreshAreAhead(p, forbidden, cursor, end, states);
    DistinctJoin(states, novel, keep);
  }

  lemma DistinctJoin<T>(a: seq<T>, b: seq<T>, keep: nat)
    requires Distinct(a) && Distinct(b) && (forall x :: x in b ==> x !in a) && keep <= |b|
    ensures Distinct(a + b[..keep])
    ensures forall x :: x in a + b[..keep] ==> x in a || x in b
  {
    var r := a + b[..keep];
    forall i, j | 0 <= i < j < |r| ensures r[i] != r[j] {
      if i < |a| <= j {
        assert r[i] in a && r[j] == b[j - |a|];
      }
    }
  }

  lemma {:induction false} FreshAreAhead(p: Numbering, forbidden: seq<State>, cursor: nat, end: nat, states: seq<State>)
    requires Ahead(p, cursor, states) && cursor <= end <= p.Ceiling()
    ensures forall s :: s in Fresh(p, forbidden, cursor, end) ==> s !in states
    decreases end
  {
    if cursor < end {
      FreshAreAhead(p, forbidden, cursor, end - 1, states);
    }
  }

  /** The state has a number in the range. */
  ghost predicate NumberedBetween(p: Numbering, from: nat, end: nat, s: State) {
    exists j :: from <= j < end && j < p.Ceiling() && s == p.StateAt(j)
  }

  lemma {:induction false} FreshMembers(p: Numbering, forbidden: seq<State>, from: nat, end: nat, s: State)
    requires from <= end <= p.Ceiling()
    ensures s in Fresh(p, forbidden, from, end) <==> s !in forbidden && NumberedBetween(p, from, end, s)
    decreases end
  {
    if from < end {
      FreshMembers(p, forbidden, from, end - 1, s);
      if NumberedBetween(p, from, end, s) {
        var j :| from <= j < end && s == p.StateAt(j);
        assert j < end - 1 ==> NumberedBetween(p, from, end - 1, s);
      }
    }
  }

  /** One batch: unrank each number in 64-bit arithmetic and keep the states not forbidden. */
  method Batch(p: Numbering, forbidden: seq<State>, cursor: nat, batch: nat) returns (states: seq<State>)
    requires p.Usable() && cursor + batch <= p.Ceiling()
    ensures states == Fresh(p, forbidden, cursor, cursor + batch)
  {
    var ceiling := p.Ceiling();
    states := [];
    for k := 0 to batch
      invariant states == Fresh(p, forbidden, cursor, cursor + k)
    {
      NoWrap(p, cursor + k);
      var index := (((cursor + k) * p.stride) % WORD + p.offset) % WORD % ceiling;
      var row := UnrankRow(p.symbols, index);
      if row !in forbidden {
        states := states + [row];
      }
    }
  }

  /** The accounts of one rank: every number used was written, was forbidden, or was cut off after the
      rank had its count. */
  ghost predicate Accounts(p: Numbering, forbidden: seq<State>, start: nat, cursor: nat, written: nat, count: nat)
    requires start <= cursor <= p.Ceiling()
  {
    && written <= count
    && cursor - start <= written + |Skipped(p, forbidden, start, cursor)|
         + (if written == count then |forbidden| else 0)
  }

  lemma AccountsStep(p: Numbering, forbidden: seq<State>, start: nat, cursor: nat, written: nat, count: nat, batch: nat)
    requires p.Usable() && start <= cursor && cursor + batch <= p.Ceiling() && written < count
    requires Accounts(p, forbidden, start, cursor, written, count) && batch <= count - written + |forbidden|
    ensures var novel := |Fresh(p, forbidden, cursor, cursor + batch)|;
            Accounts(p, forbidden, start, cursor + batch,
                     written + (if novel < count - written then novel else count - written), count)
  {
    FreshIsLegal(p, forbidden, cursor, cursor + batch);
    SkippedJoins(p, forbidden, start, cursor, cursor + batch);
  }

  /** A first batch for this rank that is neither cut by the batch size nor by the end of the numbers. */
  predicate OneBatch(p: Numbering, forbidden: seq<State>, count: nat, start: nat) {
    0 < count && count + |forbidden| <= 65536 && start + count + |forbidden| <= p.Ceiling()
  }

  /** The rank holds the first `count` states of that batch, and the batch is used up. */
  ghost predicate FilledAtOnce(p: Numbering, forbidden: seq<State>, count: nat, start: nat, cursor: nat,
                               file: seq<State>) {
    && OneBatch(p, forbidden, count, start) && cursor == start + count + |forbidden|
    && |Fresh(p, forbidden, start, cursor)| >= count && file == Fresh(p, forbidden, start, cursor)[..count]
  }

  lemma OneBatchFills(p: Numbering, forbidden: seq<State>, count: nat, start: nat, cursor: nat)
    requires p.Usable() && OneBatch(p, forbidden, count, start) && cursor == start + count + |forbidden|
    ensures |Fresh(p, forbidden, start, cursor)| >= count
  {
    FreshIsLegal(p, forbidden, start, cursor);
    SkippedAreFew(p, forbidden, start, cursor);
  }

  /** One more batch for a rank that still lacks states; states beyond its count are cut off. */
  method NextBatch(p: Numbering, forbidden: seq<State>, count: nat, file: seq<State>, cursor: nat,
                   ghost start: nat, ghost before: seq<State>)
    returns (file': seq<State>, cursor': nat)
    requires p.Usable() && |file| < count && start <= cursor < p.Ceiling()
    requires Written(p, forbidden, cursor, before + file) && Accounts(p, forbidden, start, cursor, |file|, count)
    ensures cursor' == cursor + BatchSize(count - |file| + |forbidden|, p.Ceiling() - cursor)
    ensures Written(p, forbidden, cursor', before + file') && Accounts(p, forbidden, start, cursor', |file'|, count)
    ensures var room, states := count - |file|, Fresh(p, forbidden, cursor, cursor');
            file' == file + if |states| < room then states else states[..room]
  {
    var room := count - |file|;
    var batch := BatchSize(room + |forbidden|, p.Ceiling() - cursor);
    cursor' := cursor + batch;
    var states := Batch(p, forbidden, cursor, batch);
    var kept := if |states| < room then |states| else room;
    AccountsStep(p, forbidden, start, cursor, |file|, count, batch);
    BatchIsWritten(p, forbidden, cursor, cursor', before + file, kept);
    assert before + file + states[..kept] == before + (file + states[..kept]);
    assert states[..|states|] == states;
    file' := file + states[..kept];
  }

  /** Fills one rank; `late(t)` says whether the deadline has passed at the t-th look at the clock. */
  method FillRank(p: Numbering, forbidden: seq<State>, count: nat, start: nat, late: nat -> bool, clock: nat,
                  ghost before: seq<State>)
    returns (ok: bool, cursor: nat, time: nat, file: seq<State>)
    requires p.Usable() && Written(p, forbidden, start, before)
    ensures start <= cursor <= p.Ceiling() && time >= clock && Written(p, forbidden, cursor, before + file)
    ensures Accounts(p, forbidden, start, cursor, |file|, count)
    ensures ok ==> |file| == count
    ensures !ok ==> |file| < count && (cursor == p.Ceiling() || late(time))
    ensures forall t :: clock <= t < time ==> !late(t)
    ensures OneBatch(p, forbidden, count, start) && !late(clock) ==>
              ok && FilledAtOnce(p, forbidden, count, start, cursor, file)
  {
    cursor, time, file := start, clock, [];
    assert before + file == before;
    ghost var ceiling := p.Ceiling();
    while |file| < count
      invariant start <= cursor <= ceiling && time >= clock
      invariant forall t :: clock <= t < time ==> !late(t)
      invariant OneBatch(p, forbidden, count, start) ==>
                  || (cursor == start && time == clock && file == [])
                  || FilledAtOnce(p, forbidden, count, start, cursor, file)
      invariant Written(p, forbidden, cursor, before + file) && Accounts(p, forbidden, start, cursor, |file|, count)
      decreases ceiling - cursor
    {
      if late(time) || cursor >= p.Ceiling() {
        return false, cursor, time, file;
      }
      time := time + 1;
      if OneBatch(p, forbidden, count, start) {
        OneBatchFills(p, forbidden, count, start, start + count + |forbidden|);
      }
      file, cursor := NextBatch(p, forbidden, count, file, cursor, start, before);
    }
    ok := true;
  }

  function BatchSize(wanted: nat, left: nat): (b: nat)
    requires wanted > 0 && left > 0
    ensures 0 < b <= wanted && b <= left && b <= 65536
    ensures b == wanted || b == left || b == 65536
  {
    var capped := if wanted < BATCH then wanted else BATCH;
    if capped < left then capped else left
  }

  function Flat(files: seq<seq<State>>): seq<State> {
    if files == [] then [] else Flat(files[..|files| - 1]) + files[|files| - 1]
  }

  /** Numbers enough for the counts of the first ranks and one set of forbidden states each. */
  function Enough(counts: seq<nat>, spare: nat): nat {
    if counts == [] then 0 else Enough(counts[..|counts| - 1], spare) + counts[|counts| - 1] + spare
  }

  lemma {:induction false} EnoughGrows(counts: seq<nat>, spare: nat, r: nat)
    requires r <= |counts|
    ensures Enough(counts[..r], spare) <= Enough(counts, spare)
    decreases |counts|
  {
    if r == |counts| {
      assert counts[..r] == counts;
    } else {
      EnoughGrows(counts[..|counts| - 1], spare, r);
      assert counts[..|counts| - 1][..r] == counts[..r];
    }
  }

  /** No rank needs a second batch, and the numbers last for all of them. */
  ghost predicate Roomy(p: Numbering, forbidden: seq<State>, counts: seq<nat>) {
    && Enough(counts, |forbidden|) <= p.Ceiling()
    && forall k :: 0 <= k < |counts| ==> 0 < counts[k] && counts[k] + |forbidden| <= 65536
  }

  /** Rank `k` holds the first allowed states of the numbers that follow those of the ranks before it. */
  ghost predicate FilledInTurn(p: Numbering, forbidden: seq<State>, counts: seq<nat>, files: seq<seq<State>>, k: nat) {
    && k < |counts| && k < |files|
    && Enough(counts[..k + 1], |forbidden|) == Enough(counts[..k], |forbidden|) + counts[k] + |forbidden|
    && FilledAtOnce(p, forbidden, counts[k], Enough(counts[..k], |forbidden|), Enough(counts[..k + 1], |forbidden|),
                    files[k])
  }

  ghost predicate TurnsSoFar(p: Numbering, forbidden: seq<State>, counts: seq<nat>, files: seq<seq<State>>,
                             cursor: nat) {
    && |files| <= |counts| && cursor == Enough(counts[..|files|], |forbidden|)
    && forall k :: 0 <= k < |files| ==> FilledInTurn(p, forbidden, counts, files, k)
  }

  lemma TurnTaken(p: Numbering, forbidden: seq<State>, counts: seq<nat>, files: seq<seq<State>>, cursor: nat,
                  file: seq<State>, next: nat)
    requires TurnsSoFar(p, forbidden, counts, files, cursor) && |files| < |counts|
    requires FilledAtOnce(p, forbidden, counts[|files|], cursor, next, file)
    ensures TurnsSoFar(p, forbidden, counts, files + [file], next)
  {
    NextInTurn(p, forbidden, counts, |files|);
    forall k | 0 <= k <= |files| ensures FilledInTurn(p, forbidden, counts, files + [file], k) {
      assert k < |files| ==> FilledInTurn(p, forbidden, counts, files, k);
    }
  }

  lemma NextInTurn(p: Numbering, forbidden: seq<State>, counts: seq<nat>, rank: nat)
    requires rank < |counts|
    ensures Enough(counts[..rank + 1], |forbidden|) == Enough(counts[..rank], |forbidden|) + counts[rank] + |forbidden|
    ensures Roomy(p, forbidden, counts) ==> OneBatch(p, forbidden, counts[rank], Enough(counts[..rank], |forbidden|))
  {
    assert counts[..rank + 1][..rank] == counts[..rank];
    EnoughGrows(counts, |forbidden|, rank + 1);
  }

  /** All ranks' files. Without a deadline the numbering always suffices when there are arrangements for
      every count and, for each rank, one more set of forbidden states; and when each rank needs only one
      batch, the files are known exactly. */
  method FillRanks(p: Numbering, forbidden: seq<State>, counts: seq<nat>, late: nat -> bool)
    returns (r: Result<seq<seq<State>>, ()>)
    requires p.Usable()
    ensures r.Ok? ==> |r.value| == |counts| && forall k :: 0 <= k < |counts| ==> |r.value[k]| == counts[k]
    ensures r.Ok? ==> Distinct(Flat(r.value)) && Legal(p, forbidden, Flat(r.value))
    ensures (forall t :: !late(t)) && Enough(counts, |forbidden|) <= p.Ceiling() ==> r.Ok?
    ensures (forall t :: !late(t)) && Roomy(p, forbidden, counts) ==>
              r.Ok? && forall k :: 0 <= k < |counts| ==> FilledInTurn(p, forbidden, counts, r.value, k)
  {
    ghost var plain := (forall t :: !late(t)) && Roomy(p, forbidden, counts);
    var files: seq<seq<State>>, cursor, time := [], 0, 0;
    for rank := 0 to |counts|
      invariant |files| == rank && forall k :: 0 <= k < rank ==> |files[k]| == counts[k]
      invariant Written(p, forbidden, cursor, Flat(files))
      invariant cursor <= |Skipped(p, forbidden, 0, cursor)| + Enough(counts[..rank], |forbidden|)
      invariant plain ==> TurnsSoFar(p, forbidden, counts, files, cursor)
    {
      NextInTurn(p, forbidden, counts, rank);
      var ok, next, time', file := FillRank(p, forbidden, counts[rank], cursor, late, time, Flat(files));
      SkippedJoins(p, forbidden, 0, cursor, next);
      if !ok {
        SkippedAreFew(p, forbidden, 0, next);
        EnoughGrows(counts, |forbidden|, rank + 1);
        return Err(());
      }
      assert (files + [file])[..rank] == files;
      if plain {
        TurnTaken(p, forbidden, counts, files, cursor, file, next);
      }
      files, cursor, time := files + [file], next, time';
    }
    assert counts[..|counts|] == counts;
    return Ok(files);
  }

  /** The moves of a word, applied one after the other. */
  ghost function Walk(center: State, moves: seq<Map>, w: seq<nat>): (s: State)
    requires AllMaps(moves, |center|) && IsWord(moves, w)
    ensures |s| == |center|
  {
    if w == [] then center else Apply(moves[w[|w| - 1]], Walk(center, moves, w[..|w| - 1]))
  }

  /** Reaching a state is a chain of states from the centre in which every next state takes, at each position,
      the symbol the move points at. */
  lemma {:induction false} WalkIsChain(center: State, moves: seq<Map>, w: seq<nat>) returns (chain: seq<State>)
    requires AllMaps(moves, |center|) && IsWord(moves, w)
    ensures |chain| == |w| + 1 && chain[0] == center && chain[|w|] == Walk(center, moves, w)
    ensures forall k :: 0 <= k < |w| ==> MovesTo(moves[w[k]], chain[k], chain[k + 1])
  {
    if w == [] {
      return [center];
    }
    var last := |w| - 1;
    var front := WalkIsChain(center, moves, w[..last]);
    chain := front + [Walk(center, moves, w)];
    forall k | 0 <= k < |w| ensures MovesTo(moves[w[k]], chain[k], chain[k + 1]) {
      if k < last {
        assert MovesTo(moves[w[..last][k]], front[k], front[k + 1]);
      }
    }
  }

  ghost predicate MovesTo(move: Map, s: State, t: State) {
    |move| == |s| == |t| && forall i :: 0 <= i < |s| ==> move[i] < |s| && t[i] == s[move[i]]
  }

  ghost predicate Reachable(center: State, moves: seq<Map>, s: State)
    requires AllMaps(moves, |center|)
  {
    exists w :: IsWord(moves, w) && Walk(center, moves, w) == s
  }

  lemma {:induction false} WalkIsProduct(center: State, moves: seq<Map>, w: seq<nat>)
    requires AllMaps(moves, |center|) && IsWord(moves, w)
    ensures Walk(center, moves, w) == Apply(Product(moves, w, |center|), center)
  {
    if w != [] {
      WalkIsProduct(center, moves, w[..|w| - 1]);
    }
  }

  lemma {:induction false} DistinctCounts(s: State, v: nat)
    requires Distinct(s)
    ensures multiset(s)[v] <= 1
  {
    if s != [] {
      var front, last := s[..|s| - 1], s[|s| - 1];
      assert s == front + [last];
      DistinctCounts(front, v);
      assert last !in front;
    }
  }

  lemma RearrangedStaysDistinct(center: State, s: State)
    requires Distinct(center) && multiset(s) == multiset(center)
    ensures |s| == |center| && Distinct(s)
  {
    assert |s| == |multiset(s)| == |multiset(center)| == |center|;
    forall i, j | 0 <= i < j < |s| ensures s[i] != s[j] {
      var before, after := s[..i], s[i + 1..];
      assert s == before + [s[i]] + after;
      assert s[j] == after[j - i - 1];
      DistinctCounts(center, s[i]);
      assert multiset(s)[s[i]] == multiset(before)[s[i]] + 1 + multiset(after)[s[i]];
    }
  }

  /** A rearrangement of distinct symbols is the centre moved by one permutation of the positions. */
  lemma RearrangementIsMove(center: State, s: State) returns (f: Map)
    requires Distinct(center) && multiset(s) == multiset(center)
    ensures IsPermutation(f, |center|) && s == Apply(f, center)
  {
    RearrangedStaysDistinct(center, s);
    forall i | 0 <= i < |s| ensures s[i] in center {
      assert s[i] in multiset(s);
    }
    f := [];
    for i := 0 to |s|
      invariant |f| == i && forall k :: 0 <= k < i ==> f[k] < |center| && center[f[k]] == s[k]
    {
      var at :| 0 <= at < |center| && center[at] == s[i];
      f := f + [at];
    }
  }

  ghost predicate GeneratesAll(moves: seq<Map>, n: nat)
    requires AllMaps(moves, n)
  {
    forall f :: IsPermutation(f, n) ==> Generated(moves, n, f)
  }

  /** When the moves give every permutation, every rearrangement of the centre is reached by moves. */
  lemma RearrangementIsReachable(center: State, moves: seq<Map>, s: State)
    requires Distinct(center) && multiset(s) == multiset(center) && AllMaps(moves, |center|)
    requires GeneratesAll(moves, |center|)
    ensures Reachable(center, moves, s)
  {
    var f := RearrangementIsMove(center, s);
    var w :| IsWord(moves, w) && Product(moves, w, |center|) == f;
    WalkIsProduct(center, moves, w);
  }

  ghost predicate Ascending(s: State) {
    |s| >= 2 ==> s[0] <= s[1] && Ascending(s[1..])
  }

  function Insert(v: nat, s: State): (r: State)
    requires Ascending(s)
    ensures Ascending(r) && |r| > 0 && r[0] == (if s == [] || v <= s[0] then v else s[0])
    ensures multiset(r) == multiset(s) + multiset{v}
  {
    if s == [] || v <= s[0] then
      assert ([v] + s)[1..] == s;
      [v] + s
    else
      assert s == [s[0]] + s[1..];
      var rest := Insert(v, s[1..]);
      assert ([s[0]] + rest)[1..] == rest;
      [s[0]] + rest
  }

  /** The library's ascending sort. */
  function SortSymbols(center: State): (symbols: State)
    ensures Ascending(symbols) && multiset(symbols) == multiset(center)
  {
    if center == [] then [] else
      assert center == [center[0]] + center[1..];
      Insert(center[0], SortSymbols(center[1..]))
  }

  /** A written row: the state, then zeros up to the storage size. */
  function Padded(s: State, storage: nat): (row: State) {
    s + seq(if storage > |s| then storage - |s| else 0, _ => 0)
  }

  function PadFile(states: seq<State>, storage: nat): (rows: seq<State>)
    ensures |rows| == |states|
  {
    seq(|states|, (k: nat) requires k < |states| => Padded(states[k], storage))
  }

  function PadFiles(files: seq<seq<State>>, storage: nat): (padded: seq<seq<State>>)
    ensures |padded| == |files| && forall k :: 0 <= k < |files| ==> |padded[k]| == |files[k]|
  {
    seq(|files|, (k: nat) requires k < |files| => PadFile(files[k], storage))
  }

  lemma {:induction false} FlatOfPadded(files: seq<seq<State>>, storage: nat)
    ensures Flat(PadFiles(files, storage)) == PadFile(Flat(files), storage)
  {
    if files != [] {
      var front, last := files[..|files| - 1], files[|files| - 1];
      FlatOfPadded(front, storage);
      assert PadFiles(files, storage) == PadFiles(front, storage) + [PadFile(last, storage)];
    }
  }

  lemma PaddingKeepsApart(states: seq<State>, n: nat, storage: nat)
    requires Distinct(states) && forall k :: 0 <= k < |states| ==> |states[k]| == n
    ensures Distinct(PadFile(states, storage))
  {
    var rows := PadFile(states, storage);
    forall i, j | 0 <= i < j < |rows| ensures rows[i] != rows[j] {
      assert rows[i][..n] == states[i] && rows[j][..n] == states[j];
    }
  }

  /** The row holds a rearrangement of the centre that moves reach, not the centre and not one move before
      it, and zeros after it. */
  ghost predicate ExactRow(center: State, moves: seq<Map>, storage: nat, row: State)
    requires AllMaps(moves, |center|)
  {
    && |row| == storage >= |center|
    && multiset(row[..|center|]) == multiset(center)
    && Reachable(center, moves, row[..|center|]) && NotNear(center, moves, row[..|center|])
    && forall p :: |center| <= p < storage ==> row[p] == 0
  }

  /** A frontier set that is exact: the counts are met, no row is written twice, and every row is exact. */
  ghost predicate Exact(center: State, moves: seq<Map>, counts: seq<nat>, storage: nat, files: seq<seq<State>>)
    requires AllMaps(moves, |center|)
  {
    && |files| == |counts| && (forall k :: 0 <= k < |counts| ==> |files[k]| == counts[k])
    && Distinct(Flat(files))
    && forall k :: 0 <= k < |Flat(files)| ==> ExactRow(center, moves, storage, Flat(files)[k])
  }

  ghost predicate NotNear(center: State, moves: seq<Map>, s: State) {
    s != center && forall k :: 0 <= k < |moves| ==> !LeadsTo(moves[k], s, center)
  }

  /** No move of the state gives the centre. */
  lemma NotNearMeans(center: State, moves: seq<Map>, s: State)
    requires NotNear(center, moves, s) && |s| == |center| && AllMaps(moves, |center|)
    ensures s != center && forall k :: 0 <= k < |moves| ==> !MovesTo(moves[k], s, center)
  {
    forall k | 0 <= k < |moves| ensures !MovesTo(moves[k], s, center) {
      LeadingIsMoving(moves[k], s, center);
    }
  }

  lemma LeadingIsMoving(move: Map, s: State, t: State)
    requires |move| == |s|
    ensures LeadsTo(move, s, t) <==> MovesTo(move, s, t)
  {
    if MovesTo(move, s, t) {
      assert Apply(move, s) == t;
    }
  }

  lemma RowIsExact(center: State, moves: seq<Map>, storage: nat, p: Numbering, forbidden: seq<State>, s: State)
    requires AllMaps(moves, |center|) && Distinct(center) && multiset(p.symbols) == multiset(center)
    requires storage >= |center|
    requires LegalState(p, forbidden, s) && center in forbidden
    requires forall t, k :: 0 <= k < |moves| && LeadsTo(moves[k], t, center) ==> t in forbidden
    requires GeneratesAll(moves, |center|)
    ensures |s| == |center| && ExactRow(center, moves, storage, Padded(s, storage))
  {
    RearrangedStaysDistinct(center, s);
    RearrangementIsReachable(center, moves, s);
    assert Padded(s, storage)[..|center|] == s;
  }

  lemma FilesAreExact(center: State, moves: seq<Map>, counts: seq<nat>, storage: nat, p: Numbering,
                      forbidden: seq<State>,
                      files: seq<seq<State>>)
    requires AllMaps(moves, |center|) && Distinct(center) && multiset(p.symbols) == multiset(center)
    requires storage >= |center|
    requires |files| == |counts| && forall k :: 0 <= k < |counts| ==> |files[k]| == counts[k]
    requires Distinct(Flat(files)) && Legal(p, forbidden, Flat(files)) && center in forbidden
    requires forall s, k :: 0 <= k < |moves| && LeadsTo(moves[k], s, center) ==> s in forbidden
    requires GeneratesAll(moves, |center|)
    ensures Exact(center, moves, counts, storage, PadFiles(files, storage))
  {
    var states := Flat(files);
    forall k | 0 <= k < |states|
      ensures |states[k]| == |center| && ExactRow(center, moves, storage, Padded(states[k], storage)) {
      assert LegalState(p, forbidden, states[k]);
      RowIsExact(center, moves, storage, p, forbidden, states[k]);
    }
    FlatOfPadded(files, storage);
    PaddingKeepsApart(states, |center|, storage);
  }

  /** `_enumerated_frontiers`: the receipt's claim, that the frontier is exact, holds. */
  method EnumerateFrontiers(center: State, moves: seq<Map>, counts: seq<nat>, storage: nat, late: nat -> bool)
    returns (r: Result<seq<seq<State>>, ()>, ghost p: Numbering, ghost forbidden: seq<State>)
    requires AllMaps(moves, |center|) && forall k :: 0 <= k < |moves| ==> IsPermutation(moves[k], |center|)
    requires |center| <= 20 && Distinct(center) && GeneratesAll(moves, |center|) && storage >= |center|
    ensures r.Ok? ==> Exact(center, moves, counts, storage, r.value)
    ensures (forall t :: !late(t)) && Enough(counts, 1 + |moves|) <= Factorial(|center|) ==> r.Ok?
    ensures StrictlyAscending(p.symbols) && multiset(p.symbols) == multiset(center) && |p.symbols| == |center|
    ensures p.offset == Factorial(|center|) / 3 && LargestStride(Factorial(|center|), p.stride)
    ensures |forbidden| == 1 + |moves| && center in forbidden
    ensures forbidden[0] == center && forall k :: 0 <= k < |moves| ==> LeadsTo(moves[k], forbidden[k + 1], center)
    ensures forall s, k :: 0 <= k < |moves| && LeadsTo(moves[k], s, center) ==> s in forbidden
    ensures (forall t :: !late(t)) && Roomy(p, forbidden, counts) ==>
              && r.Ok? && |r.value| == |counts|
              && forall k :: 0 <= k < |counts| ==> InTurn(p, forbidden, counts, storage, r.value[k], k)
  {
    var symbols := SortSymbols(center);
    RearrangedStaysDistinct(center, symbols);
    SortedIsStrict(symbols);
    var excluded := MakeForbidden(center, moves);
    var numbering := ChooseStride(symbols);
    p, forbidden := numbering, excluded;
    var files := FillRanks(numbering, excluded, counts, late);
    if files.Err? {
      return files, p, forbidden;
    }
    FilesAreExact(center, moves, counts, storage, p, forbidden, files.value);
    r := Ok(PadFiles(files.value, storage));
    forall k | 0 <= k < |counts| && FilledInTurn(p, forbidden, counts, files.value, k)
      ensures InTurn(p, forbidden, counts, storage, r.value[k], k)
    {
    }
  }

  /** The padded form of `FilledInTurn`. */
  ghost predicate InTurn(p: Numbering, forbidden: seq<State>, counts: seq<nat>, storage: nat, rows: seq<State>,
                         k: nat) {
    && k < |counts|
    && var start, end := Enough(counts[..k], |forbidden|), Enough(counts[..k + 1], |forbidden|);
    && end == start + counts[k] + |forbidden| <= p.Ceiling() && |Fresh(p, forbidden, start, end)| >= counts[k]
    && rows == PadFile(Fresh(p, forbidden, start, end)[..counts[k]], storage)
  }

  lemma {:induction false} SortedIsStrict(s: State)
    requires Ascending(s) && Distinct(s)
    ensures StrictlyAscending(s)
  {
    if |s| >= 2 {
      SortedIsStrict(s[1..]);
      forall i, j | 0 <= i < j < |s| ensures s[i] < s[j] {
        assert s[1] == s[1..][0] && s[j] == s[1..][j - 1];
        assert i > 0 ==> s[i] == s[1..][i - 1];
        assert s[0] != s[1];
      }
    }
  }

  datatype Refusal = NoStates | StorageTooSmall | AboveStateBudget | WalkTooShort | Exhausted

  function Total(counts: seq<nat>): nat {
    if counts == [] then 0 else Total(counts[..|counts| - 1]) + counts[|counts| - 1]
  }

  /** What `write_frontiers` checks before it chooses a route. */
  function Refused(center: State, counts: seq<nat>, storage: nat, budget: nat, walk: int): Option<Refusal> {
    if Total(counts) == 0 then Some(NoStates)
    else if storage < |center| then Some(StorageTooSmall)
    else if budget == 0 || Total(counts) > budget then Some(AboveStateBudget)
    else if walk < 1 then Some(WalkTooShort)
    else None
  }

  ghost predicate AnySuits(moves: seq<Map>, n: nat)
    requires n > 0 && AllMaps(moves, n)
  {
    exists c, t :: 0 <= c < |moves| && 0 <= t < |moves| && Suits(moves[c], moves[t], n)
  }

  /** The certified route of `write_frontiers`. `None` means this route does not apply; `Exhausted` means
      the deadline passed or the arrangements ran out. */
  method WriteCertified(center: State, moves: seq<Map>, counts: seq<nat>, storage: nat, budget: nat, walk: int,
                        late: nat -> bool)
    returns (r: Option<Result<seq<seq<State>>, Refusal>>)
    requires |center| > 0 && AllMaps(moves, |center|)
    requires forall k :: 0 <= k < |moves| ==> IsPermutation(moves[k], |center|)
    ensures Refused(center, counts, storage, budget, walk).Some? ==>
              r == Some(Err(Refused(center, counts, storage, budget, walk).value))
    ensures r.Some? && r.value.Ok? ==> Exact(center, moves, counts, storage, r.value.value)
    ensures Refused(center, counts, storage, budget, walk).None? ==>
              (r.None? <==> |center| > 20 || !Distinct(center) || !AnySuits(moves, |center|))
    ensures Refused(center, counts, storage, budget, walk).None? && r.Some? ==>
              |center| <= 20 && Distinct(center) && GeneratesAll(moves, |center|)
              && (r.value.Ok? || r.value.error == Exhausted)
    ensures Refused(center, counts, storage, budget, walk).None? && r.Some? ==>
              (forall t :: !late(t)) && Enough(counts, 1 + |moves|) <= Factorial(|center|) ==> r.value.Ok?
  {
    var refused := Refused(center, counts, storage, budget, walk);
    if refused.Some? {
      return Some(Err(refused.value));
    }
    var distinct := AllDistinct(center);
    if |center| > 20 || !distinct {
      return None;
    }
    var certificate := SymmetricOrbitCertificate(moves, |center|);
    if certificate.None? {
      return None;
    }
    var files, p, forbidden := EnumerateFrontiers(center, moves, counts, storage, late);
    if files.Err? {
      return Some(Err(Exhausted));
    }
    return Some(Ok(files.value));
  }

  method AllDistinct(center: State) returns (distinct: bool)
    ensures distinct <==> Distinct(center)
  {
    var seen: set<nat> := {};
    for k := 0 to |center|
      invariant forall v :: v in seen <==> v in center[..k]
      invariant Distinct(center[..k])
    {
      if center[k] in seen {
        var i :| 0 <= i < k && center[..k][i] == center[k];
        assert center[i] == center[k];
        return false;
      }
      assert center[..k + 1] == center[..k] + [center[k]];
      seen := seen + {center[k]};
    }
    assert center[..|center|] == center;
    return true;
  }
}
