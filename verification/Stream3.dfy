/** Threshold, deduplicate and split one rank's candidates by owner (src/stream3.cpp). */
module Stream3 {
  import opened Candidates
  import opened Frontier
  import opened Sets
  import opened Wrappers
  import HashRuns
  import Sorting

  datatype Input = Input(hash: Hash128, score: u32, payload: u32, parent: u64, move: u8)

  datatype Packed = Packed(hash: Hash128, val: u64, parent: u64, move: u8)

  datatype Split = Split(local: seq<Candidate>, remote: seq<Candidate>, sendCount: seq<u32>, sendOffset: seq<u32>)

  datatype Error = WorldSizeOutOfRange

  function PackVal(score: u32, payload: u32): u64 {
    score * 0x1_0000_0000 + payload
  }

  /** `owner_from_hash128`, over an arbitrary distribution key. */
  function Owner(key: Hash128 -> nat, world: u32, h: Hash128): (owner: u8)
    requires 0 < world <= 256
    ensures owner < world
  {
    key(h) % world
  }

  function Meta(key: Hash128 -> nat, world: u32, rank: u16, x: Input): Candidate
    requires 0 < world <= 256
  {
    Candidate(x.hash, x.parent, x.score, PackRoute(rank, Owner(key, world, x.hash), x.move))
  }

  predicate PackedLess(a: Packed, b: Packed) {
    if !HashLess(a.hash, b.hash) && a.hash != b.hash then false
    else if a.hash != b.hash then true
    else a.val < b.val
  }

  predicate NotAfter(x: Input, y: Input) {
    x.score < y.score || (x.score == y.score && x.payload <= y.payload)
  }

  /** `x` survives the threshold and no survivor of its hash has a smaller (score, payload). */
  ghost predicate Leads(input: seq<Input>, threshold: u32, x: Input) {
    && x in input && x.score <= threshold
    && forall y :: y in input && y.score <= threshold && y.hash == x.hash ==> NotAfter(x, y)
  }

  ghost predicate Represents(key: Hash128 -> nat, world: u32, rank: u16, input: seq<Input>, threshold: u32,
                             c: Candidate)
    requires 0 < world <= 256
  {
    exists x :: Leads(input, threshold, x) && c == Meta(key, world, rank, x)
  }

  ghost predicate HasHash(s: seq<Candidate>, h: Hash128) {
    exists k :: 0 <= k < |s| && s[k].hash == h
  }

  /** The deduplicated batch: a bank of leaders with one entry for every surviving hash. */
  ghost predicate Deduplicated(key: Hash128 -> nat, world: u32, rank: u16,
                               input: seq<Input>, threshold: u32, unique: seq<Candidate>)
    requires 0 < world <= 256
  {
    && IsBank(unique)
    && (forall k :: 0 <= k < |unique| ==> Represents(key, world, rank, input, threshold, unique[k]))
    && (forall x :: x in input && x.score <= threshold ==> HasHash(unique, x.hash))
  }

  /** The entries an owner is responsible for, in the order they appear. */
  function OwnedBy(s: seq<Candidate>, owner: int): seq<Candidate> {
    if s == [] then []
    else OwnedBy(s[..|s| - 1], owner) + (if UnpackOwner(s[|s| - 1].route) == owner then [s[|s| - 1]] else [])
  }

  function Outgoing(s: seq<Candidate>, rank: u16, peer: int): seq<Candidate> {
    if peer == rank then [] else OwnedBy(s, peer)
  }

  /** Segment `p` of the send buffer lies inside it and holds `owned`. */
  ghost predicate Segment(split: Split, p: nat, owned: seq<Candidate>) {
    && p < |split.sendCount| && p + 1 < |split.sendOffset|
    && split.sendOffset[p + 1] == split.sendOffset[p] + split.sendCount[p] <= |split.remote|
    && split.remote[split.sendOffset[p]..split.sendOffset[p + 1]] == owned
  }

  /** The counting-sort layout: exclusive prefix sums, and each peer's segment in hash order. */
  ghost predicate Scattered(unique: seq<Candidate>, rank: u16, world: u32, split: Split) {
    && split.local == OwnedBy(unique, rank)
    && |split.sendCount| == world && |split.sendOffset| == world + 1
    && split.sendOffset[0] == 0 && split.sendOffset[world] == |split.remote|
    && (forall p :: 0 <= p < world ==> Segment(split, p, Outgoing(unique, rank, p)))
  }

  ghost predicate SplitOut(key: Hash128 -> nat, world: u32, rank: u16,
                           input: seq<Input>, threshold: u32, split: Split)
    requires 0 < world <= 256
  {
    exists unique :: Deduplicated(key, world, rank, input, threshold, unique) && Scattered(unique, rank, world, split)
  }

  lemma OwnedBySnoc(s: seq<Candidate>, i: nat, p: int)
    requires i < |s|
    ensures OwnedBy(s[..i + 1], p) == OwnedBy(s[..i], p) + (if UnpackOwner(s[i].route) == p then [s[i]] else [])
  {
    assert s[..i + 1][..i] == s[..i];
  }

  lemma {:induction false} OwnedByPrefix(s: seq<Candidate>, i: nat, p: int)
    requires i <= |s|
    ensures |OwnedBy(s[..i], p)| <= |OwnedBy(s, p)|
    decreases |s| - i
  {
    if i < |s| {
      OwnedBySnoc(s, i, p);
      OwnedByPrefix(s, i + 1, p);
    } else {
      assert s[..i] == s;
    }
  }

  lemma {:induction false} OwnedByElements(s: seq<Candidate>, p: int)
    ensures forall c :: c in OwnedBy(s, p) <==> c in s && UnpackOwner(c.route) == p
  {
    if s != [] {
      OwnedByElements(s[..|s| - 1], p);
      assert s == s[..|s| - 1] + [s[|s| - 1]];
    }
  }

  function PackedOf(x: Input): Packed {
    Packed(x.hash, PackVal(x.score, x.payload), x.parent, x.move)
  }

  function MetaOf(key: Hash128 -> nat, world: u32, rank: u16, item: Packed): Candidate
    requires 0 < world <= 256
  {
    Candidate(item.hash, item.parent, item.val / 0x1_0000_0000,
              PackRoute(rank, Owner(key, world, item.hash), item.move))
  }

  ghost function Survivors(input: seq<Input>, threshold: u32): set<Packed> {
    set x | x in input && x.score <= threshold :: PackedOf(x)
  }

  function HashOf(item: Packed): Hash128 {
    item.hash
  }

  lemma PackedLessIsHashFirst()
    ensures HashRuns.HashFirst(PackedLess, HashOf)
  {
  }

  /** The packed 64-bit key compares like the pair (score, payload) and keeps the score in its high half. */
  lemma PackedOrder(x: Input, y: Input)
    ensures PackVal(x.score, x.payload) <= PackVal(y.score, y.payload) <==> NotAfter(x, y)
    ensures PackVal(x.score, x.payload) / 0x1_0000_0000 == x.score
  {
  }

  /** The packed leaders become the entries of the batch, in the same order. */
  lemma LeadersAreDeduplicated(key: Hash128 -> nat, world: u32, rank: u16, input: seq<Input>, threshold: u32,
                               sorted: seq<Packed>, kept: seq<Packed>, unique: seq<Candidate>)
    requires 0 < world <= 256
    requires Elems(sorted) == Survivors(input, threshold)
    requires HashRuns.IncreasingHashes(kept, HashOf)
    requires forall m :: 0 <= m < |kept| ==> HashRuns.Leader(sorted, kept[m], PackedLess, HashOf)
    requires HashRuns.Hashes(kept, HashOf) == HashRuns.Hashes(sorted, HashOf)
    requires |unique| == |kept| && forall k :: 0 <= k < |kept| ==> unique[k] == MetaOf(key, world, rank, kept[k])
    ensures Deduplicated(key, world, rank, input, threshold, unique)
  {
    forall i, j | 0 <= i < j < |unique| ensures HashLess(unique[i].hash, unique[j].hash) {
      assert HashLess(HashOf(kept[i]), HashOf(kept[j]));
    }
    forall k | 0 <= k < |unique| ensures Represents(key, world, rank, input, threshold, unique[k]) {
      var x := LeaderInput(input, threshold, sorted, kept[k]);
      PackedOrder(x, x);
    }
    forall x | x in input && x.score <= threshold ensures HasHash(unique, x.hash) {
      assert PackedOf(x) in Elems(sorted);
      var k :| 0 <= k < |sorted| && sorted[k] == PackedOf(x);
      assert HashOf(sorted[k]) in HashRuns.Hashes(kept, HashOf);
      var m :| 0 <= m < |kept| && HashOf(kept[m]) == HashOf(sorted[k]);
      assert unique[m].hash == x.hash;
    }
  }

  lemma LeaderInput(input: seq<Input>, threshold: u32, sorted: seq<Packed>, p: Packed) returns (x: Input)
    requires Elems(sorted) == Survivors(input, threshold)
    requires HashRuns.Leader(sorted, p, PackedLess, HashOf)
    ensures Leads(input, threshold, x) && PackedOf(x) == p
  {
    assert p in Elems(sorted);
    x :| x in input && x.score <= threshold && PackedOf(x) == p;
    forall y | y in input && y.score <= threshold && y.hash == x.hash ensures NotAfter(x, y) {
      assert PackedOf(y) in Elems(sorted);
      PackedOrder(x, y);
      assert !PackedLess(PackedOf(y), p);
    }
  }

  lemma SurvivorsSnoc(input: seq<Input>, i: nat, t: u32)
    requires i < |input|
    ensures Survivors(input[..i + 1], t)
            == Survivors(input[..i], t) + (if input[i].score <= t then {PackedOf(input[i])} else {})
  {
    assert input[..i + 1] == input[..i] + [input[i]];
  }

  lemma RepresentedOwner(key: Hash128 -> nat, world: u32, rank: u16, input: seq<Input>, threshold: u32, c: Candidate)
    requires 0 < world <= 256 && Represents(key, world, rank, input, threshold, c)
    ensures UnpackOwner(c.route) == Owner(key, world, c.hash) < world
  {
    var x :| Leads(input, threshold, x) && c == Meta(key, world, rank, x);
    RouteRoundTrip(rank, Owner(key, world, x.hash), x.move, 0);
  }

  /** Offsets are running sums of counts, so the segments are laid out one after another. */
  ghost predicate Layout(counts: seq<nat>, offsets: seq<nat>) {
    && |offsets| == |counts| + 1 && offsets[0] == 0
    && forall p :: 0 <= p < |counts| ==> offsets[p + 1] == offsets[p] + counts[p]
  }

  lemma {:induction false} SegmentsInOrder(counts: seq<nat>, offsets: seq<nat>, p: nat, q: nat)
    requires Layout(counts, offsets) && p < q <= |counts|
    ensures offsets[p] + counts[p] <= offsets[q]
    decreases q
  {
    if p + 1 < q {
      SegmentsInOrder(counts, offsets, p, q - 1);
      assert offsets[q - 1 + 1] == offsets[q - 1] + counts[q - 1];
    } else {
      assert offsets[p + 1] == offsets[p] + counts[p];
    }
  }

  /** Peer `p`'s segment is filled up to its cursor with what the first `i` entries owe it. */
  ghost predicate Filled(unique: seq<Candidate>, i: nat, rank: u16, counts: seq<nat>, offsets: seq<nat>,
                         remote: seq<Candidate>, cursor: seq<nat>, p: nat)
    requires i <= |unique| && |offsets| == |counts| + 1 == |cursor| && p < |counts|
  {
    var owed := Outgoing(unique[..i], rank, p);
    && |owed| <= counts[p]
    && cursor[p] == offsets[p] + |owed| <= |remote|
    && remote[offsets[p]..cursor[p]] == owed
  }

  ghost predicate AllFilled(unique: seq<Candidate>, i: nat, rank: u16, counts: seq<nat>, offsets: seq<nat>,
                            remote: seq<Candidate>, cursor: seq<nat>)
  {
    && i <= |unique| && |offsets| == |counts| + 1 == |cursor| && |remote| == offsets[|counts|]
    && forall p :: 0 <= p < |counts| ==> Filled(unique, i, rank, counts, offsets, remote, cursor, p)
  }

  ghost predicate Counted(unique: seq<Candidate>, i: nat, rank: u16, local: seq<Candidate>, counts: seq<nat>) {
    && i <= |unique| && local == OwnedBy(unique[..i], rank)
    && forall p :: 0 <= p < |counts| ==> counts[p] == |Outgoing(unique[..i], rank, p)|
  }

  lemma CountOne(unique: seq<Candidate>, i: nat, rank: u16, local: seq<Candidate>, counts: seq<nat>)
    requires i < |unique| && UnpackOwner(unique[i].route) < |counts| && Counted(unique, i, rank, local, counts)
    ensures UnpackOwner(unique[i].route) == rank ==> Counted(unique, i + 1, rank, local + [unique[i]], counts)
    ensures UnpackOwner(unique[i].route) != rank ==>
              var o := UnpackOwner(unique[i].route);
              Counted(unique, i + 1, rank, local, counts[o := counts[o] + 1])
  {
    OwnedBySnoc(unique, i, rank);
    forall p ensures OwnedBy(unique[..i + 1], p)
                     == OwnedBy(unique[..i], p) + (if UnpackOwner(unique[i].route) == p then [unique[i]] else [])
    {
      OwnedBySnoc(unique, i, p);
    }
  }

  lemma ScatterStep(unique: seq<Candidate>, i: nat, rank: u16, counts: seq<nat>, offsets: seq<nat>,
                    remote: seq<Candidate>, cursor: seq<nat>)
    requires i < |unique| && Layout(counts, offsets) && UnpackOwner(unique[i].route) < |counts|
    requires Counted(unique, |unique|, rank, OwnedBy(unique, rank), counts)
    requires AllFilled(unique, i, rank, counts, offsets, remote, cursor)
    ensures UnpackOwner(unique[i].route) == rank ==> AllFilled(unique, i + 1, rank, counts, offsets, remote, cursor)
    ensures UnpackOwner(unique[i].route) != rank ==>
              var o := UnpackOwner(unique[i].route);
              cursor[o] < |remote| &&
              AllFilled(unique, i + 1, rank, counts, offsets, remote[cursor[o] := unique[i]],
                        cursor[o := cursor[o] + 1])
  {
    var o, next := UnpackOwner(unique[i].route), i + 1;
    assert unique[..|unique|] == unique;
    if o == rank {
      forall p | 0 <= p < |counts| ensures Filled(unique, next, rank, counts, offsets, remote, cursor, p) {
        ScatterNone(unique, i, rank, counts, offsets, remote, cursor, p);
      }
    } else {
      ScatterOne(unique, i, rank, counts, offsets, remote, cursor, o);
      var remote', cursor' := remote[cursor[o] := unique[i]], cursor[o := cursor[o] + 1];
      forall p | 0 <= p < |counts| ensures Filled(unique, next, rank, counts, offsets, remote', cursor', p) {
        ScatterOne(unique, i, rank, counts, offsets, remote, cursor, p);
      }
    }
  }

  lemma ScatterOne(unique: seq<Candidate>, i: nat, rank: u16, counts: seq<nat>, offsets: seq<nat>,
                   remote: seq<Candidate>, cursor: seq<nat>, p: nat)
    requires i < |unique| && Layout(counts, offsets) && |cursor| == |offsets| && p < |counts|
    requires |remote| == offsets[|counts|]
    requires UnpackOwner(unique[i].route) < |counts| && UnpackOwner(unique[i].route) != rank
    requires forall q :: 0 <= q < |counts| ==> counts[q] == |Outgoing(unique, rank, q)|
    requires forall q :: 0 <= q < |counts| ==> Filled(unique, i, rank, counts, offsets, remote, cursor, q)
    ensures var o := UnpackOwner(unique[i].route);
            && cursor[o] < |remote|
            && Filled(unique, i + 1, rank, counts, offsets, remote[cursor[o] := unique[i]],
                      cursor[o := cursor[o] + 1], p)
  {
    var o := UnpackOwner(unique[i].route);
    OwnedBySnoc(unique, i, o);
    OwnedByPrefix(unique, i + 1, o);
    SegmentsInOrder(counts, offsets, o, |counts|);
    assert Filled(unique, i, rank, counts, offsets, remote, cursor, o);
    assert Filled(unique, i, rank, counts, offsets, remote, cursor, p);
    OwnedBySnoc(unique, i, p);
    var remote' := remote[cursor[o] := unique[i]];
    if p < o {
      SegmentsInOrder(counts, offsets, p, o);
      assert remote'[offsets[p]..cursor[p]] == remote[offsets[p]..cursor[p]];
    } else if o < p {
      SegmentsInOrder(counts, offsets, o, p);
      assert remote'[offsets[p]..cursor[p]] == remote[offsets[p]..cursor[p]];
    } else {
      assert remote'[offsets[p]..cursor[p] + 1] == remote[offsets[p]..cursor[p]] + [unique[i]];
    }
  }

  lemma ScatterNone(unique: seq<Candidate>, i: nat, rank: u16, counts: seq<nat>, offsets: seq<nat>,
                    remote: seq<Candidate>, cursor: seq<nat>, p: nat)
    requires i < |unique| && |offsets| == |counts| + 1 == |cursor| && p < |counts|
    requires UnpackOwner(unique[i].route) == rank
    requires Filled(unique, i, rank, counts, offsets, remote, cursor, p)
    ensures Filled(unique, i + 1, rank, counts, offsets, remote, cursor, p)
  {
    OwnedBySnoc(unique, i, p);
  }

  method CompactAndSort(input: seq<Input>, threshold: u32) returns (sorted: seq<Packed>)
    ensures Elems(sorted) == Survivors(input, threshold) && Sorting.SortedBy(sorted, PackedLess)
    ensures sorted == [] <==> forall x :: x in input ==> x.score > threshold
    ensures |sorted| <= |input|
  {
    var compacted: seq<Packed> := [];
    for i := 0 to |input|
      invariant Elems(compacted) == Survivors(input[..i], threshold)
      invariant compacted == [] <==> forall k :: 0 <= k < i ==> input[k].score > threshold
      invariant |compacted| <= i
    {
      SurvivorsSnoc(input, i, threshold);
      if input[i].score <= threshold {
        compacted := compacted + [PackedOf(input[i])];
      }
    }
    assert input[..|input|] == input;
    PackedLessIsHashFirst();
    sorted := Sorting.Sort(compacted, PackedLess);
    Sorting.SameElements(sorted, compacted);
  }

  method ThresholdDedupSplit(key: Hash128 -> nat, input: seq<Input>, threshold: u32, rank: u16, world: u32)
    returns (r: Result<Split, Error>)
    requires |input| <= U32_MAX
    ensures r.Err? <==> !(0 < world <= 256) && exists x :: x in input && x.score <= threshold
    ensures r.Ok? && 0 < world <= 256 ==> SplitOut(key, world, rank, input, threshold, r.value)
    ensures r.Ok? && 0 < world <= 256 && rank < world ==> SplitInNumbers(key, world, rank, input, threshold, r.value)
    ensures r.Ok? && !(0 < world <= 256) ==>
              r.value == Split([], [], seq(world, _ => 0), seq(world + 1, _ => 0))
  {
    var sorted := CompactAndSort(input, threshold);
    PackedLessIsHashFirst();
    var kept := HashRuns.KeepFirsts(sorted, PackedLess, HashOf);
    assert |sorted| > 0 ==> HashOf(sorted[0]) in HashRuns.Hashes(sorted, HashOf);
    if world == 0 || world > 256 {
      if kept != [] {
        return Err(WorldSizeOutOfRange);
      }
      return Ok(Split([], [], seq(world, _ => 0), seq(world + 1, _ => 0)));
    }

    var unique: seq<Candidate> := [];
    for i := 0 to |kept|
      invariant |unique| == i && forall k :: 0 <= k < i ==> unique[k] == MetaOf(key, world, rank, kept[k])
    {
      unique := unique + [MetaOf(key, world, rank, kept[i])];
    }
    LeadersAreDeduplicated(key, world, rank, input, threshold, sorted, kept, unique);
    var split := Scatter(unique, rank, world) by {
      forall k | 0 <= k < |unique| ensures UnpackOwner(unique[k].route) < world {
        RepresentedOwner(key, world, rank, input, threshold, unique[k]);
      }
    }
    if rank < world {
      SplitIsNumeric(key, world, rank, input, threshold, split);
    }
    return Ok(split);
  }

  /** The entries that the peers before `p` are sent. */
  ghost function SentBefore(s: seq<Candidate>, rank: u16, p: nat): (n: nat)
    ensures n <= |s|
  {
    if s == [] then 0
    else
      var owner := UnpackOwner(s[|s| - 1].route);
      SentBefore(s[..|s| - 1], rank, p) + if owner < p && owner != rank then 1 else 0
  }

  lemma {:induction false} SentBeforeStep(s: seq<Candidate>, rank: u16, p: nat)
    ensures SentBefore(s, rank, p + 1) == SentBefore(s, rank, p) + |Outgoing(s, rank, p)|
  {
    if s != [] {
      SentBeforeStep(s[..|s| - 1], rank, p);
    }
  }

  lemma {:induction false} NoneSentBefore(s: seq<Candidate>, rank: u16)
    ensures SentBefore(s, rank, 0) == 0
  {
    if s != [] {
      NoneSentBefore(s[..|s| - 1], rank);
    }
  }

  /** No offset exceeds the number of deduplicated entries, so 32 bits suffice. */
  method ExclusiveSums(ghost unique: seq<Candidate>, ghost rank: u16, counts: seq<u32>) returns (offsets: seq<u32>)
    requires |unique| <= U32_MAX && forall p :: 0 <= p < |counts| ==> counts[p] == |Outgoing(unique, rank, p)|
    ensures Layout(counts, offsets)
    ensures forall p :: 0 <= p < |offsets| ==> offsets[p] <= |unique|
  {
    offsets := [0];
    NoneSentBefore(unique, rank);
    for peer := 0 to |counts|
      invariant |offsets| == peer + 1 && offsets[0] == 0 && offsets[peer] == SentBefore(unique, rank, peer)
      invariant forall p :: 0 <= p < peer ==> offsets[p + 1] as int == offsets[p] as int + counts[p] as int
      invariant forall p :: 0 <= p <= peer ==> offsets[p] <= |unique|
    {
      SentBeforeStep(unique, rank, peer);
      var next: u32 := offsets[peer] + counts[peer];
      offsets := offsets + [next];
    }
  }

  method CountOwners(unique: seq<Candidate>, rank: u16, world: u32) returns (local: seq<Candidate>, counts: seq<u32>)
    requires |unique| <= U32_MAX && forall k :: 0 <= k < |unique| ==> UnpackOwner(unique[k].route) < world
    ensures |counts| == world && Counted(unique, |unique|, rank, local, counts)
  {
    local := [];
    counts := seq(world, _ => 0);
    for i := 0 to |unique|
      invariant |counts| == world && Counted(unique, i, rank, local, counts)
    {
      CountOne(unique, i, rank, local, counts);
      var owner := UnpackOwner(unique[i].route);
      if owner == rank {
        local := local + [unique[i]];
      } else {
        OwnedBySize(unique[..i], owner);
        counts := counts[owner := counts[owner] + 1];
      }
    }
  }

  lemma {:induction false} OwnedBySize(s: seq<Candidate>, p: int)
    ensures |OwnedBy(s, p)| <= |s|
  {
    if s != [] {
      OwnedBySize(s[..|s| - 1], p);
    }
  }

  /** The second half of the split: count per owner, prefix-sum, then write through cursors. */
  method Scatter(unique: seq<Candidate>, rank: u16, world: u32) returns (split: Split)
    requires |unique| <= U32_MAX && forall k :: 0 <= k < |unique| ==> UnpackOwner(unique[k].route) < world
    ensures Scattered(unique, rank, world, split)
    ensures forall p :: 0 <= p <= world ==> split.sendOffset[p] <= |unique|
  {
    var local, counts := CountOwners(unique, rank, world);
    assert unique[..|unique|] == unique;
    var offsets := ExclusiveSums(unique, rank, counts);
    var remote, cursor := WriteSegments(unique, rank, counts, offsets);
    split := Split(local, remote, counts, offsets);
    EverythingFilled(unique, rank, split, cursor);
  }

  /** Every entry for another rank goes to its owner's cursor. */
  method WriteSegments(unique: seq<Candidate>, rank: u16, counts: seq<u32>, offsets: seq<u32>)
    returns (remote: seq<Candidate>, cursor: seq<u32>)
    requires Layout(counts, offsets) && Counted(unique, |unique|, rank, OwnedBy(unique, rank), counts)
    requires forall k :: 0 <= k < |unique| ==> UnpackOwner(unique[k].route) < |counts|
    ensures AllFilled(unique, |unique|, rank, counts, offsets, remote, cursor)
  {
    remote := seq(offsets[|counts|], _ => Candidate(Hash128(0, 0), 0, 0, 0));
    cursor := offsets;
    NothingFilled(unique, rank, counts, offsets, remote);
    for i := 0 to |unique|
      invariant AllFilled(unique, i, rank, counts, offsets, remote, cursor)
    {
      ScatterStep(unique, i, rank, counts, offsets, remote, cursor);
      var owner := UnpackOwner(unique[i].route);
      if owner != rank {
        remote := remote[cursor[owner] := unique[i]];
        cursor := cursor[owner := cursor[owner] + 1];
      }
    }
  }

  lemma NothingFilled(unique: seq<Candidate>, rank: u16, counts: seq<nat>, offsets: seq<nat>, remote: seq<Candidate>)
    requires Layout(counts, offsets) && |remote| == offsets[|counts|]
    ensures AllFilled(unique, 0, rank, counts, offsets, remote, offsets)
  {
    forall p | 0 <= p < |counts| ensures Filled(unique, 0, rank, counts, offsets, remote, offsets, p) {
      SegmentsInOrder(counts, offsets, p, |counts|);
    }
  }

  lemma EverythingFilled(unique: seq<Candidate>, rank: u16, split: Split, cursor: seq<nat>)
    requires Layout(split.sendCount, split.sendOffset)
    requires Counted(unique, |unique|, rank, split.local, split.sendCount)
    requires AllFilled(unique, |unique|, rank, split.sendCount, split.sendOffset, split.remote, cursor)
    requires |split.sendCount| <= U32_MAX
    ensures Scattered(unique, rank, |split.sendCount|, split)
  {
    assert unique[..|unique|] == unique;
    var counts, offsets := split.sendCount, split.sendOffset;
    forall p | 0 <= p < |counts| ensures Segment(split, p, Outgoing(unique, rank, p)) {
      assert Filled(unique, |unique|, rank, counts, offsets, split.remote, cursor, p);
      SegmentsInOrder(counts, offsets, p, |counts|);
      assert offsets[p + 1] == offsets[p] + counts[p];
    }
  }

  lemma {:induction false} OwnedByCounts(s: seq<Candidate>, p: int, c: Candidate)
    ensures multiset(OwnedBy(s, p))[c] == if UnpackOwner(c.route) == p then multiset(s)[c] else 0
  {
    if s != [] {
      OwnedByCounts(s[..|s| - 1], p, c);
      assert s == s[..|s| - 1] + [s[|s| - 1]];
    }
  }

  lemma PrefixCount(remote: seq<Candidate>, a: nat, b: nat, c: Candidate)
    requires a <= b <= |remote|
    ensures multiset(remote[..b])[c] == multiset(remote[..a])[c] + multiset(remote[a..b])[c]
  {
    assert remote[..b] == remote[..a] + remote[a..b];
  }

  lemma {:induction false} SegmentsCount(unique: seq<Candidate>, rank: u16, world: u32, split: Split, p: nat,
                                         c: Candidate)
    requires Scattered(unique, rank, world, split) && p <= world
    ensures split.sendOffset[p] <= |split.remote|
    ensures multiset(split.remote[..split.sendOffset[p]])[c]
         == if UnpackOwner(c.route) < p && UnpackOwner(c.route) != rank then multiset(unique)[c] else 0
  {
    if p > 0 {
      SegmentsCount(unique, rank, world, split, p - 1, c);
      OwnedByCounts(unique, p - 1, c);
      assert Segment(split, p - 1, Outgoing(unique, rank, p - 1));
      PrefixCount(split.remote, split.sendOffset[p - 1], split.sendOffset[p], c);
    }
  }

  /** Nothing is lost, invented or duplicated by the scatter. */
  lemma ScatterIsPermutation(unique: seq<Candidate>, rank: u16, world: u32, split: Split)
    requires Scattered(unique, rank, world, split)
    requires forall k :: 0 <= k < |unique| ==> UnpackOwner(unique[k].route) < world
    ensures multiset(split.local + split.remote) == multiset(unique)
  {
    forall c ensures multiset(split.local + split.remote)[c] == multiset(unique)[c] {
      OwnedByCounts(unique, rank, c);
      SegmentsCount(unique, rank, world, split, world, c);
      assert split.remote[..split.sendOffset[world]] == split.remote;
      if multiset(unique)[c] > 0 {
        var k :| 0 <= k < |unique| && unique[k] == c;
      }
    }
  }

  /** Every peer receives exactly the entries it owns, in increasing hash order. */
  lemma PeerReceivesItsBank(unique: seq<Candidate>, rank: u16, world: u32, split: Split, p: nat)
    requires IsBank(unique) && Scattered(unique, rank, world, split) && p < world && p != rank
    ensures split.sendOffset[p] <= split.sendOffset[p + 1] <= |split.remote|
    ensures var segment := split.remote[split.sendOffset[p]..split.sendOffset[p + 1]];
            && IsBank(segment) && |segment| == split.sendCount[p]
            && forall c :: c in segment <==> c in unique && UnpackOwner(c.route) == p
  {
    assert Segment(split, p, Outgoing(unique, rank, p));
    OwnedByElements(unique, p);
    OwnedByBank(unique, p);
  }

  lemma {:induction false} OwnedByBank(s: seq<Candidate>, p: int)
    requires IsBank(s)
    ensures IsBank(OwnedBy(s, p))
  {
    if s != [] {
      var front := s[..|s| - 1];
      OwnedByBank(front, p);
      OwnedByElements(front, p);
      forall k | 0 <= k < |OwnedBy(front, p)| ensures HashLess(OwnedBy(front, p)[k].hash, s[|s| - 1].hash) {
        assert OwnedBy(front, p)[k] in front;
      }
    }
  }

  // ---- what a split keeps of its input ----

  ghost function Metas(key: Hash128 -> nat, world: u32, rank: u16, input: seq<Input>): set<Candidate>
    requires 0 < world <= 256
  {
    set x | x in input :: Meta(key, world, rank, x)
  }

  /** The segment of the send buffer addressed to `dst`; the local entries never travel. */
  function Addressed(split: Split, dst: nat): seq<Candidate> {
    if dst + 1 < |split.sendOffset| && split.sendOffset[dst] <= split.sendOffset[dst + 1] <= |split.remote|
    then split.remote[split.sendOffset[dst]..split.sendOffset[dst + 1]] else []
  }

  /** What owner `dst` ends up with from this split. */
  function Delivered(split: Split, rank: u16, dst: nat): seq<Candidate> {
    if dst == rank then split.local else Addressed(split, dst)
  }

  /** No input of the same hash has a smaller (score, parent, move). */
  ghost predicate Foremost(input: seq<Input>, x: Input) {
    && x in input
    && forall y :: y in input && y.hash == x.hash ==>
         x.score < y.score
         || (x.score == y.score && (x.parent < y.parent || (x.parent == y.parent && x.move <= y.move)))
  }

  /** Up to a score, the foremost input of each hash also has the smallest payload id among inputs of its
      hash and score. */
  ghost predicate PayloadAgreesUpTo(input: seq<Input>, t: u32) {
    forall x, y :: Foremost(input, x) && x.score <= t && y in input && y.hash == x.hash && y.score == x.score
                && (y.parent != x.parent || y.move != x.move)
                ==> x.payload < y.payload
  }

  /** Payload ids and (parent, move) pairs both identify the inputs of a batch. */
  ghost predicate Identified(input: seq<Input>) {
    forall x, y :: x in input && y in input ==>
      (x.payload == y.payload || (x.parent == y.parent && x.move == y.move) ==> x == y)
  }

  lemma DeliveredIsOwned(key: Hash128 -> nat, world: u32, rank: u16, input: seq<Input>, t: u32, split: Split,
                         dst: nat, c: Candidate)
    requires 0 < world <= 256 && rank < world && SplitOut(key, world, rank, input, t, split)
    requires c in Delivered(split, rank, dst)
    ensures c in Metas(key, world, rank, input) && c.score <= t && Owner(key, world, c.hash) == dst
  {
    var x := DeliveredLeads(key, world, rank, input, t, split, dst, c);
  }

  lemma NothingAddressedToSelf(key: Hash128 -> nat, world: u32, rank: u16, input: seq<Input>, t: u32, split: Split)
    requires 0 < world <= 256 && rank < world && SplitOut(key, world, rank, input, t, split)
    ensures Addressed(split, rank) == []
  {
    var unique: seq<Candidate> :| Deduplicated(key, world, rank, input, t, unique)
      && Scattered(unique, rank, world, split);
    assert Segment(split, rank, Outgoing(unique, rank, rank));
  }

  lemma UniqueIsDelivered(unique: seq<Candidate>, rank: u16, world: u32, split: Split, c: Candidate)
    requires Scattered(unique, rank, world, split) && c in unique && UnpackOwner(c.route) < world
    ensures c in Delivered(split, rank, UnpackOwner(c.route))
  {
    var o := UnpackOwner(c.route);
    OwnedByElements(unique, o);
    assert Segment(split, o, Outgoing(unique, rank, o));
  }

  /** Every surviving input is delivered to its owner as a candidate of equal hash and no larger score;
      the best candidate of a hash is delivered as itself when payload ids agree with (parent, move). */
  lemma SurvivorIsDelivered(key: Hash128 -> nat, world: u32, rank: u16, input: seq<Input>, t: u32, split: Split,
                            c: Candidate) returns (d: Candidate)
    requires 0 < world <= 256 && rank < world && SplitOut(key, world, rank, input, t, split)
    requires c in Metas(key, world, rank, input) && c.score <= t
    ensures d in Metas(key, world, rank, input) && d.score <= t
    ensures d in Delivered(split, rank, Owner(key, world, c.hash)) && d.hash == c.hash && d.score <= c.score
    ensures PayloadAgreesUpTo(input, t) && c in Best(Metas(key, world, rank, input)) ==> d == c
  {
    var unique: seq<Candidate> :| Deduplicated(key, world, rank, input, t, unique)
      && Scattered(unique, rank, world, split);
    var x :| x in input && c == Meta(key, world, rank, x);
    assert HasHash(unique, x.hash);
    var k :| 0 <= k < |unique| && unique[k].hash == x.hash;
    d := unique[k];
    RepresentedOwner(key, world, rank, input, t, d);
    UniqueIsDelivered(unique, rank, world, split, d);
    var y :| Leads(input, t, y) && d == Meta(key, world, rank, y);
    assert NotAfter(y, x);
    if PayloadAgreesUpTo(input, t) && c in Best(Metas(key, world, rank, input)) {
      BestIsForemost(key, world, rank, input, x);
    }
  }

  /** Inside one rank, the order of candidates of a hash is the order of (score, parent, move). */
  lemma BestIsForemost(key: Hash128 -> nat, world: u32, rank: u16, input: seq<Input>, x: Input)
    requires 0 < world <= 256 && x in input
    ensures Meta(key, world, rank, x) in Best(Metas(key, world, rank, input)) <==> Foremost(input, x)
  {
    var M := Metas(key, world, rank, input);
    forall y | y in input && y.hash == x.hash
      ensures !Better(Meta(key, world, rank, y), Meta(key, world, rank, x)) <==>
              x.score < y.score
              || (x.score == y.score && (x.parent < y.parent || (x.parent == y.parent && x.move <= y.move)))
    {
      var o := Owner(key, world, x.hash);
      assert PackRoute(rank, o, y.move) - PackRoute(rank, o, x.move) == y.move - x.move;
    }
    forall y | y in input ensures Meta(key, world, rank, y) in M {
    }
  }

  /** A split delivers every best candidate under its threshold exactly when payload ids agree with
      (parent, move) up to that threshold. */
  lemma ExactExactlyWhenPayloadAgrees(key: Hash128 -> nat, world: u32, rank: u16, input: seq<Input>, t: u32,
                                      split: Split)
    requires 0 < world <= 256 && rank < world && Identified(input)
    requires SplitOut(key, world, rank, input, t, split)
    ensures PayloadAgreesUpTo(input, t) <==>
            forall c :: c in Best(Metas(key, world, rank, input)) && c.score <= t ==>
              c in Delivered(split, rank, Owner(key, world, c.hash))
  {
    var M := Metas(key, world, rank, input);
    if PayloadAgreesUpTo(input, t) {
      forall c | c in Best(M) && c.score <= t ensures c in Delivered(split, rank, Owner(key, world, c.hash)) {
        var d := SurvivorIsDelivered(key, world, rank, input, t, split, c);
      }
    } else {
      var x, y :| Foremost(input, x) && x.score <= t && y in input && y.hash == x.hash && y.score == x.score
               && (y.parent != x.parent || y.move != x.move) && y.payload <= x.payload;
      BestIsForemost(key, world, rank, input, x);
      LostToSmallerPayload(key, world, rank, input, t, split, x, y);
      assert Meta(key, world, rank, x) in M;
    }
  }

  lemma LostToSmallerPayload(key: Hash128 -> nat, world: u32, rank: u16, input: seq<Input>, t: u32, split: Split,
                             x: Input, y: Input)
    requires 0 < world <= 256 && rank < world && Identified(input)
    requires SplitOut(key, world, rank, input, t, split) && x.score <= t
    requires x in input && y in input && x != y && y.hash == x.hash && y.score == x.score && y.payload <= x.payload
    ensures Meta(key, world, rank, x) !in Delivered(split, rank, Owner(key, world, x.hash))
  {
    var c, owner := Meta(key, world, rank, x), Owner(key, world, x.hash);
    if c in Delivered(split, rank, owner) {
      var z := DeliveredLeads(key, world, rank, input, t, split, owner, c);
      SameMeta(key, world, rank, x, z);
    }
  }

  /** Two moves with one hash and score, the later parent having the smaller payload: the better one is lost. */
  lemma SmallerPayloadLosesTheBest(key: Hash128 -> nat, h: Hash128, split: Split)
    requires SplitOut(key, 1, 0, [Input(h, 5, 1, 0, 0), Input(h, 5, 0, 1, 0)], 5, split)
    ensures var input, best := [Input(h, 5, 1, 0, 0), Input(h, 5, 0, 1, 0)], Meta(key, 1, 0, Input(h, 5, 1, 0, 0));
            && Identified(input) && !PayloadAgreesUpTo(input, 5)
            && best in Best(Metas(key, 1, 0, input)) && best !in Delivered(split, 0, 0)
  {
    var x, y := Input(h, 5, 1, 0, 0), Input(h, 5, 0, 1, 0);
    TiedBatch(x, y);
    BestIsForemost(key, 1, 0, [x, y], x);
    LostToSmallerPayload(key, 1, 0, [x, y], 5, split, x, y);
  }

  lemma TiedBatch(x: Input, y: Input)
    requires x.hash == y.hash && x.score == y.score && x.parent < y.parent && y.payload < x.payload
    ensures x in [x, y] && y in [x, y] && Identified([x, y]) && Foremost([x, y], x)
    ensures !PayloadAgreesUpTo([x, y], x.score)
  {
    var input := [x, y];
    assert x == input[0] && y == input[1];
    assert Foremost(input, x);
  }

  lemma SameMeta(key: Hash128 -> nat, world: u32, rank: u16, x: Input, z: Input)
    requires 0 < world <= 256 && Meta(key, world, rank, x) == Meta(key, world, rank, z)
    ensures x.hash == z.hash && x.parent == z.parent && x.score == z.score && x.move == z.move
  {
    RouteRoundTrip(rank, Owner(key, world, x.hash), x.move, 0);
    RouteRoundTrip(rank, Owner(key, world, z.hash), z.move, 0);
  }

  // ---- a split in numbers ----

  /** `c` is an input `x` under the threshold with its route as a number, sent to the rank its key selects, and
      no other survivor of its hash comes before it in (score, payload). */
  ghost predicate Sent(key: Hash128 -> nat, world: u32, rank: u16, input: seq<Input>, t: u32, p: nat, c: Candidate)
    requires 0 < world
  {
    exists x :: x in input && SentAs(key, world, rank, t, p, x, c)
      && forall y :: y in input && y.score <= t && y.hash == x.hash ==>
           x.score < y.score || (x.score == y.score && x.payload <= y.payload)
  }

  ghost predicate SentAs(key: Hash128 -> nat, world: u32, rank: u16, t: u32, p: nat, x: Input, c: Candidate)
    requires 0 < world
  {
    && x.score <= t && key(x.hash) % world == p
    && c.hash == x.hash && c.parent == x.parent && c.score == x.score
    && c.route == rank * 65536 + p * 256 + x.move
  }

  /** What each peer gets: hashes increase as numbers, every entry is such an input, no hash is missing. */
  ghost predicate PeerInNumbers(key: Hash128 -> nat, world: u32, rank: u16, input: seq<Input>, t: u32, p: nat,
                                out: seq<Candidate>)
    requires 0 < world
  {
    && IncreasingNumbers(out)
    && (forall c :: c in out ==> Sent(key, world, rank, input, t, p, c))
    && (set x | x in input && x.score <= t && key(x.hash) % world == p :: x.hash) == (set c | c in out :: c.hash)
  }

  /** The whole split without `IsBank`, `Leads` and the packings: the local list, then one segment of the send
      buffer after another. */
  ghost predicate SplitInNumbers(key: Hash128 -> nat, world: u32, rank: u16, input: seq<Input>, t: u32, split: Split)
    requires 0 < world && rank < world
  {
    && |split.sendCount| == world && |split.sendOffset| == world + 1
    && split.sendOffset[0] == 0 && split.sendOffset[world] == |split.remote|
    && split.sendCount[rank] == 0 && PeerInNumbers(key, world, rank, input, t, rank, split.local)
    && forall p :: 0 <= p < world ==>
         && split.sendOffset[p + 1] as int == split.sendOffset[p] as int + split.sendCount[p] as int <= |split.remote|
         && (p != rank ==>
               PeerInNumbers(key, world, rank, input, t, p, split.remote[split.sendOffset[p]..split.sendOffset[p + 1]]))
  }

  lemma SplitIsNumeric(key: Hash128 -> nat, world: u32, rank: u16, input: seq<Input>, t: u32, split: Split)
    requires 0 < world <= 256 && rank < world && SplitOut(key, world, rank, input, t, split)
    ensures SplitInNumbers(key, world, rank, input, t, split)
  {
    var unique: seq<Candidate> :|
      Deduplicated(key, world, rank, input, t, unique) && Scattered(unique, rank, world, split);
    assert Segment(split, rank, Outgoing(unique, rank, rank));
    OwnedIsNumeric(key, world, rank, input, t, unique, rank);
    forall p | 0 <= p < world
      ensures split.sendOffset[p + 1] as int == split.sendOffset[p] as int + split.sendCount[p] as int <= |split.remote|
      ensures p != rank ==>
                PeerInNumbers(key, world, rank, input, t, p, split.remote[split.sendOffset[p]..split.sendOffset[p + 1]])
    {
      assert Segment(split, p, Outgoing(unique, rank, p));
      OwnedIsNumeric(key, world, rank, input, t, unique, p);
    }
  }

  lemma OwnedIsNumeric(key: Hash128 -> nat, world: u32, rank: u16, input: seq<Input>, t: u32, unique: seq<Candidate>,
                       p: nat)
    requires 0 < world <= 256 && p < world && Deduplicated(key, world, rank, input, t, unique)
    ensures PeerInNumbers(key, world, rank, input, t, p, OwnedBy(unique, p))
  {
    var out := OwnedBy(unique, p);
    OwnedByBank(unique, p);
    BankIsNumeric(out);
    OwnedByElements(unique, p);
    forall c | c in out ensures Sent(key, world, rank, input, t, p, c) {
      RepresentedIsSent(key, world, rank, input, t, p, c);
    }
    forall x | x in input && x.score <= t && key(x.hash) % world == p ensures x.hash in set c | c in out :: c.hash {
      var k :| 0 <= k < |unique| && unique[k].hash == x.hash;
      RepresentedOwner(key, world, rank, input, t, unique[k]);
      assert unique[k] in out;
    }
    forall c | c in out
      ensures c.hash in set x | x in input && x.score <= t && key(x.hash) % world == p :: x.hash
    {
      assert Sent(key, world, rank, input, t, p, c);
    }
  }

  lemma RepresentedIsSent(key: Hash128 -> nat, world: u32, rank: u16, input: seq<Input>, t: u32, p: nat, c: Candidate)
    requires 0 < world <= 256 && Represents(key, world, rank, input, t, c) && UnpackOwner(c.route) == p
    ensures Sent(key, world, rank, input, t, p, c)
  {
    var x :| Leads(input, t, x) && c == Meta(key, world, rank, x);
    MetaIsNumeric(key, world, rank, t, x);
    forall y | y in input && y.score <= t && y.hash == x.hash
      ensures x.score < y.score || (x.score == y.score && x.payload <= y.payload)
    {
      assert NotAfter(x, y);
    }
  }

  lemma MetaIsNumeric(key: Hash128 -> nat, world: u32, rank: u16, t: u32, x: Input)
    requires 0 < world <= 256 && x.score <= t
    ensures SentAs(key, world, rank, t, key(x.hash) % world, x, Meta(key, world, rank, x))
    ensures UnpackOwner(Meta(key, world, rank, x).route) == key(x.hash) % world
  {
    var owner := Owner(key, world, x.hash);
    PackedNumber(rank, owner, x.move);
    assert owner == key(x.hash) % world;
  }

  lemma PackedNumber(rank: u16, owner: u8, move: u8)
    ensures PackRoute(rank, owner, move) == rank * 65536 + owner * 256 + move
    ensures UnpackOwner(PackRoute(rank, owner, move)) == owner
  {
    RouteIsNumeric(rank, owner, move, 0);
    RouteRoundTrip(rank, owner, move, 0);
  }

  lemma DeliveredIsUnique(unique: seq<Candidate>, rank: u16, world: u32, split: Split, dst: nat, c: Candidate)
    requires Scattered(unique, rank, world, split) && c in Delivered(split, rank, dst)
    ensures c in unique && UnpackOwner(c.route) == dst
  {
    if dst < world {
      assert Segment(split, dst, Outgoing(unique, rank, dst));
    }
    OwnedByElements(unique, dst);
  }

  lemma DeliveredLeads(key: Hash128 -> nat, world: u32, rank: u16, input: seq<Input>, t: u32, split: Split,
                       dst: nat, c: Candidate) returns (x: Input)
    requires 0 < world <= 256 && rank < world && SplitOut(key, world, rank, input, t, split)
    requires c in Delivered(split, rank, dst)
    ensures Leads(input, t, x) && c == Meta(key, world, rank, x) && Owner(key, world, c.hash) == dst
  {
    var unique: seq<Candidate> :| Deduplicated(key, world, rank, input, t, unique)
      && Scattered(unique, rank, world, split);
    DeliveredIsUnique(unique, rank, world, split, dst, c);
    var k :| 0 <= k < |unique| && unique[k] == c;
    RepresentedOwner(key, world, rank, input, t, unique[k]);
    x :| Leads(input, t, x) && c == Meta(key, world, rank, x);
  }
}
