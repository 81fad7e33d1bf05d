/** One exchange over all ranks: Stream3 on every source, Stream4 on every owner. */
module Distributed {
  import opened Candidates
  import opened Frontier
  import opened Sets
  import Stream3
  import Stream4

  /** Every rank's split of its own input, all at threshold `t3`. */
  ghost predicate AllSplit(key: Hash128 -> nat, world: u32, inputs: seq<seq<Stream3.Input>>, t3: u32,
                           splits: seq<Stream3.Split>)
    requires 0 < world <= 256
  {
    && |inputs| == |splits| == world
    && forall r :: 0 <= r < world ==> Stream3.SplitOut(key, world, r, inputs[r], t3, splits[r])
  }

  function Concat<T>(parts: seq<seq<T>>): seq<T> {
    if parts == [] then [] else Concat(parts[..|parts| - 1]) + parts[|parts| - 1]
  }

  lemma {:induction false} ConcatElements<T>(parts: seq<seq<T>>, c: T)
    ensures c in Concat(parts) <==> exists r :: 0 <= r < |parts| && c in parts[r]
  {
    if parts != [] {
      ConcatElements(parts[..|parts| - 1], c);
    }
  }

  /** What owner `dst` receives from every rank, its own share included. */
  function Received(splits: seq<Stream3.Split>, dst: nat): seq<Candidate>
    requires |splits| <= 256
  {
    Concat(seq(|splits|, (r: nat) requires r < |splits| => Stream3.Delivered(splits[r], r, dst)))
  }

  /** Everything the first `n` ranks generate. */
  ghost function Everything(key: Hash128 -> nat, world: u32, inputs: seq<seq<Stream3.Input>>, n: nat): set<Candidate>
    requires 0 < world <= 256 && n <= |inputs| <= 256
  {
    if n == 0 then {} else Everything(key, world, inputs, n - 1) + Stream3.Metas(key, world, n - 1, inputs[n - 1])
  }

  /** Owners' outputs at Stream4 threshold `t`. */
  ghost predicate AllMerged(splits: seq<Stream3.Split>, t: u32, outs: seq<seq<Candidate>>) {
    && |outs| == |splits| <= 256
    && forall dst :: 0 <= dst < |outs| ==> Stream4.Stream4Out(Received(splits, dst), t, outs[dst])
  }

  ghost function Together(outs: seq<seq<Candidate>>): set<Candidate> {
    set dst, c | 0 <= dst < |outs| && c in outs[dst] :: c
  }

  lemma ReceivedFrom(splits: seq<Stream3.Split>, dst: nat, c: Candidate)
    requires |splits| <= 256
    ensures c in Received(splits, dst) <==> exists r :: 0 <= r < |splits| && c in Stream3.Delivered(splits[r], r, dst)
  {
    var parts := seq(|splits|, (r: nat) requires r < |splits| => Stream3.Delivered(splits[r], r, dst));
    ConcatElements(parts, c);
    assert forall r :: 0 <= r < |splits| ==> parts[r] == Stream3.Delivered(splits[r], r, dst);
  }

  lemma {:induction false} GeneratedBy(key: Hash128 -> nat, world: u32, inputs: seq<seq<Stream3.Input>>, n: nat,
                                       c: Candidate)
    requires 0 < world <= 256 && n <= |inputs| <= 256
    ensures c in Everything(key, world, inputs, n) <==>
            exists r :: 0 <= r < n && c in Stream3.Metas(key, world, r, inputs[r])
  {
    if n > 0 {
      GeneratedBy(key, world, inputs, n - 1, c);
    }
  }

  lemma OutputIsGenerated(key: Hash128 -> nat, world: u32, inputs: seq<seq<Stream3.Input>>, t3: u32, t: u32,
                          splits: seq<Stream3.Split>, outs: seq<seq<Candidate>>, dst: nat, c: Candidate)
    requires 0 < world <= 256 && AllSplit(key, world, inputs, t3, splits) && AllMerged(splits, t, outs)
    requires dst < world && c in outs[dst]
    ensures c in Everything(key, world, inputs, world) && c.score <= t && Stream3.Owner(key, world, c.hash) == dst
  {
    assert c in Elems(outs[dst]);
    ReceivedFrom(splits, dst, c);
    var r :| 0 <= r < world && c in Stream3.Delivered(splits[r], r, dst);
    Stream3.DeliveredIsOwned(key, world, r, inputs[r], t3, splits[r], dst, c);
    GeneratedBy(key, world, inputs, world, c);
  }

  /** Different owners never output the same hash. */
  lemma OutputsAreHashDisjoint(key: Hash128 -> nat, world: u32, inputs: seq<seq<Stream3.Input>>, t3: u32, t: u32,
                               splits: seq<Stream3.Split>, outs: seq<seq<Candidate>>, i: nat, j: nat,
                               c: Candidate, d: Candidate)
    requires 0 < world <= 256 && AllSplit(key, world, inputs, t3, splits) && AllMerged(splits, t, outs)
    requires i < world && j < world && i != j && c in outs[i] && d in outs[j]
    ensures c.hash != d.hash
  {
    OutputIsGenerated(key, world, inputs, t3, t, splits, outs, i, c);
    OutputIsGenerated(key, world, inputs, t3, t, splits, outs, j, d);
  }

  /** Any generated candidate under the split threshold reaches its owner as one that is no worse in score. */
  lemma ReachesOwner(key: Hash128 -> nat, world: u32, inputs: seq<seq<Stream3.Input>>, t3: u32,
                     splits: seq<Stream3.Split>, c: Candidate) returns (d: Candidate)
    requires 0 < world <= 256 && AllSplit(key, world, inputs, t3, splits)
    requires c in Everything(key, world, inputs, world) && c.score <= t3
    ensures d in Received(splits, Stream3.Owner(key, world, c.hash)) && d.hash == c.hash && d.score <= c.score
  {
    var dst := Stream3.Owner(key, world, c.hash);
    GeneratedBy(key, world, inputs, world, c);
    var r :| 0 <= r < world && c in Stream3.Metas(key, world, r, inputs[r]);
    d := Stream3.SurvivorIsDelivered(key, world, r, inputs[r], t3, splits[r], c);
    assert d in Stream3.Delivered(splits[r], r, dst);
    ReceivedFrom(splits, dst, d);
  }

  /** Any generated candidate under the thresholds is matched by an output of its owner that is no worse in score. */
  lemma OwnerOutputs(key: Hash128 -> nat, world: u32, inputs: seq<seq<Stream3.Input>>, t3: u32, t: u32,
                     splits: seq<Stream3.Split>, outs: seq<seq<Candidate>>, c: Candidate) returns (e: Candidate)
    requires 0 < world <= 256 && t <= t3 && AllSplit(key, world, inputs, t3, splits) && AllMerged(splits, t, outs)
    requires c in AtMost(Everything(key, world, inputs, world), t)
    ensures e in outs[Stream3.Owner(key, world, c.hash)] && e.hash == c.hash && e.score <= c.score
  {
    var dst := Stream3.Owner(key, world, c.hash);
    var d := ReachesOwner(key, world, inputs, t3, splits, c);
    assert d in Elems(Received(splits, dst));
    e := BestCovers(AtMost(Elems(Received(splits, dst)), t), d);
    assert e in Elems(outs[dst]);
  }

  /** A globally best candidate reaches its owner itself when payload ids agree with (parent, move). */
  lemma BestReachesOwner(key: Hash128 -> nat, world: u32, inputs: seq<seq<Stream3.Input>>, t3: u32, t: u32,
                         splits: seq<Stream3.Split>, c: Candidate)
    requires 0 < world <= 256 && t <= t3 && AllSplit(key, world, inputs, t3, splits)
    requires forall r :: 0 <= r < world ==> Stream3.PayloadAgreesUpTo(inputs[r], t3)
    requires c in Best(AtMost(Everything(key, world, inputs, world), t))
    ensures c in Received(splits, Stream3.Owner(key, world, c.hash))
  {
    GeneratedBy(key, world, inputs, world, c);
    var r :| 0 <= r < world && c in Stream3.Metas(key, world, r, inputs[r]);
    RankBest(key, world, inputs, t, r, c);
    var d := Stream3.SurvivorIsDelivered(key, world, r, inputs[r], t3, splits[r], c);
    ReceivedFrom(splits, Stream3.Owner(key, world, c.hash), c);
  }

  /** It then appears in its owner's output. */
  lemma OwnerOutputsBest(key: Hash128 -> nat, world: u32, inputs: seq<seq<Stream3.Input>>, t3: u32, t: u32,
                         splits: seq<Stream3.Split>, outs: seq<seq<Candidate>>, c: Candidate)
    requires 0 < world <= 256 && t <= t3 && AllSplit(key, world, inputs, t3, splits) && AllMerged(splits, t, outs)
    requires forall r :: 0 <= r < world ==> Stream3.PayloadAgreesUpTo(inputs[r], t3)
    requires c in Best(AtMost(Everything(key, world, inputs, world), t))
    ensures c in outs[Stream3.Owner(key, world, c.hash)]
  {
    var dst := Stream3.Owner(key, world, c.hash);
    BestReachesOwner(key, world, inputs, t3, t, splits, c);
    var e := BestCovers(AtMost(Elems(Received(splits, dst)), t), c);
    assert e in Elems(outs[dst]);
    OutputIsGenerated(key, world, inputs, t3, t, splits, outs, dst, e);
    assert e in AtMost(Everything(key, world, inputs, world), t);
  }

  lemma RankBest(key: Hash128 -> nat, world: u32, inputs: seq<seq<Stream3.Input>>, t: u32, r: nat, c: Candidate)
    requires 0 < world <= 256 && |inputs| == world && r < world
    requires c in Best(AtMost(Everything(key, world, inputs, world), t)) && c in Stream3.Metas(key, world, r, inputs[r])
    ensures c in Best(Stream3.Metas(key, world, r, inputs[r]))
  {
    forall d | d in Stream3.Metas(key, world, r, inputs[r]) && d.hash == c.hash ensures !Better(d, c) {
      GeneratedBy(key, world, inputs, world, d);
    }
  }

  /** Splitting, routing by owner and merging per owner equals one global Stream4 over every rank's candidates. */
  lemma DistributedIsGlobal(key: Hash128 -> nat, world: u32, inputs: seq<seq<Stream3.Input>>, t3: u32, t: u32,
                            splits: seq<Stream3.Split>, outs: seq<seq<Candidate>>, all: seq<Candidate>,
                            global: seq<Candidate>)
    requires 0 < world <= 256 && t <= t3 && AllSplit(key, world, inputs, t3, splits) && AllMerged(splits, t, outs)
    requires forall r :: 0 <= r < world ==> Stream3.PayloadAgreesUpTo(inputs[r], t3)
    requires Elems(all) == Everything(key, world, inputs, world) && Stream4.Stream4Out(all, t, global)
    ensures Together(outs) == Elems(global)
  {
    var G := Everything(key, world, inputs, world);
    forall c | c in Elems(global) ensures c in Together(outs) {
      OwnerOutputsBest(key, world, inputs, t3, t, splits, outs, c);
    }
    forall c | c in Together(outs) ensures c in Elems(global) {
      var dst :| 0 <= dst < |outs| && c in outs[dst];
      OutputIsGenerated(key, world, inputs, t3, t, splits, outs, dst, c);
      var b := BestCovers(AtMost(G, t), c);
      OwnerOutputsBest(key, world, inputs, t3, t, splits, outs, b);
      BestIsUnique(AtMost(Elems(Received(splits, dst)), t));
      assert c in Elems(outs[dst]) && b in Elems(outs[dst]);
    }
  }

  /** Whatever the payload ids, both sides hold the same hashes with the same scores. */
  lemma DistributedScoresAreGlobal(key: Hash128 -> nat, world: u32, inputs: seq<seq<Stream3.Input>>, t3: u32, t: u32,
                                   splits: seq<Stream3.Split>, outs: seq<seq<Candidate>>, all: seq<Candidate>,
                                   global: seq<Candidate>, h: Hash128, score: u32)
    requires 0 < world <= 256 && t <= t3 && AllSplit(key, world, inputs, t3, splits) && AllMerged(splits, t, outs)
    requires Elems(all) == Everything(key, world, inputs, world) && Stream4.Stream4Out(all, t, global)
    ensures (exists c :: c in Together(outs) && c.hash == h && c.score == score)
       <==> (exists c :: c in Elems(global) && c.hash == h && c.score == score)
  {
    var G := Everything(key, world, inputs, world);
    if c :| c in Elems(global) && c.hash == h && c.score == score {
      var e := OwnerOutputs(key, world, inputs, t3, t, splits, outs, c);
      OutputIsGenerated(key, world, inputs, t3, t, splits, outs, Stream3.Owner(key, world, c.hash), e);
      assert e in Together(outs);
    }
    if c :| c in Together(outs) && c.hash == h && c.score == score {
      var dst :| 0 <= dst < |outs| && c in outs[dst];
      OutputIsGenerated(key, world, inputs, t3, t, splits, outs, dst, c);
      var b := BestCovers(AtMost(G, t), c);
      var e := OwnerOutputs(key, world, inputs, t3, t, splits, outs, b);
      BestIsUnique(AtMost(Elems(Received(splits, dst)), t));
      assert c in Elems(outs[dst]) && e in Elems(outs[dst]);
      assert b in Elems(global);
    }
  }
}
