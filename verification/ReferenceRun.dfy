/** The whole-depth reference over several depths, and as the meaning of a pruned run on one rank. */
module ReferenceRun {
  import opened Candidates
  import opened Frontier
  import opened FrontierCpu
  import opened HistoryPath
  import opened Pruning
  import opened Sets
  import Stream3

  lemma FrontierFitsBeam(pz: Puzzle, frontier: seq<Cells>, threshold: u32, beam: u64, survivors: seq<Candidate>)
    requires pz.Valid() && pz.AllFit(frontier) && |frontier| <= U64_MAX
    requires IsTopFrontier(Generated(pz, frontier, threshold), beam, survivors)
    ensures |survivors| <= beam
  {
    var G := Generated(pz, frontier, threshold);
    FrontierCpu.GeneratedIsRanked(pz, frontier, threshold);
    BestIsUnique(G);
    TopBSize(Best(G), beam);
    RankedSize(survivors);
  }

  /** One reference depth after another, each kept in the history: every stored depth is the top of what its
      frontier generates, and the stored depths are a search from the initial frontier. */
  method Search(pz: Puzzle, initial: seq<Cells>, thresholds: seq<u32>, beam: u64, store: CpuHistoryStore)
    returns (frontiers: seq<seq<Cells>>)
    requires pz.Valid() && pz.AllFit(initial) && |initial| <= U64_MAX && store.depths == []
    modifies store
    ensures |store.depths| == |thresholds| && |frontiers| == |thresholds| + 1 && frontiers[0] == initial
    ensures Searched(pz, frontiers, store.depths)
    ensures forall k :: 0 <= k < |thresholds| ==> TopOfDepth(pz, frontiers[k], thresholds[k], beam, store.depths[k])
  {
    frontiers := [initial];
    for k := 0 to |thresholds|
      invariant |store.depths| == k && |frontiers| == k + 1 && frontiers[0] == initial && |frontiers[k]| <= U64_MAX
      invariant Searched(pz, frontiers, store.depths)
      invariant forall j :: 0 <= j < k ==> TopOfDepth(pz, frontiers[j], thresholds[j], beam, store.depths[j])
    {
      var next, survivors, solved := ExpandDepth(pz, frontiers[k], thresholds[k], beam);
      FrontierFitsBeam(pz, frontiers[k], thresholds[k], beam, survivors);
      store.AppendDepth(survivors);
      frontiers := frontiers + [next];
    }
  }

  ghost predicate TopOfDepth(pz: Puzzle, frontier: seq<Cells>, threshold: u32, beam: u64, survivors: seq<Candidate>)
    requires pz.Valid()
  {
    && pz.AllFit(frontier) && |frontier| <= U64_MAX
    && IsTopFrontier(Generated(pz, frontier, threshold), beam, survivors)
  }

  // ---- one rank ----

  /** The single rank of the run expands this frontier of this puzzle. */
  ghost predicate Expands(cfg: Config, pz: Puzzle, frontier: seq<Cells>)
    requires pz.Valid() && pz.AllFit(frontier) && |frontier| <= U64_MAX
  {
    && cfg.world == 1
    && forall p: nat, m: nat :: p < |frontier| && m < |pz.generators| ==>
         cfg.hash(0, p, m) == pz.hash(pz.Child(frontier[p], m)) && cfg.score(0, p, m) == pz.score(p, m)
  }

  ghost predicate Expanded(actions: seq<Action>, p: int, m: int) {
    exists i, x :: 0 <= i < |actions| && actions[i].Batch? && x in actions[i].input && x.parent == p && x.move == m
  }

  /** The batches hold exactly the moves of the frontier's states. */
  ghost predicate BatchesAreTheDepth(actions: seq<Action>, parents: nat, moves: nat) {
    && (forall i, x :: 0 <= i < |actions| && actions[i].Batch? && x in actions[i].input ==>
         x.parent < parents && x.move < moves)
    && forall p, m :: 0 <= p < parents && 0 <= m < moves ==> Expanded(actions, p, m)
  }

  ghost predicate FromBatch(cfg: Config, actions: seq<Action>, n: nat, c: Candidate)
    requires cfg.Valid() && n <= |actions|
  {
    exists i :: 0 <= i < n && actions[i].Batch? && c in Metas(cfg, actions[i].source, actions[i].input)
  }

  lemma {:induction false} GeneratedFromBatches(cfg: Config, states: seq<State>, actions: seq<Action>, n: nat,
                                                c: Candidate)
    requires cfg.Valid() && Run(cfg, states, actions) && n <= |actions|
    ensures c in states[n].generated <==> FromBatch(cfg, actions, n, c)
  {
    if n > 0 {
      GeneratedFromBatches(cfg, states, actions, n - 1, c);
      var k := n - 1;
      assert Next(cfg, states[k], states[k + 1], actions[k]);
    }
  }

  lemma BatchIsGenerated(cfg: Config, pz: Puzzle, frontier: seq<Cells>, x: Stream3.Input)
    requires cfg.Valid() && pz.Valid() && pz.AllFit(frontier) && |frontier| <= U64_MAX && Expands(cfg, pz, frontier)
    requires x.parent < |frontier| && x.move < |pz.generators|
    requires x.hash == cfg.hash(0, x.parent, x.move) && x.score == cfg.score(0, x.parent, x.move)
    ensures Stream3.Meta(cfg.ownerKey, cfg.world, 0, x) == pz.Meta(frontier, x.parent, x.move)
  {
  }

  lemma GenuineBatch(cfg: Config, states: seq<State>, actions: seq<Action>, i: nat)
    requires cfg.Valid() && cfg.world == 1 && Run(cfg, states, actions) && i < |actions| && actions[i].Batch?
    ensures actions[i].source == 0 && Genuine(cfg, 0, actions[i].input)
  {
    assert Next(cfg, states[i], states[i + 1], actions[i]);
  }

  /** What such a run generates is what the reference generates. */
  lemma RunGeneratesDepth(cfg: Config, pz: Puzzle, frontier: seq<Cells>, states: seq<State>, actions: seq<Action>)
    requires cfg.Valid() && pz.Valid() && pz.AllFit(frontier) && |frontier| <= U64_MAX && Expands(cfg, pz, frontier)
    requires Run(cfg, states, actions) && BatchesAreTheDepth(actions, |frontier|, |pz.generators|)
    ensures states[|actions|].generated == Generated(pz, frontier, U32_MAX)
  {
    forall c ensures c in states[|actions|].generated <==> c in Generated(pz, frontier, U32_MAX) {
      GeneratedFromBatches(cfg, states, actions, |actions|, c);
      if FromBatch(cfg, actions, |actions|, c) {
        var i :| 0 <= i < |actions| && actions[i].Batch? && c in Metas(cfg, actions[i].source, actions[i].input);
        GenuineBatch(cfg, states, actions, i);
        var x :| x in actions[i].input && c == Stream3.Meta(cfg.ownerKey, cfg.world, 0, x);
        BatchIsGenerated(cfg, pz, frontier, x);
        IsGenerated(pz, frontier, U32_MAX, x.parent, x.move);
      }
      if c in Generated(pz, frontier, U32_MAX) {
        var p, m := GeneratedOrigin(pz, frontier, U32_MAX, c);
        assert Expanded(actions, p, m);
        var i, x :| 0 <= i < |actions| && actions[i].Batch? && x in actions[i].input && x.parent == p && x.move == m;
        GenuineBatch(cfg, states, actions, i);
        BatchIsGenerated(cfg, pz, frontier, x);
        assert c in Metas(cfg, actions[i].source, actions[i].input);
      }
    }
  }

  /** A pruned run on one rank ends with the survivors `ExpandDepth` selects without a threshold, or, when
      payload ids do not agree, with as many candidates of the same scores. */
  lemma PrunedRunIsReference(cfg: Config, pz: Puzzle, frontier: seq<Cells>, states: seq<State>, actions: seq<Action>,
                             collected: set<Candidate>, pruned: seq<Candidate>, survivors: seq<Candidate>)
    requires cfg.Valid() && pz.Valid() && pz.AllFit(frontier) && |frontier| <= U64_MAX && Expands(cfg, pz, frontier)
    requires Run(cfg, states, actions) && BatchesAreTheDepth(actions, |frontier|, |pz.generators|)
    requires Collected(states[|actions|], collected) && IsTopFrontier(collected, cfg.beam, pruned)
    requires IsTopFrontier(Generated(pz, frontier, U32_MAX), cfg.beam, survivors)
    ensures AllAgree(actions) ==> pruned == survivors
    ensures |pruned| == |survivors| && forall i :: 0 <= i < |pruned| ==> pruned[i].score == survivors[i].score
  {
    RunGeneratesDepth(cfg, pz, frontier, states, actions);
    PrunedFrontierScoresAreExact(cfg, states, actions, collected, pruned, survivors);
    if AllAgree(actions) {
      PrunedFrontierIsExact(cfg, states, actions, collected, pruned, survivors);
    }
  }
}
