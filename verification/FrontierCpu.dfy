/** One whole depth on the host: expand, deduplicate, keep the top B, materialise
    (src/frontier_cpu.cpp, src/state.cpp). Hash and score are arbitrary functions. */
module FrontierCpu {
  import opened Candidates
  import opened Frontier
  import opened Sets
  import Sorting
  import Stream4

  type Cells = seq<u8>

  datatype Puzzle = Puzzle(stateLen: nat, storageLen: nat, generators: seq<seq<nat>>, central: Cells,
                           hash: Cells -> Hash128, score: (u64, u8) -> u32)
  {
    /** The build's static assertions, and generators that index inside a state. */
    ghost predicate Valid() {
      && stateLen <= storageLen && 0 < |generators| <= 255
      && (forall g :: 0 <= g < |generators| ==> |generators[g]| == storageLen)
      && (forall g, p :: 0 <= g < |generators| && 0 <= p < storageLen ==> generators[g][p] < storageLen)
    }

    ghost predicate Fits(s: Cells) {
      |s| == storageLen
    }

    function ApplyMove(parent: Cells, move: nat): (child: Cells)
      requires Valid() && Fits(parent) && move < |generators|
      ensures Fits(child)
    {
      seq(storageLen, (p: nat) requires p < storageLen => parent[generators[move][p]])
    }

    function ClearPadding(s: Cells): (cleared: Cells)
      requires Valid() && Fits(s)
      ensures Fits(cleared)
    {
      s[..stateLen] + seq(storageLen - stateLen, _ => 0)
    }

    /** The logical cells are permuted and the padding is zero. */
    function Child(parent: Cells, move: nat): (child: Cells)
      requires Valid() && Fits(parent) && move < |generators|
      ensures Fits(child)
      ensures forall p :: 0 <= p < stateLen ==> child[p] == parent[generators[move][p]]
      ensures forall p :: stateLen <= p < storageLen ==> child[p] == 0
    {
      ClearPadding(ApplyMove(parent, move))
    }

    /** A generator that keeps logical cells logical, as the loader demands. */
    ghost predicate MovesLogicalCells(move: nat)
      requires Valid() && move < |generators|
    {
      forall p :: 0 <= p < stateLen ==> generators[move][p] < stateLen
    }

    ghost predicate PaddingIsZero(s: Cells)
      requires Fits(s)
    {
      forall p :: stateLen <= p < storageLen ==> s[p] == 0
    }

    function Meta(frontier: seq<Cells>, parent: nat, move: nat): Candidate
      requires Valid() && AllFit(frontier) && parent < |frontier| <= U64_MAX && move < |generators|
    {
      Candidate(hash(Child(frontier[parent], move)), parent, score(parent, move), PackRoute(0, 0, move))
    }

    ghost predicate AllFit(frontier: seq<Cells>) {
      forall i :: 0 <= i < |frontier| ==> Fits(frontier[i])
    }
  }

  /** A move followed by its inverse gives the state back, padding included. */
  lemma MoveIsUndone(pz: Puzzle, s: Cells, move: nat, inverse: nat)
    requires pz.Valid() && pz.Fits(s) && move < |pz.generators| && inverse < |pz.generators|
    requires pz.PaddingIsZero(s) && pz.MovesLogicalCells(inverse)
    requires forall p :: 0 <= p < pz.stateLen ==> pz.generators[move][pz.generators[inverse][p]] == p
    ensures pz.Child(pz.Child(s, move), inverse) == s
  {
    var child := pz.Child(s, move);
    var back := pz.Child(child, inverse);
    forall p | 0 <= p < pz.storageLen ensures back[p] == s[p] {
      if p < pz.stateLen {
        assert back[p] == child[pz.generators[inverse][p]];
      }
    }
  }

  /** The padding of a state never reaches a logical cell: children of states that agree on theirs are equal. */
  lemma ChildIgnoresPadding(pz: Puzzle, s: Cells, t: Cells, move: nat)
    requires pz.Valid() && pz.Fits(s) && pz.Fits(t) && move < |pz.generators| && pz.MovesLogicalCells(move)
    requires s[..pz.stateLen] == t[..pz.stateLen]
    ensures pz.Child(s, move) == pz.Child(t, move)
  {
    forall p | 0 <= p < pz.stateLen ensures s[pz.generators[move][p]] == t[pz.generators[move][p]] {
      assert s[..pz.stateLen][pz.generators[move][p]] == s[pz.generators[move][p]];
      assert t[..pz.stateLen][pz.generators[move][p]] == t[pz.generators[move][p]];
    }
  }

  /** Move `m` of parent `p` comes before move `moves` of parent `parents` in loop order. */
  predicate Earlier(p: nat, m: nat, parents: nat, moves: nat) {
    p < parents || (p == parents && m < moves)
  }

  ghost function GeneratedUpTo(pz: Puzzle, frontier: seq<Cells>, threshold: u32, parents: nat,
                               moves: nat): set<Candidate>
    requires pz.Valid() && pz.AllFit(frontier) && |frontier| <= U64_MAX
  {
    set p: nat, m: nat | p < |frontier| && m < |pz.generators| && Earlier(p, m, parents, moves)
                      && pz.score(p, m) <= threshold :: pz.Meta(frontier, p, m)
  }

  /** Everything the depth generates at or below the threshold. */
  ghost function Generated(pz: Puzzle, frontier: seq<Cells>, threshold: u32): set<Candidate>
    requires pz.Valid() && pz.AllFit(frontier) && |frontier| <= U64_MAX
  {
    GeneratedUpTo(pz, frontier, threshold, |frontier|, 0)
  }

  lemma GenerateOne(pz: Puzzle, frontier: seq<Cells>, threshold: u32, p: nat, m: nat)
    requires pz.Valid() && pz.AllFit(frontier) && p < |frontier| <= U64_MAX && m < |pz.generators|
    ensures GeneratedUpTo(pz, frontier, threshold, p, m + 1)
         == GeneratedUpTo(pz, frontier, threshold, p, m)
          + (if pz.score(p, m) <= threshold then {pz.Meta(frontier, p, m)} else {})
    ensures Solves(pz, frontier, p, m + 1) <==> Solves(pz, frontier, p, m) || pz.Child(frontier[p], m) == pz.central
  {
    var next := m + 1;
    assert forall q: nat, n: nat :: Earlier(q, n, p, next) <==> Earlier(q, n, p, m) || (q == p && n == m);
    if pz.Child(frontier[p], m) == pz.central {
      assert Earlier(p, m, p, next);
    }
  }

  lemma NextParent(pz: Puzzle, frontier: seq<Cells>, threshold: u32, p: nat)
    requires pz.Valid() && pz.AllFit(frontier) && p < |frontier| <= U64_MAX
    ensures GeneratedUpTo(pz, frontier, threshold, p, |pz.generators|)
            == GeneratedUpTo(pz, frontier, threshold, p + 1, 0)
    ensures Solves(pz, frontier, p, |pz.generators|) <==> Solves(pz, frontier, p + 1, 0)
  {
    var next := p + 1;
    assert forall q: nat, n: nat :: n < |pz.generators| ==>
      (Earlier(q, n, p, |pz.generators|) <==> Earlier(q, n, next, 0));
  }

  /** Next frontier and survivors of one depth fit together: survivor `i` produced state `i`. */
  ghost predicate Materialised(pz: Puzzle, frontier: seq<Cells>, survivors: seq<Candidate>, next: seq<Cells>)
    requires pz.Valid() && pz.AllFit(frontier)
  {
    && |next| == |survivors|
    && forall i :: 0 <= i < |survivors| ==>
         && survivors[i].parent < |frontier| && UnpackMove(survivors[i].route) < |pz.generators|
         && next[i] == pz.Child(frontier[survivors[i].parent], UnpackMove(survivors[i].route))
  }

  /** Some generated child, kept or not, is the goal. */
  ghost predicate Solves(pz: Puzzle, frontier: seq<Cells>, parents: nat, moves: nat)
    requires pz.Valid() && pz.AllFit(frontier)
  {
    exists p, m :: 0 <= p < |frontier| && 0 <= m < |pz.generators| && Earlier(p, m, parents, moves)
                && pz.Child(frontier[p], m) == pz.central
  }

  lemma LocalRoute(move: u8)
    ensures PackRoute(0, 0, move) == move && UnpackMove(move) == move
  {
  }

  lemma GeneratedOrigin(pz: Puzzle, frontier: seq<Cells>, threshold: u32, c: Candidate) returns (p: nat, m: nat)
    requires pz.Valid() && pz.AllFit(frontier) && |frontier| <= U64_MAX && c in Generated(pz, frontier, threshold)
    ensures p < |frontier| && m < |pz.generators| && c == pz.Meta(frontier, p, m)
    ensures c.parent == p && c.route == m && UnpackMove(c.route) == m && pz.score(p, m) <= threshold
  {
    assert c in GeneratedUpTo(pz, frontier, threshold, |frontier|, 0);
    p, m :| p < |frontier| && m < |pz.generators| && pz.score(p, m) <= threshold && c == pz.Meta(frontier, p, m);
    MetaRoute(pz, frontier, p, m);
  }

  lemma MetaRoute(pz: Puzzle, frontier: seq<Cells>, p: nat, m: nat)
    requires pz.Valid() && pz.AllFit(frontier) && p < |frontier| <= U64_MAX && m < |pz.generators|
    ensures pz.Meta(frontier, p, m).parent == p && pz.Meta(frontier, p, m).route == m && UnpackMove(m) == m
  {
    LocalRoute(m);
  }

  /** Every move of every state at or below the threshold is generated. */
  lemma IsGenerated(pz: Puzzle, frontier: seq<Cells>, threshold: u32, p: nat, m: nat)
    requires pz.Valid() && pz.AllFit(frontier) && p < |frontier| <= U64_MAX && m < |pz.generators|
    requires pz.score(p, m) <= threshold
    ensures pz.Meta(frontier, p, m) in Generated(pz, frontier, threshold)
  {
    assert Earlier(p, m, |frontier|, 0);
  }

  lemma GeneratedIsRanked(pz: Puzzle, frontier: seq<Cells>, threshold: u32)
    requires pz.Valid() && pz.AllFit(frontier) && |frontier| <= U64_MAX
    ensures Ranked(Generated(pz, frontier, threshold))
  {
    forall c, d | c in Generated(pz, frontier, threshold) && d in Generated(pz, frontier, threshold) && c != d
      ensures Better(c, d) || Better(d, c)
    {
      var p, m := GeneratedOrigin(pz, frontier, threshold, c);
      var q, n := GeneratedOrigin(pz, frontier, threshold, d);
    }
  }

  lemma RankedSort(bank: seq<Candidate>, sorted: seq<Candidate>)
    requires IsBank(bank) && Ranked(Elems(bank)) && multiset(sorted) == multiset(bank)
    requires Sorting.SortedBy(sorted, Better)
    ensures RankedSequence(sorted)
  {
    Sorting.SameElements(sorted, bank);
    forall i, j | 0 <= i < j < |sorted| ensures Better(sorted[i], sorted[j]) {
      TwiceInMultiset(sorted, i, j);
      BankHasNoRepeats(bank, sorted[i]);
      assert sorted[i] in Elems(bank) && sorted[j] in Elems(bank);
      assert !Better(sorted[j], sorted[i]);
    }
  }

  lemma TwiceInMultiset(s: seq<Candidate>, i: nat, j: nat)
    requires i < j < |s|
    ensures s[i] == s[j] ==> multiset(s)[s[i]] >= 2
  {
    assert s == s[..i] + [s[i]] + s[i + 1..j] + [s[j]] + s[j + 1..];
  }

  lemma {:induction false} BankHasNoRepeats(bank: seq<Candidate>, c: Candidate)
    requires IsBank(bank)
    ensures multiset(bank)[c] <= 1
  {
    if bank != [] {
      var front, last := bank[..|bank| - 1], bank[|bank| - 1];
      BankHasNoRepeats(front, c);
      assert bank == front + [last];
      forall k | 0 <= k < |front| ensures front[k] != last {
        assert HashLess(bank[k].hash, bank[|bank| - 1].hash);
      }
    }
  }

  /** Deduplicate, order by quality, truncate to the beam. */
  method SelectSurvivors(candidates: seq<Candidate>, threshold: u32, beam: u64) returns (survivors: seq<Candidate>)
    requires Ranked(Elems(candidates))
    ensures IsTopFrontier(AtMost(Elems(candidates), threshold), beam, survivors)
    ensures TopInNumbers((set c | c in candidates && c.score <= threshold), beam, survivors)
  {
    var bank := Stream4.ThresholdSortDedup(candidates, threshold);
    survivors := Sorting.Sort(bank, Better);
    BestIsUnique(AtMost(Elems(candidates), threshold));
    RankedSort(bank, survivors);
    Sorting.SameElements(survivors, bank);
    assert Elems(survivors) == Elems(bank);
    TruncationIsTopB(Elems(bank), survivors, beam);
    if |survivors| > beam {
      survivors := survivors[..beam];
    }
    TopFrontierIsNumeric(AtMost(Elems(candidates), threshold), beam, survivors);
    assert AtMost(Elems(candidates), threshold) == set c | c in candidates && c.score <= threshold;
  }

  method ExpandDepth(pz: Puzzle, frontier: seq<Cells>, threshold: u32, beam: u64)
    returns (next: seq<Cells>, survivors: seq<Candidate>, solved: bool)
    requires pz.Valid() && pz.AllFit(frontier) && |frontier| <= U64_MAX
    ensures IsTopFrontier(Generated(pz, frontier, threshold), beam, survivors)
    ensures TopInNumbers(Generated(pz, frontier, threshold), beam, survivors)
    ensures Materialised(pz, frontier, survivors, next)
    ensures forall i :: 0 <= i < |survivors| ==>
              var p, m := survivors[i].parent, survivors[i].route;
              && p < |frontier| && m < |pz.generators| && next[i] == pz.Child(frontier[p], m)
              && survivors[i].hash == pz.hash(next[i]) && survivors[i].score == pz.score(p, m) <= threshold
    ensures solved <==> exists p, m ::
              0 <= p < |frontier| && 0 <= m < |pz.generators| && pz.Child(frontier[p], m) == pz.central
  {
    var candidates: seq<Candidate> := [];
    solved := false;
    for parent := 0 to |frontier|
      invariant Elems(candidates) == GeneratedUpTo(pz, frontier, threshold, parent, 0)
      invariant solved <==> Solves(pz, frontier, parent, 0)
    {
      for move := 0 to |pz.generators|
        invariant Elems(candidates) == GeneratedUpTo(pz, frontier, threshold, parent, move)
        invariant solved <==> Solves(pz, frontier, parent, move)
      {
        GenerateOne(pz, frontier, threshold, parent, move);
        if pz.Child(frontier[parent], move) == pz.central {
          solved := true;
        }
        if pz.score(parent, move) <= threshold {
          ElemsSnoc(candidates, pz.Meta(frontier, parent, move));
          candidates := candidates + [pz.Meta(frontier, parent, move)];
        }
      }
      NextParent(pz, frontier, threshold, parent);
    }
    GeneratedIsRanked(pz, frontier, threshold);
    survivors := SelectSurvivors(candidates, threshold, beam);
    SurvivorsAreGenerated(pz, frontier, threshold, beam, survivors);
    TopFrontierIsNumeric(Generated(pz, frontier, threshold), beam, survivors);
    next := [];
    for i := 0 to |survivors|
      invariant |next| == i && forall k :: 0 <= k < i ==>
                  next[k] == pz.Child(frontier[survivors[k].parent], UnpackMove(survivors[k].route))
    {
      next := next + [pz.Child(frontier[survivors[i].parent], UnpackMove(survivors[i].route))];
    }
  }

  lemma SurvivorsAreGenerated(pz: Puzzle, frontier: seq<Cells>, threshold: u32, beam: u64, survivors: seq<Candidate>)
    requires pz.Valid() && pz.AllFit(frontier) && |frontier| <= U64_MAX
    requires IsTopFrontier(AtMost(Generated(pz, frontier, threshold), threshold), beam, survivors)
    ensures IsTopFrontier(Generated(pz, frontier, threshold), beam, survivors)
    ensures forall k :: 0 <= k < |survivors| ==>
              && survivors[k].parent < |frontier| && survivors[k].route < |pz.generators|
              && UnpackMove(survivors[k].route) == survivors[k].route
              && survivors[k] == pz.Meta(frontier, survivors[k].parent, survivors[k].route)
              && survivors[k].score <= threshold
  {
    var G := Generated(pz, frontier, threshold);
    assert AtMost(G, threshold) == G;
    forall k | 0 <= k < |survivors|
      ensures survivors[k].parent < |frontier| && survivors[k].route < |pz.generators|
      ensures UnpackMove(survivors[k].route) == survivors[k].route
      ensures survivors[k] == pz.Meta(frontier, survivors[k].parent, survivors[k].route)
      ensures survivors[k].score <= threshold
    {
      assert survivors[k] in Elems(survivors);
      var p, m := GeneratedOrigin(pz, frontier, threshold, survivors[k]);
    }
  }
}
