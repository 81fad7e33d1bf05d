/** The distributed, online-pruned pipeline of one depth, as a state machine over its atomic steps.
    Any number of ranks generate batches, exchange candidates, merge shards and lower the threshold,
    in any order and with thresholds and histograms of any age. */
module Pruning {
  import opened Candidates
  import opened Frontier
  import opened Histogram
  import opened Sets
  import Stream3
  import Stream4

  /** The run's constants. Hash and score are arbitrary functions of (rank, parent, move);
      the owner and shard keys are arbitrary functions of the hash. */
  datatype Config = Config(
    world: u32, shards: u32, beam: u64,
    ownerKey: Hash128 -> nat, shardKey: Hash128 -> nat,
    hash: (u16, u64, u8) -> Hash128, score: (u16, u64, u8) -> u32)
  {
    ghost predicate Valid() {
      0 < world <= 256 && 0 < shards
    }

    function Owner(h: Hash128): nat
      requires Valid()
    {
      Stream3.Owner(ownerKey, world, h)
    }

    /** `shard_from_hash128`. */
    function Shard(h: Hash128): nat
      requires Valid()
    {
      shardKey(h) % shards
    }
  }

  /** Where candidates wait: between two ranks, at their owner, or in one of a shard's two physical banks. */
  datatype Place = Wire(src: nat, dst: nat) | Inbox(rank: nat) | Bank(rank: nat, shard: nat, second: bool)

  datatype State = State(
    generated: set<Candidate>,
    held: Place -> seq<Candidate>,
    published: (nat, nat, bool) -> set<seq<int>>,
    thresholds: set<u32>)

  datatype Action =
    | Batch(source: u16, input: seq<Stream3.Input>, t: u32, split: Stream3.Split)
    | Deliver(src: nat, dst: nat)
    | Merge(rank: nat, shard: nat, second: bool, taken: seq<Candidate>, rest: seq<Candidate>, t: u32)
    | Union(rank: nat, shard: nat)
    | Publish(rank: nat, shard: nat, second: bool, histogram: seq<int>)
    | Update(domains: seq<seq<seq<int>>>, locals: seq<seq<int>>, global: seq<int>, t: u32)

  ghost predicate Init(cfg: Config, st: State)
    requires cfg.Valid()
  {
    && st.generated == {}
    && (forall p :: st.held(p) == [])
    && (forall r, s, b :: st.published(r, s, b) == {seq(SCORE_BIN_COUNT, _ => 0)})
    && st.thresholds == {U32_MAX}
  }

  /** What rank `rank` really generates: hash and score come from the parent and the move. */
  ghost predicate Genuine(cfg: Config, rank: u16, input: seq<Stream3.Input>) {
    forall x :: x in input ==>
      x.hash == cfg.hash(rank, x.parent, x.move) && x.score == cfg.score(rank, x.parent, x.move)
  }

  ghost function Metas(cfg: Config, rank: u16, input: seq<Stream3.Input>): set<Candidate>
    requires cfg.Valid()
  {
    Stream3.Metas(cfg.ownerKey, cfg.world, rank, input)
  }

  ghost predicate BatchStep(cfg: Config, st: State, st': State, a: Action)
    requires cfg.Valid() && a.Batch?
  {
    && a.source < cfg.world && a.t in st.thresholds && Genuine(cfg, a.source, a.input)
    && Stream3.SplitOut(cfg.ownerKey, cfg.world, a.source, a.input, a.t, a.split)
    && st'.generated == st.generated + Metas(cfg, a.source, a.input)
    && (forall p :: st'.held(p) == st.held(p) +
          match p {
            case Inbox(r) => if r == a.source then a.split.local else []
            case Wire(src, dst) => if src == a.source then Stream3.Addressed(a.split, dst) else []
            case Bank(_, _, _) => []
          })
    && st'.published == st.published && st'.thresholds == st.thresholds
  }

  ghost predicate DeliverStep(cfg: Config, st: State, st': State, a: Action)
    requires cfg.Valid() && a.Deliver?
  {
    && st'.generated == st.generated
    && (forall p :: st'.held(p) ==
          if p == Inbox(a.dst) then st.held(p) + st.held(Wire(a.src, a.dst))
          else if p == Wire(a.src, a.dst) then [] else st.held(p))
    && st'.published == st.published && st'.thresholds == st.thresholds
  }

  /** Any part of the inbox that belongs to one shard is merged into one of its banks. */
  ghost predicate MergeStep(cfg: Config, st: State, st': State, a: Action)
    requires cfg.Valid() && a.Merge?
  {
    var bank := Bank(a.rank, a.shard, a.second);
    && a.t in st.thresholds
    && Elems(st.held(Inbox(a.rank))) == Elems(a.taken) + Elems(a.rest)
    && (forall c :: c in a.taken ==> cfg.Shard(c.hash) == a.shard)
    && st'.generated == st.generated
    && Stream4.Stream4Out(st.held(bank) + a.taken, a.t, st'.held(bank))
    && (forall p :: p != bank ==> st'.held(p) == if p == Inbox(a.rank) then a.rest else st.held(p))
    && st'.published == st.published && st'.thresholds == st.thresholds
  }

  /** The logical union of a shard's two physical banks. */
  ghost predicate UnionStep(cfg: Config, st: State, st': State, a: Action)
    requires cfg.Valid() && a.Union?
  {
    var x, y := Bank(a.rank, a.shard, false), Bank(a.rank, a.shard, true);
    && st'.generated == st.generated
    && Stream4.UnionOut(st.held(x), st.held(y), st'.held(x)) && st'.held(y) == []
    && (forall p :: p != x && p != y ==> st'.held(p) == st.held(p))
    && st'.published == st.published && st'.thresholds == st.thresholds
  }

  /** A bank's histogram is published. Updates may use it from then on, however far the bank moves on. */
  ghost predicate PublishStep(cfg: Config, st: State, st': State, a: Action)
    requires cfg.Valid() && a.Publish?
  {
    && st'.generated == st.generated && st'.held == st.held && st'.thresholds == st.thresholds
    && Counts(Elems(st.held(Bank(a.rank, a.shard, a.second))), a.histogram)
    && st'.published(a.rank, a.shard, a.second) == st.published(a.rank, a.shard, a.second) + {a.histogram}
    && (forall r: nat, s: nat, b :: (r, s, b) != (a.rank, a.shard, a.second) ==>
         st'.published(r, s, b) == st.published(r, s, b))
  }

  /** A conservative union of some published histogram of each of the shard's two banks. */
  ghost predicate DomainHistogram(st: State, r: nat, s: nat, h: seq<int>) {
    exists x, y :: x in st.published(r, s, false) && y in st.published(r, s, true) && IsConservative(x, y, h)
  }

  /** Conservative histogram per shard, summed over shards, then over ranks; the threshold it selects is issued. */
  ghost predicate UpdateStep(cfg: Config, st: State, st': State, a: Action)
    requires cfg.Valid() && a.Update?
  {
    && |a.domains| == |a.locals| == cfg.world
    && (forall r :: 0 <= r < cfg.world ==>
          && |a.domains[r]| == cfg.shards && IsTotal(a.domains[r], a.locals[r])
          && forall s :: 0 <= s < cfg.shards ==> DomainHistogram(st, r, s, a.domains[r][s]))
    && |a.global| == SCORE_BIN_COUNT && IsTotal(a.locals, a.global)
    && Selects(a.global, cfg.beam, a.t)
    && st'.thresholds == st.thresholds + {a.t}
    && st'.generated == st.generated && st'.held == st.held && st'.published == st.published
  }

  ghost predicate Next(cfg: Config, st: State, st': State, a: Action)
    requires cfg.Valid()
  {
    match a
    case Batch(_, _, _, _) => BatchStep(cfg, st, st', a)
    case Deliver(_, _) => DeliverStep(cfg, st, st', a)
    case Merge(_, _, _, _, _, _) => MergeStep(cfg, st, st', a)
    case Union(_, _) => UnionStep(cfg, st, st', a)
    case Publish(_, _, _, _) => PublishStep(cfg, st, st', a)
    case Update(_, _, _, _) => UpdateStep(cfg, st, st', a)
  }

  ghost predicate Run(cfg: Config, states: seq<State>, actions: seq<Action>)
    requires cfg.Valid()
  {
    && |states| == |actions| + 1
    && Init(cfg, states[0])
    && forall i :: 0 <= i < |actions| ==> Next(cfg, states[i], states[i + 1], actions[i])
  }

  // ---- what every step keeps ----

  /** A place only holds candidates addressed to it. */
  ghost predicate Belongs(cfg: Config, p: Place, c: Candidate)
    requires cfg.Valid()
  {
    match p
    case Wire(src, dst) => cfg.Owner(c.hash) == dst
    case Inbox(r) => cfg.Owner(c.hash) == r
    case Bank(r, s, _) => cfg.Owner(c.hash) == r && cfg.Shard(c.hash) == s
  }

  ghost function DomainOf(cfg: Config, S: set<Candidate>, r: nat, s: nat): set<Candidate>
    requires cfg.Valid()
  {
    set c | c in S && cfg.Owner(c.hash) == r && cfg.Shard(c.hash) == s
  }

  ghost predicate IsGenuine(cfg: Config, c: Candidate) {
    var rank, move := UnpackSourceRank(c.route), UnpackMove(c.route);
    c.hash == cfg.hash(rank, c.parent, move) && c.score == cfg.score(rank, c.parent, move)
  }

  ghost predicate Inv(cfg: Config, st: State)
    requires cfg.Valid()
  {
    && (forall p, c :: c in st.held(p) ==> c in st.generated && Belongs(cfg, p, c))
    && (forall r, s, b :: IsBank(st.held(Bank(r, s, b))))
    && (forall r, s, b, h :: h in st.published(r, s, b) ==> LowerBound(h, DomainOf(cfg, st.generated, r, s)))
    && (forall c :: c in st.generated ==> IsGenuine(cfg, c))
    && U32_MAX in st.thresholds
    && (forall t :: t in st.thresholds ==> Safe(st.generated, cfg.beam, t))
  }

  ghost predicate UnderAll(st: State, c: Candidate) {
    forall t :: t in st.thresholds ==> c.score <= t
  }

  ghost predicate IsHeld(st: State, c: Candidate) {
    exists p :: c in st.held(p)
  }

  /** Some held candidate of the same hash is as good. */
  ghost predicate Covered(st: State, d: Candidate) {
    exists e :: IsHeld(st, e) && e.hash == d.hash && (e == d || Better(e, d))
  }

  ghost predicate CoveredScore(st: State, d: Candidate) {
    exists e :: IsHeld(st, e) && e.hash == d.hash && e.score <= d.score
  }

  /** Every best candidate under all issued thresholds is still held somewhere. */
  ghost predicate RetainsBest(st: State) {
    forall c :: c in Best(st.generated) && UnderAll(st, c) ==> IsHeld(st, c)
  }

  /** The weaker form that needs no payload agreement: its hash is held with the same score. */
  ghost predicate RetainsScores(st: State) {
    forall c :: c in Best(st.generated) && UnderAll(st, c) ==> CoveredScore(st, c)
  }

  lemma InitInv(cfg: Config, st: State)
    requires cfg.Valid() && Init(cfg, st)
    ensures Inv(cfg, st) && RetainsBest(st) && RetainsScores(st)
  {
    var zero := seq(SCORE_BIN_COUNT, _ => 0);
    assert Counts({}, zero) by {
      assert forall i :: WithScore({}, i) == {};
    }
    UniqueBankIsLowerBound({}, zero);
    assert forall r, s :: DomainOf(cfg, st.generated, r, s) == {};
  }

  lemma GrowthKeeps(cfg: Config, st: State, st': State)
    requires cfg.Valid() && Inv(cfg, st) && st.generated <= st'.generated
    ensures forall r, s, b, h :: h in st.published(r, s, b) ==> LowerBound(h, DomainOf(cfg, st'.generated, r, s))
    ensures forall t :: t in st.thresholds ==> Safe(st'.generated, cfg.beam, t)
  {
    forall r, s, b, h | h in st.published(r, s, b) ensures LowerBound(h, DomainOf(cfg, st'.generated, r, s)) {
      LowerBoundGrows(h, DomainOf(cfg, st.generated, r, s), DomainOf(cfg, st'.generated, r, s));
    }
    forall t | t in st.thresholds ensures Safe(st'.generated, cfg.beam, t) {
      HashesMonotone(st.generated, st'.generated, t);
    }
  }

  lemma BatchInv(cfg: Config, st: State, st': State, a: Action)
    requires cfg.Valid() && Inv(cfg, st) && a.Batch? && BatchStep(cfg, st, st', a)
    ensures Inv(cfg, st')
  {
    GrowthKeeps(cfg, st, st');
    BatchIsGenuine(cfg, a.source, a.input);
    forall p, c | c in st'.held(p) ensures c in st'.generated && Belongs(cfg, p, c) {
      BatchPlaces(cfg, st, st', a, p, c);
    }
    forall r, s, b ensures IsBank(st'.held(Bank(r, s, b))) {
      assert st'.held(Bank(r, s, b)) == st.held(Bank(r, s, b));
    }
  }

  lemma BatchPlaces(cfg: Config, st: State, st': State, a: Action, p: Place, c: Candidate)
    requires cfg.Valid() && Inv(cfg, st) && a.Batch? && BatchStep(cfg, st, st', a) && c in st'.held(p)
    ensures c in st'.generated && Belongs(cfg, p, c)
  {
    if c !in st.held(p) {
      var dst := match p case Inbox(r) => r case Wire(_, d) => d case Bank(r, _, _) => r;
      BatchSends(cfg, a, dst, c);
    }
  }

  lemma BatchIsGenuine(cfg: Config, rank: u16, input: seq<Stream3.Input>)
    requires cfg.Valid() && Genuine(cfg, rank, input)
    ensures forall c :: c in Metas(cfg, rank, input) ==> IsGenuine(cfg, c)
  {
    forall x | x in input ensures IsGenuine(cfg, Stream3.Meta(cfg.ownerKey, cfg.world, rank, x)) {
      RouteRoundTrip(rank, Stream3.Owner(cfg.ownerKey, cfg.world, x.hash), x.move, 0);
    }
  }

  lemma BatchSends(cfg: Config, a: Action, dst: nat, c: Candidate)
    requires cfg.Valid() && a.Batch? && a.source < cfg.world
    requires Stream3.SplitOut(cfg.ownerKey, cfg.world, a.source, a.input, a.t, a.split)
    requires (dst == a.source && c in a.split.local) || c in Stream3.Addressed(a.split, dst)
    ensures c in Metas(cfg, a.source, a.input) && cfg.Owner(c.hash) == dst
  {
    if dst == a.source {
      Stream3.NothingAddressedToSelf(cfg.ownerKey, cfg.world, a.source, a.input, a.t, a.split);
    }
    Stream3.DeliveredIsOwned(cfg.ownerKey, cfg.world, a.source, a.input, a.t, a.split, dst, c);
  }

  lemma MergeInv(cfg: Config, st: State, st': State, a: Action)
    requires cfg.Valid() && Inv(cfg, st) && a.Merge? && MergeStep(cfg, st, st', a)
    ensures Inv(cfg, st')
  {
    var bank, inbox := Bank(a.rank, a.shard, a.second), Inbox(a.rank);
    assert forall c :: c in Elems(st.held(inbox)) <==> c in st.held(inbox);
    forall p, c | c in st'.held(p) ensures c in st'.generated && Belongs(cfg, p, c) {
      if p == bank {
        assert c in Elems(st'.held(bank));
        assert c in st.held(bank) || c in a.taken;
        assert c in a.taken ==> c in Elems(st.held(inbox));
      } else if p == inbox {
        assert c in Elems(st.held(inbox));
      }
    }
  }

  lemma UnionInv(cfg: Config, st: State, st': State, a: Action)
    requires cfg.Valid() && Inv(cfg, st) && a.Union? && UnionStep(cfg, st, st', a)
    ensures Inv(cfg, st')
  {
    var x, y := Bank(a.rank, a.shard, false), Bank(a.rank, a.shard, true);
    forall p, c | c in st'.held(p) ensures c in st'.generated && Belongs(cfg, p, c) {
      if p == x {
        assert c in Elems(st'.held(x));
        assert c in Elems(st.held(x)) + Elems(st.held(y));
      }
    }
  }

  lemma PublishInv(cfg: Config, st: State, st': State, a: Action)
    requires cfg.Valid() && Inv(cfg, st) && a.Publish? && PublishStep(cfg, st, st', a)
    ensures Inv(cfg, st')
  {
    var bank := Bank(a.rank, a.shard, a.second);
    var S := Elems(st.held(bank));
    assert UniqueHashes(S) by {
      BankIsUnique(st.held(bank));
    }
    UniqueBankIsLowerBound(S, a.histogram);
    assert S <= DomainOf(cfg, st.generated, a.rank, a.shard) by {
      forall c | c in S ensures c in DomainOf(cfg, st.generated, a.rank, a.shard) {
        assert c in st.held(bank) && Belongs(cfg, bank, c);
      }
    }
    LowerBoundGrows(a.histogram, S, DomainOf(cfg, st.generated, a.rank, a.shard));
  }

  lemma BankIsUnique(s: seq<Candidate>)
    requires IsBank(s)
    ensures UniqueHashes(Elems(s))
  {
    forall c, d | c in s && d in s && c.hash == d.hash ensures c == d {
      var i :| 0 <= i < |s| && s[i] == c;
      var j :| 0 <= j < |s| && s[j] == d;
    }
  }

  /** The all-reduced conservative histogram never counts more hashes than have been generated. */
  lemma GlobalIsLowerBound(cfg: Config, st: State, st': State, a: Action)
    requires cfg.Valid() && Inv(cfg, st) && a.Update? && UpdateStep(cfg, st, st', a)
    ensures LowerBound(a.global, st.generated)
  {
    var owner := (h: Hash128) => cfg.Owner(h);
    var shard := (h: Hash128) => cfg.Shard(h);
    forall r | 0 <= r < |a.locals| ensures LowerBound(a.locals[r], InDomain(st.generated, owner, r)) {
      var G := InDomain(st.generated, owner, r);
      forall s | 0 <= s < |a.domains[r]| ensures LowerBound(a.domains[r][s], InDomain(G, shard, s)) {
        assert InDomain(G, shard, s) == DomainOf(cfg, st.generated, r, s);
        assert DomainHistogram(st, r, s, a.domains[r][s]);
        var x, y :| x in st.published(r, s, false) && y in st.published(r, s, true)
                && IsConservative(x, y, a.domains[r][s]);
        ConservativeIsLowerBound(x, y, a.domains[r][s], DomainOf(cfg, st.generated, r, s));
      }
      assert |a.locals[r]| == |a.global|;
      TotalIsLowerBound(a.domains[r], a.locals[r], G, shard);
      LowerBoundGrows(a.locals[r], BelowDomain(G, shard, |a.domains[r]|), G);
    }
    TotalIsLowerBound(a.locals, a.global, st.generated, owner);
    LowerBoundGrows(a.global, BelowDomain(st.generated, owner, |a.locals|), st.generated);
  }

  lemma UpdateInv(cfg: Config, st: State, st': State, a: Action)
    requires cfg.Valid() && Inv(cfg, st) && a.Update? && UpdateStep(cfg, st, st', a)
    ensures Inv(cfg, st')
  {
    GlobalIsLowerBound(cfg, st, st', a);
    SelectedIsSafe(a.global, st.generated, cfg.beam, a.t);
  }

  lemma NextKeepsInv(cfg: Config, st: State, st': State, a: Action)
    requires cfg.Valid() && Inv(cfg, st) && Next(cfg, st, st', a)
    ensures Inv(cfg, st')
  {
    match a
    case Batch(_, _, _, _) => BatchInv(cfg, st, st', a);
    case Deliver(_, _) =>
    case Merge(_, _, _, _, _, _) => MergeInv(cfg, st, st', a);
    case Union(_, _) => UnionInv(cfg, st, st', a);
    case Publish(_, _, _, _) => PublishInv(cfg, st, st', a);
    case Update(_, _, _, _) => UpdateInv(cfg, st, st', a);
  }

  // ---- what pruning never loses ----

  lemma DeliverCovers(cfg: Config, st: State, st': State, a: Action, p: Place, d: Candidate)
    requires cfg.Valid() && a.Deliver? && DeliverStep(cfg, st, st', a) && d in st.held(p)
    ensures Covered(st', d)
  {
    if p == Wire(a.src, a.dst) {
      assert d in st'.held(Inbox(a.dst));
    } else {
      assert d in st'.held(p);
    }
  }

  lemma MergeCovers(cfg: Config, st: State, st': State, a: Action, p: Place, d: Candidate)
    requires cfg.Valid() && a.Merge? && MergeStep(cfg, st, st', a) && d in st.held(p) && UnderAll(st, d)
    ensures Covered(st', d)
  {
    var bank, inbox := Bank(a.rank, a.shard, a.second), Inbox(a.rank);
    if p == bank || (p == inbox && d in a.taken) {
      var S := AtMost(Elems(st.held(bank) + a.taken), a.t);
      var e := BestCovers(S, d);
      assert e in Elems(st'.held(bank));
    } else if p == inbox {
      assert d in Elems(st.held(inbox));
      assert d in st'.held(inbox);
    } else {
      assert d in st'.held(p);
    }
  }

  lemma UnionCovers(cfg: Config, st: State, st': State, a: Action, p: Place, d: Candidate)
    requires cfg.Valid() && a.Union? && UnionStep(cfg, st, st', a) && d in st.held(p)
    ensures Covered(st', d)
  {
    var x, y := Bank(a.rank, a.shard, false), Bank(a.rank, a.shard, true);
    if p == x || p == y {
      var e := BestCovers(Elems(st.held(x)) + Elems(st.held(y)), d);
      assert e in Elems(st'.held(x));
    } else {
      assert d in st'.held(p);
    }
  }

  /** No step but a new batch loses a candidate that lies under every issued threshold, except to a better one. */
  lemma StepCovers(cfg: Config, st: State, st': State, a: Action, d: Candidate)
    requires cfg.Valid() && Next(cfg, st, st', a) && IsHeld(st, d) && UnderAll(st, d)
    ensures Covered(st', d)
  {
    var p :| d in st.held(p);
    match a
    case Batch(_, _, _, _) => assert d in st'.held(p);
    case Deliver(_, _) => DeliverCovers(cfg, st, st', a, p, d);
    case Merge(_, _, _, _, _, _) => MergeCovers(cfg, st, st', a, p, d);
    case Union(_, _) => UnionCovers(cfg, st, st', a, p, d);
    case Publish(_, _, _, _) => assert d in st'.held(p);
    case Update(_, _, _, _) => assert d in st'.held(p);
  }

  /** A freshly generated candidate under the thresholds reaches its owner's inbox or wire. */
  lemma BatchCovers(cfg: Config, st: State, st': State, a: Action, c: Candidate) returns (d: Candidate)
    requires cfg.Valid() && a.Batch? && BatchStep(cfg, st, st', a)
    requires c in Metas(cfg, a.source, a.input) && c.score <= a.t
    ensures IsHeld(st', d) && d.hash == c.hash && d.score <= c.score
    ensures Stream3.PayloadAgreesUpTo(a.input, a.t) && c in Best(Metas(cfg, a.source, a.input)) ==> d == c
  {
    d := Stream3.SurvivorIsDelivered(cfg.ownerKey, cfg.world, a.source, a.input, a.t, a.split, c);
    DeliveredIsHeld(cfg, st, st', a, cfg.Owner(c.hash), d);
  }

  lemma DeliveredIsHeld(cfg: Config, st: State, st': State, a: Action, owner: nat, d: Candidate)
    requires cfg.Valid() && a.Batch? && BatchStep(cfg, st, st', a)
    requires d in Stream3.Delivered(a.split, a.source, owner)
    ensures IsHeld(st', d)
  {
    var p := if owner == a.source then Inbox(owner) else Wire(a.source, owner);
    assert d in st'.held(p);
  }

  ghost predicate Agrees(a: Action) {
    a.Batch? ==> Stream3.PayloadAgreesUpTo(a.input, a.t)
  }

  /** A covered best candidate is held itself: whatever else covers it would have to be better. */
  lemma CoveredBestIsHeld(cfg: Config, st: State, c: Candidate)
    requires cfg.Valid() && Inv(cfg, st) && Covered(st, c) && c in Best(st.generated)
    ensures IsHeld(st, c)
  {
    var e :| IsHeld(st, e) && e.hash == c.hash && (e == c || Better(e, c));
    var p :| e in st.held(p);
    assert e in st.generated;
  }

  lemma NewBestIsHeld(cfg: Config, st: State, st': State, a: Action, c: Candidate)
    requires cfg.Valid() && Next(cfg, st, st', a) && Agrees(a)
    requires c !in st.generated && c in Best(st'.generated) && UnderAll(st, c)
    ensures IsHeld(st', c)
  {
    assert c in Best(Metas(cfg, a.source, a.input));
    var d := BatchCovers(cfg, st, st', a, c);
  }

  lemma NextRetainsBest(cfg: Config, st: State, st': State, a: Action)
    requires cfg.Valid() && Inv(cfg, st') && Next(cfg, st, st', a) && Agrees(a)
    requires RetainsBest(st) && st.generated <= st'.generated && st.thresholds <= st'.thresholds
    ensures RetainsBest(st')
  {
    forall c | c in Best(st'.generated) && UnderAll(st', c) ensures IsHeld(st', c) {
      assert UnderAll(st, c);
      if c in st.generated {
        assert c in Best(st.generated);
        StepCovers(cfg, st, st', a, c);
        CoveredBestIsHeld(cfg, st', c);
      } else {
        NewBestIsHeld(cfg, st, st', a, c);
      }
    }
  }

  lemma NextRetainsScores(cfg: Config, st: State, st': State, a: Action)
    requires cfg.Valid() && Inv(cfg, st) && Inv(cfg, st') && Next(cfg, st, st', a)
    requires RetainsScores(st) && st.generated <= st'.generated && st.thresholds <= st'.thresholds
    ensures RetainsScores(st')
  {
    forall c | c in Best(st'.generated) && UnderAll(st', c) ensures CoveredScore(st', c) {
      if c in st.generated {
        assert c in Best(st.generated) && UnderAll(st, c);
        var d :| IsHeld(st, d) && d.hash == c.hash && d.score <= c.score;
        StepCovers(cfg, st, st', a, d);
      } else {
        var d := BatchCovers(cfg, st, st', a, c);
      }
    }
  }

  lemma NextGrows(cfg: Config, st: State, st': State, a: Action)
    requires cfg.Valid() && Next(cfg, st, st', a)
    ensures st.generated <= st'.generated && st.thresholds <= st'.thresholds
  {
  }

  ghost predicate AllAgree(actions: seq<Action>) {
    forall i :: 0 <= i < |actions| ==> Agrees(actions[i])
  }

  /** The invariant and what pruning retains; exact candidates only while payload ids agree. */
  ghost predicate Sound(cfg: Config, st: State, agreed: bool)
    requires cfg.Valid()
  {
    Inv(cfg, st) && RetainsScores(st) && (agreed ==> RetainsBest(st))
  }

  lemma NextKeepsSound(cfg: Config, st: State, st': State, a: Action, agreed: bool)
    requires cfg.Valid() && Sound(cfg, st, agreed) && Next(cfg, st, st', a) && (agreed ==> Agrees(a))
    ensures Sound(cfg, st', agreed)
  {
    NextKeepsInv(cfg, st, st', a);
    NextGrows(cfg, st, st', a);
    NextRetainsScores(cfg, st, st', a);
    if agreed {
      NextRetainsBest(cfg, st, st', a);
    }
  }

  lemma {:induction false} RunKeepsSound(cfg: Config, states: seq<State>, actions: seq<Action>, n: nat)
    requires cfg.Valid() && Run(cfg, states, actions) && n <= |actions|
    ensures Sound(cfg, states[n], AllAgree(actions))
  {
    var agreed := AllAgree(actions);
    if n == 0 {
      InitInv(cfg, states[0]);
    } else {
      RunKeepsSound(cfg, states, actions, n - 1);
      var a := StepOfRun(cfg, states, actions, n);
      NextKeepsSound(cfg, states[n - 1], states[n], a, agreed);
    }
  }

  lemma StepOfRun(cfg: Config, states: seq<State>, actions: seq<Action>, n: nat) returns (a: Action)
    requires cfg.Valid() && Run(cfg, states, actions) && 0 < n <= |actions|
    ensures Next(cfg, states[n - 1], states[n], a) && (AllAgree(actions) ==> Agrees(a))
  {
    var k := n - 1;
    a := actions[k];
    assert Next(cfg, states[k], states[k + 1], a);
    assert AllAgree(actions) ==> Agrees(actions[k]);
  }

  /** Over every run, at its end. */
  lemma RunKeeps(cfg: Config, states: seq<State>, actions: seq<Action>)
    requires cfg.Valid() && Run(cfg, states, actions)
    ensures var last := states[|actions|];
            Inv(cfg, last) && RetainsScores(last) && (AllAgree(actions) ==> RetainsBest(last))
  {
    RunKeepsSound(cfg, states, actions, |actions|);
  }

  lemma {:induction false} RunGrows(cfg: Config, states: seq<State>, actions: seq<Action>, i: nat, j: nat)
    requires cfg.Valid() && Run(cfg, states, actions) && i <= j <= |actions|
    ensures states[i].thresholds <= states[j].thresholds && states[i].generated <= states[j].generated
    decreases j
  {
    if i < j {
      RunGrows(cfg, states, actions, i, j - 1);
      assert Next(cfg, states[j - 1], states[j - 1 + 1], actions[j - 1]);
      NextGrows(cfg, states[j - 1], states[j], actions[j - 1]);
    }
  }

  /** No threshold issued at any point of any run excludes a member of the final true top B. */
  lemma NoThresholdExcludesTopB(cfg: Config, states: seq<State>, actions: seq<Action>, i: nat, t: u32, c: Candidate)
    requires cfg.Valid() && Run(cfg, states, actions) && i <= |actions| && t in states[i].thresholds
    requires c in TopB(Best(states[|actions|].generated), cfg.beam)
    ensures c.score <= t
  {
    RunKeeps(cfg, states, actions);
    RunGrows(cfg, states, actions, i, |actions|);
    SafeKeepsTopB(states[|actions|].generated, cfg.beam, t, c);
  }

  // ---- the finished depth ----

  /** `collected` is everything the run still holds. */
  ghost predicate Collected(st: State, collected: set<Candidate>) {
    forall c :: c in collected <==> IsHeld(st, c)
  }

  lemma LeastThreshold(ts: set<u32>) returns (t: u32)
    requires ts != {}
    ensures t in ts && forall u :: u in ts ==> t <= u
    decreases |ts|
  {
    var s :| s in ts;
    t := s;
    if exists u :: u in ts && u < s {
      var u :| u in ts && u < s;
      assert u in ts - {s};
      t := LeastThreshold(ts - {s});
      assert forall v :: v in ts ==> v == s || v in ts - {s};
    }
  }

  /** The pruned pipeline ends with the top B of everything that was ever generated. */
  lemma PrunedTopBIsExact(cfg: Config, states: seq<State>, actions: seq<Action>, collected: set<Candidate>)
    requires cfg.Valid() && Run(cfg, states, actions) && AllAgree(actions)
    requires Collected(states[|actions|], collected)
    ensures TopB(Best(collected), cfg.beam) == TopB(Best(states[|actions|].generated), cfg.beam)
  {
    var last := states[|actions|];
    RunKeeps(cfg, states, actions);
    var t := LeastThreshold(last.thresholds);
    var G := last.generated;
    assert collected <= G;
    forall c ensures c in AtMost(Best(G), t) <==> c in AtMost(Best(collected), t) {
      if c in AtMost(Best(collected), t) {
        var b := BestCovers(G, c);
        assert UnderAll(last, b);
        assert b in collected;
      }
      if c in AtMost(Best(G), t) {
        assert UnderAll(last, c);
        assert c in collected;
      }
    }
    TopBDependsOnSafePart(G, collected, cfg.beam, t);
  }

  /** Candidates of a run are told apart by (parent, route), so the final order has no ties. */
  lemma GeneratedIsRanked(cfg: Config, states: seq<State>, actions: seq<Action>)
    requires cfg.Valid() && Run(cfg, states, actions)
    ensures Ranked(states[|actions|].generated)
  {
    RunKeeps(cfg, states, actions);
    forall c, d | c in states[|actions|].generated && d in states[|actions|].generated && c != d
      ensures Better(c, d) || Better(d, c)
    {
      assert IsGenuine(cfg, c) && IsGenuine(cfg, d);
    }
  }

  /** The ordered, truncated frontier of the pruned distributed run is the one a reference gets
      by collecting everything, keeping the best candidate per hash and taking the first B. */
  lemma PrunedFrontierIsExact(cfg: Config, states: seq<State>, actions: seq<Action>, collected: set<Candidate>,
                              frontier: seq<Candidate>, reference: seq<Candidate>)
    requires cfg.Valid() && Run(cfg, states, actions) && AllAgree(actions)
    requires Collected(states[|actions|], collected)
    requires IsTopFrontier(collected, cfg.beam, frontier)
    requires IsTopFrontier(states[|actions|].generated, cfg.beam, reference)
    ensures frontier == reference && TopInNumbers(states[|actions|].generated, cfg.beam, frontier)
  {
    PrunedTopBIsExact(cfg, states, actions, collected);
    GeneratedIsRanked(cfg, states, actions);
    TopFrontierIsNumeric(states[|actions|].generated, cfg.beam, reference);
    RankedSequenceIsDetermined(frontier, reference);
  }

  /** Without payload agreement, every member of the true top B still has its hash and score in the result. */
  lemma PrunedScoresAreExact(cfg: Config, states: seq<State>, actions: seq<Action>, collected: set<Candidate>,
                             c: Candidate)
    requires cfg.Valid() && Run(cfg, states, actions) && Collected(states[|actions|], collected)
    requires c in TopB(Best(states[|actions|].generated), cfg.beam)
    ensures exists d :: d in Best(collected) && d.hash == c.hash && d.score == c.score
  {
    var last := states[|actions|];
    RunKeeps(cfg, states, actions);
    forall t | t in last.thresholds ensures c.score <= t {
      SafeKeepsTopB(last.generated, cfg.beam, t, c);
    }
    var d :| IsHeld(last, d) && d.hash == c.hash && d.score <= c.score;
    var b := BestCovers(collected, d);
    assert b in last.generated;
  }

  /** Up to every issued threshold, the run still holds every hash it generated. */
  lemma HeldHashes(cfg: Config, st: State, collected: set<Candidate>, t: u32, n: int)
    requires cfg.Valid() && Inv(cfg, st) && RetainsScores(st) && Collected(st, collected)
    requires n <= t && forall u :: u in st.thresholds ==> t <= u
    ensures HashesAtMost(collected, n) == HashesAtMost(st.generated, n)
  {
    forall h | h in HashesAtMost(st.generated, n) ensures h in HashesAtMost(collected, n) {
      var c :| c in st.generated && c.score <= n && c.hash == h;
      var b := BestCovers(st.generated, c);
      assert UnderAll(st, b);
      var d :| IsHeld(st, d) && d.hash == b.hash && d.score <= b.score;
      assert d in collected;
    }
  }

  /** Up to every score, the true and the pruned frontier hold equally many candidates. */
  lemma FrontierCountsAgree(cfg: Config, st: State, collected: set<Candidate>, t: u32, n: int)
    requires cfg.Valid() && Inv(cfg, st) && RetainsScores(st) && Collected(st, collected)
    requires Ranked(st.generated) && t in st.thresholds && forall u :: u in st.thresholds ==> t <= u
    ensures |AtMost(TopB(Best(collected), cfg.beam), n)| == |AtMost(TopB(Best(st.generated), cfg.beam), n)|
  {
    assert collected <= st.generated;
    TopBScores(collected, cfg.beam, n);
    TopBScores(st.generated, cfg.beam, n);
    HeldHashes(cfg, st, collected, t, if n <= t then n else t);
    if n > t {
      if t == U32_MAX {
        assert HashesAtMost(collected, n) == HashesAtMost(collected, t);
        assert HashesAtMost(st.generated, n) == HashesAtMost(st.generated, t);
      } else {
        assert Safe(st.generated, cfg.beam, t);
        SubsetSize(HashesAtMost(collected, t), HashesAtMost(collected, n));
        SubsetSize(HashesAtMost(st.generated, t), HashesAtMost(st.generated, n));
      }
    }
  }

  /** Without payload agreement, the ordered, truncated frontier of the pruned run still has the length of
      the reference's and its score at every position. */
  lemma PrunedFrontierScoresAreExact(cfg: Config, states: seq<State>, actions: seq<Action>, collected: set<Candidate>,
                                     frontier: seq<Candidate>, reference: seq<Candidate>)
    requires cfg.Valid() && Run(cfg, states, actions) && Collected(states[|actions|], collected)
    requires IsTopFrontier(collected, cfg.beam, frontier)
    requires IsTopFrontier(states[|actions|].generated, cfg.beam, reference)
    ensures |frontier| == |reference| && forall i :: 0 <= i < |frontier| ==> frontier[i].score == reference[i].score
  {
    var last := states[|actions|];
    RunKeeps(cfg, states, actions);
    GeneratedIsRanked(cfg, states, actions);
    var t := LeastThreshold(last.thresholds);
    forall n ensures |AtMost(Elems(frontier), n)| == |AtMost(Elems(reference), n)| {
      FrontierCountsAgree(cfg, last, collected, t, n);
    }
    CountsGiveScores(frontier, reference);
  }
}
