/** How much history a search can need, and where each depth will be stored (src/history_budget.cpp). */
module HistoryBudget {
  import opened Candidates
  import opened Wrappers

  datatype Location = Ram | Disk

  datatype Estimate = Estimate(effectiveDepth: u32, targetBeamDepth: u32, statesBefore: u64, required: u64)

  datatype Reservation = Reservation(bound: u64, offset: u64, location: Location)

  datatype Plan = Plan(depths: seq<Reservation>, required: u64, ram: u64, disk: u64)

  datatype Error =
    | ZeroMoves | RequiredOverflow | TotalTooSmall | CannotPlace(depth: nat)
    | DepthBeyondPlan | CountExceedsBound | FallbackExhausted

  function Min(a: int, b: int): int {
    if a < b then a else b
  }

  function Pow(m: nat, n: nat): nat {
    if n == 0 then 1 else m * Pow(m, n - 1)
  }

  /** The most entries depth `d` can hold: every move of every state, up to the beam. */
  function Bound(beam: nat, moves: nat, d: nat): nat {
    Min(beam, Pow(moves, d + 1))
  }

  function Required(beam: nat, moves: nat, depths: nat): nat {
    if depths == 0 then 0 else Required(beam, moves, depths - 1) + Bound(beam, moves, depths - 1)
  }

  lemma MulMonotone(x: nat, y: nat, m: nat)
    requires x <= y
    ensures x * m <= y * m
  {
  }

  lemma DivBound(x: nat, beam: nat, moves: nat)
    requires moves > 0
    ensures x <= beam / moves <==> x * moves <= beam
  {
    var q := beam / moves;
    assert q * moves <= beam < (q + 1) * moves;
    if x <= q {
      MulMonotone(x, q, moves);
    } else {
      MulMonotone(q + 1, x, moves);
    }
  }

  /** The 64-bit step never overflows and is exactly the mathematical minimum. */
  function ExpandBound(previous: u64, beam: u64, moves: u32): (r: u64)
    requires moves > 0
    ensures r == Min(beam, previous * moves)
    ensures r <= beam && r <= previous * moves && (r == beam || r == previous * moves)
  {
    DivBound(previous, beam, moves);
    if previous > beam / moves then beam else
      var product: u64 := previous * moves;
      Min(beam, product)
  }

  /** One step down the bounds of successive depths. */
  lemma BoundStep(beam: u64, moves: u32, d: nat)
    requires moves > 0
    ensures Bound(beam, moves, d)
            == ExpandBound(if d == 0 then Min(beam, 1) else Bound(beam, moves, d - 1), beam, moves)
    ensures d == 0 ==> Bound(beam, moves, d) == ExpandBound(1, beam, moves)
  {
    if d == 0 {
      assert Pow(moves, 1) == moves * Pow(moves, 0);
    } else {
      assert Pow(moves, d + 1) == moves * Pow(moves, d);
      var p: nat := Pow(moves, d);
      if p > beam {
        MulMonotone(1, moves, p);
        MulMonotone(1, moves, beam);
      } else {
        assert p * moves == moves * p;
      }
    }
  }

  /** The bounds and their total, depth by depth: each is the last times the moves, but never above the beam. */
  lemma BoundsAreStepwise(beam: u64, moves: u32, d: nat)
    requires moves > 0
    ensures Bound(beam, moves, 0) == if moves < beam then moves as int else beam as int
    ensures Bound(beam, moves, d + 1) ==
            if Bound(beam, moves, d) * moves < beam then Bound(beam, moves, d) * moves else beam
    ensures Required(beam, moves, 0) == 0
    ensures Required(beam, moves, d + 1) == Required(beam, moves, d) + Bound(beam, moves, d)
  {
    BoundStep(beam, moves, 0);
    BoundStep(beam, moves, d + 1);
  }

  /** Once a bound reaches the beam, every later one is the beam. */
  lemma {:induction false} SaturatedStays(beam: u64, moves: u32, d: nat, e: nat)
    requires moves > 0 && d <= e && Bound(beam, moves, d) == beam
    ensures Bound(beam, moves, e) == beam
    decreases e
  {
    if d < e {
      SaturatedStays(beam, moves, d, e - 1);
      BoundStep(beam, moves, e);
      MulMonotone(1, moves, beam);
    }
  }

  lemma {:induction false} RequiredSaturated(beam: u64, moves: u32, d: nat, e: nat)
    requires moves > 0 && d <= e && (d < e ==> Bound(beam, moves, d) == beam)
    ensures Required(beam, moves, e) == Required(beam, moves, d) + (e - d) * beam
    decreases e
  {
    if d < e {
      RequiredSaturated(beam, moves, d, e - 1);
      SaturatedStays(beam, moves, d, e - 1);
      assert (e - d) * beam == (e - 1 - d) * beam + beam;
    }
  }

  lemma {:induction false} RequiredGrows(beam: nat, moves: nat, d: nat, e: nat)
    requires d <= e
    ensures Required(beam, moves, d) <= Required(beam, moves, e)
    decreases e
  {
    if d < e {
      RequiredGrows(beam, moves, d, e - 1);
    }
  }

  /** The first depth whose bound is the whole beam, if any before `depths`. */
  ghost predicate IsTarget(beam: nat, moves: nat, depths: nat, target: nat) {
    && target <= depths
    && (forall d :: 0 <= d < target ==> Bound(beam, moves, d) < beam)
    && (target < depths ==> Bound(beam, moves, target) == beam)
  }

  /** Leaves early at the first saturated depth, yet totals every depth's bound; overflow is reported
      exactly when that total does not fit in 64 bits. */
  method EstimateEntries(depths: u32, beam: u64, moves: u32) returns (r: Result<Estimate, Error>)
    ensures moves == 0 ==> r == Err(ZeroMoves)
    ensures moves > 0 ==> (r.Err? <==> Required(beam, moves, depths) > U64_MAX)
    ensures moves > 0 && r.Err? ==> r == Err(RequiredOverflow)
    ensures r.Ok? ==> r.value.required == Required(beam, moves, depths) && r.value.effectiveDepth == depths
    ensures r.Ok? && beam > 0 ==>
              && IsTarget(beam, moves, depths, r.value.targetBeamDepth)
              && (forall d :: 0 <= d < r.value.targetBeamDepth ==> Bound(beam, moves, d) < beam)
              && (r.value.targetBeamDepth < depths ==> Bound(beam, moves, r.value.targetBeamDepth) == beam)
              && r.value.statesBefore == Required(beam, moves, r.value.targetBeamDepth)
    ensures r.Ok? && beam == 0 ==> r.value.targetBeamDepth == 0 && r.value.statesBefore == 0
  {
    if moves == 0 {
      return Err(ZeroMoves);
    }
    if depths == 0 || beam == 0 {
      ZeroBeam(moves, depths);
      return Ok(Estimate(depths, 0, 0, 0));
    }
    var bound: u64, states: u64 := 1, 0;
    for depth := 0 to depths
      invariant bound == (if depth == 0 then 1 else Bound(beam, moves, depth - 1))
      invariant states == Required(beam, moves, depth)
      invariant forall d :: 0 <= d < depth ==> Bound(beam, moves, d) < beam
    {
      BoundStep(beam, moves, depth);
      bound := ExpandBound(bound, beam, moves);
      if bound == beam {
        var remaining := depths - depth;
        RequiredSaturated(beam, moves, depth, depths);
        DivBound(remaining, U64_MAX - states, beam);
        if remaining > (U64_MAX - states) / beam {
          return Err(RequiredOverflow);
        }
        var rest: u64 := remaining * beam;
        return Ok(Estimate(depths, depth, states, states + rest));
      }
      RequiredGrows(beam, moves, depth + 1, depths);
      if bound > U64_MAX - states {
        return Err(RequiredOverflow);
      }
      states := states + bound;
    }
    return Ok(Estimate(depths, depths, states, states));
  }

  lemma {:induction false} ZeroBeam(moves: nat, depths: nat)
    ensures Required(0, moves, depths) == 0
  {
    if depths > 0 {
      ZeroBeam(moves, depths - 1);
    }
  }

  /** The entries reserved in one arena by the first `n` depths. */
  function Reserved(depths: seq<Reservation>, arena: Location, n: nat): nat
    requires n <= |depths|
  {
    if n == 0 then 0
    else Reserved(depths, arena, n - 1) + (if depths[n - 1].location == arena then depths[n - 1].bound else 0)
  }

  /** Depths are placed one after another inside their arenas, each with its full bound. */
  ghost predicate Placed(depths: seq<Reservation>, beam: nat, moves: nat) {
    forall d :: 0 <= d < |depths| ==> PlacedAt(depths, beam, moves, d)
  }

  ghost predicate PlacedAt(depths: seq<Reservation>, beam: nat, moves: nat, d: nat) {
    d < |depths| && depths[d].bound == Bound(beam, moves, d)
    && depths[d].offset == Reserved(depths, depths[d].location, d)
  }

  /** Disk is preferred: RAM holds a depth only when the rest of the disk arena could not. */
  ghost predicate DiskFirst(depths: seq<Reservation>, diskArena: nat) {
    forall d :: 0 <= d < |depths| ==> DiskFirstAt(depths, diskArena, d)
  }

  ghost predicate DiskFirstAt(depths: seq<Reservation>, diskArena: nat, d: nat) {
    d < |depths| && (depths[d].location == Disk <==> Reserved(depths, Disk, d) + depths[d].bound <= diskArena)
  }

  lemma {:induction false} ReservedPrefix(a: seq<Reservation>, b: seq<Reservation>, arena: Location, n: nat)
    requires n <= |a| <= |b| && a == b[..|a|]
    ensures Reserved(a, arena, n) == Reserved(b, arena, n)
  {
    if n > 0 {
      ReservedPrefix(a, b, arena, n - 1);
      assert a[n - 1] == b[n - 1];
    }
  }

  /** Planned disk and RAM entries together are exactly the entries the estimate requires. */
  lemma {:induction false} ReservedIsRequired(depths: seq<Reservation>, beam: nat, moves: nat, n: nat)
    requires Placed(depths, beam, moves) && n <= |depths|
    ensures Reserved(depths, Ram, n) + Reserved(depths, Disk, n) == Required(beam, moves, n)
  {
    if n > 0 {
      ReservedIsRequired(depths, beam, moves, n - 1);
      assert PlacedAt(depths, beam, moves, n - 1);
    }
  }

  lemma {:induction false} ReservedGrows(depths: seq<Reservation>, arena: Location, m: nat, n: nat)
    requires m <= n <= |depths|
    ensures Reserved(depths, arena, m) <= Reserved(depths, arena, n)
    decreases n
  {
    if m < n {
      ReservedGrows(depths, arena, m, n - 1);
    }
  }

  /** Two depths in one arena never overlap, and every depth lies inside what its arena has reserved. */
  lemma PlannedApart(depths: seq<Reservation>, beam: nat, moves: nat, d: nat, e: nat)
    requires Placed(depths, beam, moves) && d < e < |depths| && depths[d].location == depths[e].location
    ensures depths[d].offset + depths[d].bound <= depths[e].offset
    ensures depths[e].offset + depths[e].bound <= Reserved(depths, depths[e].location, |depths|)
  {
    var l := depths[d].location;
    assert PlacedAt(depths, beam, moves, d) && PlacedAt(depths, beam, moves, e);
    assert Reserved(depths, l, d + 1) == Reserved(depths, l, d) + depths[d].bound;
    ReservedGrows(depths, l, d + 1, e);
    PlannedInside(depths, beam, moves, e);
  }

  lemma PlannedInside(depths: seq<Reservation>, beam: nat, moves: nat, d: nat)
    requires Placed(depths, beam, moves) && d < |depths|
    ensures depths[d].offset + depths[d].bound <= Reserved(depths, depths[d].location, |depths|)
  {
    assert PlacedAt(depths, beam, moves, d);
    assert Reserved(depths, depths[d].location, d + 1) == Reserved(depths, depths[d].location, d) + depths[d].bound;
    ReservedGrows(depths, depths[d].location, d + 1, |depths|);
  }

  ghost predicate PlanOk(p: Plan, depths: nat, beam: nat, moves: nat, ramArena: nat, diskArena: nat) {
    && |p.depths| == depths && Placed(p.depths, beam, moves) && DiskFirst(p.depths, diskArena)
    && p.ram == Reserved(p.depths, Ram, depths) <= ramArena
    && p.disk == Reserved(p.depths, Disk, depths) <= diskArena
    && p.required == Required(beam, moves, depths)
  }

  /** Everything a failed placement says: the depths before it were placed, it fits in neither arena. */
  ghost predicate Unplaceable(depth: nat, beam: nat, moves: nat, ramArena: nat, diskArena: nat) {
    exists placed: seq<Reservation> :: |placed| == depth && Placed(placed, beam, moves) && DiskFirst(placed, diskArena)
      && Reserved(placed, Disk, depth) + Bound(beam, moves, depth) > diskArena
      && Reserved(placed, Ram, depth) + Bound(beam, moves, depth) > ramArena
  }

  /** The greedy placement is determined: shorter placements are prefixes of longer ones. */
  lemma {:induction false} PlacementIsDetermined(a: seq<Reservation>, b: seq<Reservation>, beam: nat, moves: nat,
                                                 diskArena: nat)
    requires |a| <= |b| && Placed(a, beam, moves) && Placed(b, beam, moves)
    requires DiskFirst(a, diskArena) && DiskFirst(b, diskArena)
    ensures a == b[..|a|]
    decreases |a|
  {
    if a != [] {
      var n := |a| - 1;
      var front := a[..n];
      forall d | 0 <= d < n ensures PlacedAt(front, beam, moves, d) && DiskFirstAt(front, diskArena, d) {
        assert PlacedAt(a, beam, moves, d) && DiskFirstAt(a, diskArena, d);
        ReservedPrefix(front, a, Disk, d);
        ReservedPrefix(front, a, Ram, d);
      }
      PlacementIsDetermined(front, b, beam, moves, diskArena);
      assert PlacedAt(a, beam, moves, n) && DiskFirstAt(a, diskArena, n);
      assert PlacedAt(b, beam, moves, n) && DiskFirstAt(b, diskArena, n);
      forall l ensures Reserved(a, l, n) == Reserved(b, l, n) {
        ReservedPrefix(front, a, l, n);
        ReservedPrefix(front, b, l, n);
      }
      assert a[n] == b[n];
    }
  }

  lemma PlannedIsPlaceable(p: Plan, depths: nat, beam: nat, moves: nat, ramArena: nat, diskArena: nat, d: nat)
    requires PlanOk(p, depths, beam, moves, ramArena, diskArena) && d < depths
    ensures !Unplaceable(d, beam, moves, ramArena, diskArena)
  {
    forall placed: seq<Reservation> | |placed| == d && Placed(placed, beam, moves) && DiskFirst(placed, diskArena)
      ensures Reserved(placed, Disk, d) + Bound(beam, moves, d) <= diskArena
              || Reserved(placed, Ram, d) + Bound(beam, moves, d) <= ramArena
    {
      PlacementIsDetermined(placed, p.depths, beam, moves, diskArena);
      ReservedPrefix(placed, p.depths, Disk, d);
      ReservedPrefix(placed, p.depths, Ram, d);
      assert PlacedAt(p.depths, beam, moves, d) && DiskFirstAt(p.depths, diskArena, d);
      PlannedInside(p.depths, beam, moves, d);
    }
  }

  lemma PlacedMeans(depths: seq<Reservation>, beam: nat, moves: nat, diskArena: nat)
    requires Placed(depths, beam, moves) && DiskFirst(depths, diskArena)
    ensures forall d :: 0 <= d < |depths| ==>
              && depths[d].bound == Bound(beam, moves, d) && depths[d].offset == Reserved(depths, depths[d].location, d)
              && (depths[d].location == Disk <==> Reserved(depths, Disk, d) + depths[d].bound <= diskArena)
  {
    forall d | 0 <= d < |depths|
      ensures depths[d].bound == Bound(beam, moves, d) && depths[d].offset == Reserved(depths, depths[d].location, d)
      ensures depths[d].location == Disk <==> Reserved(depths, Disk, d) + depths[d].bound <= diskArena
    {
      assert PlacedAt(depths, beam, moves, d) && DiskFirstAt(depths, diskArena, d);
    }
  }

  /** What an arena has reserved grows by the depths placed in it. */
  lemma ReservedIsStepwise(depths: seq<Reservation>, arena: Location, n: nat)
    requires n < |depths|
    ensures Reserved(depths, arena, 0) == 0
    ensures Reserved(depths, arena, n + 1) ==
            Reserved(depths, arena, n) + if depths[n].location == arena then depths[n].bound as int else 0
  {
  }

  /** Every depth takes the disk's next range when it fits there, otherwise the RAM's. */
  method PlaceDepths(depths: u32, beam: u64, moves: u32, ramArena: u64, diskArena: u64, required: u64)
    returns (r: Result<Plan, Error>)
    requires moves > 0 && required == Required(beam, moves, depths)
    ensures r.Ok? ==> PlanOk(r.value, depths, beam, moves, ramArena, diskArena)
    ensures r.Err? ==> r.error.CannotPlace? && r.error.depth < depths
    ensures r.Err? ==> Unplaceable(r.error.depth, beam, moves, ramArena, diskArena)
  {
    var placed: seq<Reservation> := [];
    var ram: u64, disk: u64, bound: u64 := 0, 0, if beam == 0 then 0 else 1;
    for depth := 0 to depths
      invariant |placed| == depth && Placed(placed, beam, moves) && DiskFirst(placed, diskArena)
      invariant ram == Reserved(placed, Ram, depth) <= ramArena
      invariant disk == Reserved(placed, Disk, depth) <= diskArena
      invariant bound == (if depth == 0 then Min(beam, 1) else Bound(beam, moves, depth - 1))
    {
      BoundStep(beam, moves, depth);
      bound := ExpandBound(bound, beam, moves);
      if bound <= diskArena - disk {
        PlaceOne(placed, Reservation(bound, disk, Disk), beam, moves, diskArena);
        placed := placed + [Reservation(bound, disk, Disk)];
        disk := disk + bound;
      } else if bound <= ramArena - ram {
        PlaceOne(placed, Reservation(bound, ram, Ram), beam, moves, diskArena);
        placed := placed + [Reservation(bound, ram, Ram)];
        ram := ram + bound;
      } else {
        return Err(CannotPlace(depth));
      }
    }
    return Ok(Plan(placed, required, ram, disk));
  }

  method PlanHistory(depths: u32, beam: u64, moves: u32, ramArena: u64, diskArena: u64) returns (r: Result<Plan, Error>)
    ensures moves == 0 ==> r == Err(ZeroMoves)
    ensures moves > 0 ==> (r == Err(RequiredOverflow) <==> Required(beam, moves, depths) > U64_MAX)
    ensures moves > 0 && Required(beam, moves, depths) <= U64_MAX ==>
              (r == Err(TotalTooSmall) <==> Required(beam, moves, depths) > ramArena + diskArena)
    ensures r.Ok? ==> PlanOk(r.value, depths, beam, moves, ramArena, diskArena)
    ensures r.Ok? ==> r.value.ram + r.value.disk == r.value.required
    ensures r.Ok? ==> |r.value.depths| == depths && forall d :: 0 <= d < depths ==>
              var here := r.value.depths[d];
              && here.bound == Bound(beam, moves, d) && here.offset == Reserved(r.value.depths, here.location, d)
              && (here.location == Disk <==> Reserved(r.value.depths, Disk, d) + here.bound <= diskArena)
    ensures r.Err? && r.error.CannotPlace? ==>
              r.error.depth < depths && Unplaceable(r.error.depth, beam, moves, ramArena, diskArena)
    ensures moves > 0 && Required(beam, moves, depths) <= U64_MAX ==>
              Required(beam, moves, depths) <= ramArena + diskArena ==>
              (r.Ok? <==> forall d :: 0 <= d < depths ==> !Unplaceable(d, beam, moves, ramArena, diskArena))
    ensures r.Err? ==> r.error.ZeroMoves? || r.error.RequiredOverflow? || r.error.TotalTooSmall? || r.error.CannotPlace?
  {
    var estimate := EstimateEntries(depths, beam, moves);
    if estimate.Err? {
      return Err(estimate.error);
    }
    var required := estimate.value.required;
    if required > ramArena && required - ramArena > diskArena {
      return Err(TotalTooSmall);
    }
    r := PlaceDepths(depths, beam, moves, ramArena, diskArena, required);
    if r.Ok? {
      ReservedIsRequired(r.value.depths, beam, moves, depths);
      PlacedMeans(r.value.depths, beam, moves, diskArena);
      forall d | 0 <= d < depths ensures !Unplaceable(d, beam, moves, ramArena, diskArena) {
        PlannedIsPlaceable(r.value, depths, beam, moves, ramArena, diskArena, d);
      }
    }
  }

  lemma PlaceOne(placed: seq<Reservation>, next: Reservation, beam: nat, moves: nat, diskArena: nat)
    requires Placed(placed, beam, moves) && DiskFirst(placed, diskArena)
    requires next.bound == Bound(beam, moves, |placed|) && next.offset == Reserved(placed, next.location, |placed|)
    requires next.location == Disk <==> Reserved(placed, Disk, |placed|) + next.bound <= diskArena
    ensures Placed(placed + [next], beam, moves) && DiskFirst(placed + [next], diskArena)
    ensures Reserved(placed + [next], next.location, |placed| + 1)
            == Reserved(placed, next.location, |placed|) + next.bound
    ensures forall l :: l != next.location ==>
              Reserved(placed + [next], l, |placed| + 1) == Reserved(placed, l, |placed|)
  {
    var longer := placed + [next];
    forall l, n: nat | n <= |placed| ensures Reserved(longer, l, n) == Reserved(placed, l, n) {
      ReservedPrefix(placed, longer, l, n);
    }
    forall d | 0 <= d < |longer| ensures PlacedAt(longer, beam, moves, d) && DiskFirstAt(longer, diskArena, d) {
      if d < |placed| {
        assert PlacedAt(placed, beam, moves, d) && DiskFirstAt(placed, diskArena, d);
      }
    }
  }

  /** `HistoryPlan::reservation`. */
  function Lookup(p: Plan, depth: nat, count: nat): (r: Result<Reservation, Error>)
    ensures r.Ok? <==> depth < |p.depths| && count <= p.depths[depth].bound
    ensures r.Ok? ==> r.value == p.depths[depth]
  {
    if depth >= |p.depths| then Err(DepthBeyondPlan)
    else if count > p.depths[depth].bound then Err(CountExceedsBound)
    else Ok(p.depths[depth])
  }

  /** In a finished plan every count a depth can reach is answered and no larger one, the answered range lies
      inside its arena, and the ranges answered for two depths of one arena share no entry. */
  lemma AnsweredRangesAreSafe(p: Plan, depths: nat, beam: nat, moves: nat, ramArena: nat, diskArena: nat,
                              d: nat, count: nat, e: nat, other: nat)
    requires PlanOk(p, depths, beam, moves, ramArena, diskArena)
    ensures Lookup(p, d, count).Ok? <==> d < depths && count <= Bound(beam, moves, d)
    ensures Lookup(p, d, count).Ok? ==>
              var range := Lookup(p, d, count).value;
              range.offset + count <= if range.location == Ram then ramArena else diskArena
    ensures Lookup(p, d, count).Ok? && Lookup(p, e, other).Ok? && d < e ==>
              var a, b := Lookup(p, d, count).value, Lookup(p, e, other).value;
              a.location == b.location ==> a.offset + count <= b.offset
  {
    if d < depths {
      assert PlacedAt(p.depths, beam, moves, d);
      PlannedInside(p.depths, beam, moves, d);
    }
    if d < e < depths && p.depths[d].location == p.depths[e].location {
      PlannedApart(p.depths, beam, moves, d, e);
    }
  }

  /** Hands out the tail of the RAM arena; a refused request changes nothing. */
  method ReserveFallbackRam(count: u64, capacity: u64, reservedEnd: u64) returns (r: Option<u64>, newEnd: u64)
    ensures r.Some? <==> reservedEnd + count <= capacity
    ensures r.Some? ==> r.value == reservedEnd && newEnd == reservedEnd + count
    ensures r.None? ==> newEnd == reservedEnd
  {
    if reservedEnd > capacity || count > capacity - reservedEnd {
      return None, reservedEnd;
    }
    return Some(reservedEnd), reservedEnd + count;
  }
}
