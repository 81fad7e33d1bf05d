/** Sizes computed in 64-bit arithmetic without losing a bit (cuda/runtime_config.cpp, src/config.cpp). */
module RuntimeArithmetic {
  import opened Arithmetic
  import opened Candidates
  import opened Wrappers

  datatype Error = Overflow | ZeroDenominator | InvalidRank

  const SCALE: u64 := 1_000_000

  function CheckedProduct(a: u64, b: u64): (r: Result<u64, Error>)
    ensures r == if a * b <= U64_MAX then Ok(a * b) else Err(Overflow)
  {
    ProductFits(a, b);
    if b != 0 && a > U64_MAX / b then Err(Overflow) else Ok(a * b)
  }

  lemma ProductFits(a: u64, b: u64)
    ensures a * b <= U64_MAX <==> b == 0 || a <= U64_MAX / b
  {
    if b != 0 {
      var q := U64_MAX / b;
      assert U64_MAX == b * q + U64_MAX % b;
      if a <= q {
        Monotone(b, a, q);
      } else {
        Monotone(b, q + 1, a);
        Distribute(b, q, 1);
      }
    }
  }

  /** The scaling as computed: every intermediate value fits 64 bits, by its type. */
  function ScaledRoundUp(value: u64, ppm: u64): Result<u64, Error> {
    var whole := CheckedProduct(value / SCALE, ppm);
    if whole.Err? then whole else
      var remainder: u64 := value % SCALE;
      var tailWhole := CheckedProduct(remainder, ppm / SCALE);
      if tailWhole.Err? then tailWhole else
        TailFits(remainder, ppm % SCALE);
        var tailProduct: u64 := remainder * (ppm % SCALE);
        var tailFraction: u64 := tailProduct / SCALE + (if tailProduct % SCALE != 0 then 1 else 0);
        var space: u64 := U64_MAX - whole.value;
        if tailWhole.value > space then Err(Overflow) else
          var left: u64 := space - tailWhole.value;
          if tailFraction > left then Err(Overflow) else Ok(whole.value + tailWhole.value + tailFraction)
  }

  lemma TailFits(remainder: nat, rest: nat)
    requires remainder < SCALE && rest < SCALE
    ensures remainder * rest < SCALE * SCALE
  {
    Monotone(remainder, rest, SCALE);
    Monotone(SCALE, remainder, SCALE);
  }

  /** The result is the exact product divided by a million and rounded up; it throws exactly when that
      exceeds 64 bits. */
  lemma ScaledRoundUpIsExact(value: u64, ppm: u64)
    ensures var exact := CeilDiv(value * ppm, SCALE);
            ScaledRoundUp(value, ppm) == if exact <= U64_MAX then Ok(exact) else Err(Overflow)
  {
    PartsAddUp(value, ppm);
    ScaledParts(value / SCALE, value % SCALE, ppm, ppm / SCALE, ppm % SCALE);
  }

  ghost function Parts(q: nat, r: nat, ppm: nat, a: nat, b: nat): nat {
    q * ppm + r * a + CeilDiv(r * b, SCALE)
  }

  lemma PartsAddUp(value: u64, ppm: u64)
    ensures var sum := Parts(value / SCALE, value % SCALE, ppm, ppm / SCALE, ppm % SCALE);
            ScaledRoundUp(value, ppm) == if sum <= U64_MAX then Ok(sum) else Err(Overflow)
  {
  }

  lemma ScaledParts(q: nat, r: nat, ppm: nat, a: nat, b: nat)
    requires ppm == SCALE * a + b
    ensures Parts(q, r, ppm, a, b) == CeilDiv((SCALE * q + r) * ppm, SCALE)
  {
    SplitProduct(q, r, ppm, a, b);
    ShiftCeil(q * ppm + r * a, r * b, CeilDiv(r * b, SCALE), SCALE);
    CeilIsUnique(Parts(q, r, ppm, a, b), CeilDiv((SCALE * q + r) * ppm, SCALE), (SCALE * q + r) * ppm, SCALE);
  }

  lemma SplitProduct(q: nat, r: nat, ppm: nat, a: nat, b: nat)
    requires ppm == SCALE * a + b
    ensures (SCALE * q + r) * ppm == SCALE * (q * ppm + r * a) + r * b
  {
    calc {
      (SCALE * q + r) * ppm;
      SCALE * (q * ppm) + r * ppm;
      SCALE * (q * ppm) + r * (SCALE * a + b);
      SCALE * (q * ppm) + SCALE * (r * a) + r * b;
      SCALE * (q * ppm + r * a) + r * b;
    }
  }

  lemma ShiftCeil(whole: nat, n: nat, k: nat, d: nat)
    requires IsCeil(k, n, d)
    ensures IsCeil(whole + k, d * whole + n, d)
  {
    Distribute(d, whole, k);
  }

  function RoundUp(value: u64, alignment: u64): Result<u64, Error> {
    if alignment == 0 then Ok(value) else
      var remainder := value % alignment;
      var increment: u64 := if remainder == 0 then 0 else alignment - remainder;
      if increment > U64_MAX - value then Err(Overflow) else Ok(value + increment)
  }

  /** Rounding up gives the least multiple, and throws exactly when that exceeds 64 bits. */
  lemma RoundUpIsLeastMultiple(value: u64, alignment: u64)
    requires alignment > 0
    ensures var exact := alignment * CeilDiv(value, alignment);
            RoundUp(value, alignment) == if exact <= U64_MAX then Ok(exact) else Err(Overflow)
  {
    var q := value / alignment;
    assert value == alignment * q + value % alignment;
    Distribute(alignment, q, 1);
    var k := if value % alignment == 0 then q else q + 1;
    CeilIsUnique(k, CeilDiv(value, alignment), value, alignment);
  }

  /** The remainder's share that the first `r` ranks hold. */
  function Boundary(world: nat, remainder: nat, r: nat): nat
    requires world > 0
  {
    CeilDiv(r * remainder, world)
  }

  function LogicalRankFrontier(width: u64, world: u32, rank: u32): Result<int, Error> {
    if world == 0 || rank >= world then Err(InvalidRank) else
      var remainder := width % world;
      Ok(width / world + Boundary(world, remainder, rank + 1) - Boundary(world, remainder, rank))
  }

  lemma BoundaryStep(world: nat, remainder: nat, r: nat)
    requires remainder < world
    ensures 0 <= Boundary(world, remainder, r + 1) - Boundary(world, remainder, r) <= 1
  {
    var lower, upper := Boundary(world, remainder, r), Boundary(world, remainder, r + 1);
    Distribute(remainder, r, 1);
    assert (r + 1) * remainder == r * remainder + remainder;
    if upper < lower {
      Monotone(world, upper, lower - 1);
      Distribute(world, lower, -1);
    }
    if upper > lower + 1 {
      Monotone(world, lower + 1, upper - 1);
      Distribute(world, lower, 1);
      Distribute(world, upper, -1);
    }
  }

  lemma BoundaryAtMost(world: nat, remainder: nat, r: nat)
    requires 0 < world && r <= world
    ensures Boundary(world, remainder, r) <= remainder
  {
    var k := Boundary(world, remainder, r);
    Monotone(remainder, r, world);
    if k > remainder {
      Monotone(world, remainder, k - 1);
      Distribute(world, k, -1);
    }
  }

  /** Every 64-bit step of a rank's share fits. */
  lemma ShareStepsFit(width: u64, world: u32, rank: u32)
    requires rank < world
    ensures (rank + 1) * (width % world) <= U64_MAX
    ensures width / world + Boundary(world, width % world, rank + 1) <= width
  {
    var q, remainder := width / world, width % world;
    Monotone(rank + 1, remainder, U32_MAX);
    Monotone(U32_MAX, rank + 1, U32_MAX);
    BoundaryAtMost(world, remainder, rank + 1);
    Monotone(q, 1, world);
    assert width == world * q + remainder;
  }

  /** A share is the width divided by the world, rounded up or down. */
  lemma ShareIsEven(width: u64, world: u32, rank: u32)
    requires rank < world
    ensures LogicalRankFrontier(width, world, rank).Ok?
    ensures width / world <= LogicalRankFrontier(width, world, rank).value <= CeilDiv(width, world)
  {
    BoundaryStep(world, width % world, rank);
    WidthCeil(width, world);
    if width % world == 0 {
      ZeroBoundary(world, rank);
      ZeroBoundary(world, rank + 1);
    }
  }

  lemma WidthCeil(width: nat, world: nat)
    requires world > 0
    ensures CeilDiv(width, world) == width / world + if width % world == 0 then 0 else 1
  {
    assert width == world * (width / world) + width % world;
    CeilOfParts(width / world, width % world, world);
  }

  lemma ZeroBoundary(world: nat, r: nat)
    requires world > 0
    ensures Boundary(world, 0, r) == 0
  {
    CeilIsUnique(0, Boundary(world, 0, r), 0, world);
  }

  lemma CeilOfParts(q: nat, n: nat, d: nat)
    requires n < d
    ensures CeilDiv(d * q + n, d) == if n == 0 then q else q + 1
  {
    Distribute(d, q, 1);
    CeilIsUnique(CeilDiv(d * q + n, d), if n == 0 then q else q + 1, d * q + n, d);
  }

  /** What the first `ranks` ranks hold together. */
  ghost function Shares(width: u64, world: u32, ranks: nat): int
    requires ranks <= world
  {
    if ranks == 0 then 0 else Shares(width, world, ranks - 1) + LogicalRankFrontier(width, world, ranks - 1).value
  }

  /** The width times k over the world, rounded up. */
  ghost function Cut(width: nat, world: nat, k: nat): nat
    requires world > 0
  {
    CeilDiv(k * width, world)
  }

  lemma ShareIsBetweenCuts(width: u64, world: u32, rank: u32)
    requires rank < world
    ensures LogicalRankFrontier(width, world, rank).value == Cut(width, world, rank + 1) - Cut(width, world, rank)
  {
    ProportionalCeil(width, world, rank);
    ProportionalCeil(width, world, rank + 1);
    assert (rank + 1) * (width / world) == rank * (width / world) + width / world;
  }

  lemma CutEnds(width: nat, world: nat)
    requires world > 0
    ensures Cut(width, world, 0) == 0 && Cut(width, world, world) == width
  {
    CeilIsUnique(0, Cut(width, world, 0), 0, world);
    CeilIsUnique(width, Cut(width, world, world), world * width, world);
  }

  /** The first k ranks hold the width times k over the world, rounded up: all ranks hold the width. */
  lemma {:induction false} SharesAreProportional(width: u64, world: u32, ranks: nat)
    requires 0 < world && ranks <= world
    ensures Shares(width, world, ranks) == Cut(width, world, ranks)
    ensures ranks == world ==> Shares(width, world, ranks) == width
    decreases ranks
  {
    CutEnds(width, world);
    if ranks > 0 {
      SharesAreProportional(width, world, ranks - 1);
      ShareIsBetweenCuts(width, world, ranks - 1);
    }
  }

  lemma ProportionalCeil(width: nat, world: nat, ranks: nat)
    requires world > 0
    ensures ranks * (width / world) + Boundary(world, width % world, ranks) == CeilDiv(ranks * width, world)
  {
    var q, rest := width / world, width % world;
    ShiftCeil(ranks * q, ranks * rest, Boundary(world, rest, ranks), world);
    SplitMultiple(ranks, world, q, rest);
    assert width == world * q + rest;
    CeilIsUnique(ranks * q + Boundary(world, rest, ranks), CeilDiv(ranks * width, world), ranks * width, world);
  }

  lemma SplitMultiple(ranks: nat, world: nat, q: nat, rest: nat)
    ensures ranks * (world * q + rest) == world * (ranks * q) + ranks * rest
  {
    Distribute(ranks, world * q, rest);
    assert ranks * (world * q) == world * (ranks * q);
  }

  datatype Config = Config(width: u64, world: u32, shards: u32, alignment: u32)

  function BeamAlignment(c: Config): Result<u64, Error> {
    DomainsFit(c.world, c.shards);
    CheckedProduct(c.world * c.shards, c.alignment)
  }

  lemma DomainsFit(world: u32, shards: u32)
    ensures world * shards <= U64_MAX
  {
    Monotone(world, shards, U32_MAX);
    Monotone(U32_MAX, world, U32_MAX);
    assert U32_MAX * U32_MAX <= U64_MAX;
  }

  function AlignedWidth(c: Config): Result<u64, Error> {
    var alignment := BeamAlignment(c);
    if alignment.Err? then alignment else RoundUp(c.width, alignment.value)
  }

  function CeilDivChecked(n: u64, d: u64): Result<u64, Error> {
    if d == 0 then Err(ZeroDenominator) else
      CeilDivFits(n, d);
      Ok(CeilDiv(n, d))
  }

  lemma CeilDivFits(n: nat, d: nat)
    requires d > 0
    ensures 0 <= CeilDiv(n, d) <= n
  {
    var k := CeilDiv(n, d);
    if k > n {
      Monotone(d, n, k - 1);
      Distribute(d, k, -1);
      Monotone(n, 1, d);
    }
  }

  function LocalFrontierCapacity(c: Config): Result<u64, Error> {
    var aligned := AlignedWidth(c);
    if aligned.Err? then aligned else CeilDivChecked(aligned.value, c.world)
  }

  function LogicalShardSize(c: Config): Result<u64, Error> {
    var local := LocalFrontierCapacity(c);
    if local.Err? then local else CeilDivChecked(local.value, c.shards)
  }

  /** A rank's share of the logical beam always fits the storage planned for a rank. */
  lemma SharesFitTheirRank(c: Config, rank: u32)
    requires LocalFrontierCapacity(c).Ok? && rank < c.world
    ensures 0 <= LogicalRankFrontier(c.width, c.world, rank).value <= LocalFrontierCapacity(c).value
  {
    ShareIsEven(c.width, c.world, rank);
    AlignedFacts(c);
    CeilGrows(c.width, AlignedWidth(c).value, c.world);
  }

  lemma CeilGrows(m: nat, n: nat, d: nat)
    requires 0 < d && m <= n
    ensures CeilDiv(m, d) <= CeilDiv(n, d)
  {
    var j, k := CeilDiv(m, d), CeilDiv(n, d);
    if j > k {
      Monotone(d, k, j - 1);
      Distribute(d, j, -1);
    }
  }

  /** The aligned width is the width rounded up to whole shards of whole batches. */
  lemma AlignedFacts(c: Config)
    requires AlignedWidth(c).Ok?
    ensures c.width <= AlignedWidth(c).value
    ensures BeamAlignment(c) == Ok(c.world * c.shards * c.alignment)
    ensures AlignedWidth(c).value ==
            if c.world * c.shards * c.alignment == 0 then c.width
            else c.world * c.shards * c.alignment * CeilDiv(c.width, c.world * c.shards * c.alignment)
  {
    var alignment := BeamAlignment(c).value;
    if alignment > 0 {
      RoundUpIsLeastMultiple(c.width, alignment);
    }
  }

  /** The shards of all ranks together always hold the aligned width, and hold exactly it when and only
      when the batch alignment is set or the width divides evenly. */
  lemma ShardsHoldTheWidthExactly(c: Config)
    requires LogicalShardSize(c).Ok?
    ensures c.world * c.shards > 0
    ensures AlignedWidth(c).value <= c.world * c.shards * LogicalShardSize(c).value
    ensures c.world * c.shards * LogicalShardSize(c).value == AlignedWidth(c).value
            <==> c.alignment != 0 || c.width % (c.world * c.shards) == 0
  {
    var aligned, local, shard := AlignedWidth(c).value, LocalFrontierCapacity(c).value, LogicalShardSize(c).value;
    var domains := c.world * c.shards;
    Monotone(c.world, 1, c.shards);
    NestedCeil(aligned, c.world, c.shards);
    AlignedFacts(c);
    ExactCeil(aligned, domains);
    if c.alignment != 0 {
      AlignedIsMultiple(domains, c.alignment, CeilDiv(c.width, domains * c.alignment));
    } else {
      assert domains * c.alignment == 0;
    }
  }

  /** Splitting by rank and then by shard is splitting by all shards at once. */
  lemma NestedCeil(n: nat, world: nat, shards: nat)
    requires world > 0 && shards > 0 && world * shards > 0
    ensures CeilDiv(CeilDiv(n, world), shards) == CeilDiv(n, world * shards)
  {
    var local := CeilDiv(n, world);
    var k := CeilDiv(local, shards);
    NestedBounds(n, world, shards, local, k);
    CeilIsUnique(k, CeilDiv(n, world * shards), n, world * shards);
  }

  lemma NestedBounds(n: nat, world: nat, shards: nat, local: nat, k: nat)
    requires world > 0 && shards > 0 && IsCeil(local, n, world) && IsCeil(k, local, shards)
    ensures IsCeil(k, n, world * shards)
  {
    Monotone(world, local, shards * k);
    assert world * (shards * k) == (world * shards) * k;
    Monotone(world, shards * k - shards, local - 1);
    Distribute(world, shards * k - shards, shards);
    Distribute(world, local, -1);
  }

  lemma ExactCeil(n: nat, d: nat)
    requires d > 0
    ensures d * CeilDiv(n, d) == n <==> n % d == 0
  {
    var q := n / d;
    assert n == d * q + n % d;
    CeilOfParts(q, n % d, d);
    Distribute(d, q, 1);
  }

  lemma AlignedIsMultiple(domains: nat, alignment: nat, k: nat)
    requires domains > 0
    ensures domains * alignment * k % domains == 0
  {
    assert domains * alignment * k == domains * (alignment * k);
    var q := alignment * k;
    var n := domains * q;
    assert n == domains * (n / domains) + n % domains;
    Distribute(domains, q, -(n / domains));
    SmallMultiple(domains, q - n / domains);
  }

  /** With a batch alignment set, as every built configuration has, the shards hold exactly the aligned width. */
  lemma AlignedShardsAreExact(c: Config)
    requires LogicalShardSize(c).Ok? && c.alignment > 0
    ensures c.world * c.shards * LogicalShardSize(c).value == AlignedWidth(c).value
  {
    ShardsHoldTheWidthExactly(c);
  }

  /** Without one, two ranks of one shard hold two places for a width of one. */
  lemma UnalignedShardsCanExceed(c: Config)
    requires c == Config(1, 2, 1, 0)
    ensures AlignedWidth(c) == Ok(1) && LogicalShardSize(c) == Ok(1)
    ensures c.world * c.shards * LogicalShardSize(c).value == 2
  {
    assert BeamAlignment(c) == Ok(0);
    CeilIsUnique(1, CeilDiv(1, 2), 1, 2);
    CeilIsUnique(1, CeilDiv(1, 1), 1, 1);
  }

  /** The sizes are refused exactly when there is no rank or no shard, or when the alignment or the width
      rounded up to it exceeds 64 bits. */
  lemma SizesAreRefusedExactly(c: Config)
    ensures var alignment := c.world * c.shards * c.alignment;
            LogicalShardSize(c).Err? <==>
              || c.world == 0 || c.shards == 0 || alignment > U64_MAX
              || (alignment > 0 && alignment * CeilDiv(c.width, alignment) > U64_MAX)
    ensures LogicalShardSize(c) == Err(ZeroDenominator) <==> c.world == 0 || c.shards == 0
  {
    var alignment := c.world * c.shards * c.alignment;
    if c.world == 0 || c.shards == 0 {
      assert c.world * c.shards == 0;
    }
    if 0 < alignment <= U64_MAX {
      RoundUpIsLeastMultiple(c.width, alignment);
    }
  }

  // ---- the results in numbers ----

  /** Scaling by parts per million: the least number whose million-fold reaches the product, refused exactly
      when no 64-bit number does. */
  lemma ScaledInNumbers(value: u64, ppm: u64)
    ensures ScaledRoundUp(value, ppm).Ok? ==>
              var r := ScaledRoundUp(value, ppm).value;
              1000000 * r - 1000000 < value * ppm <= 1000000 * r
    ensures ScaledRoundUp(value, ppm).Err? <==> value * ppm > 1000000 * 18446744073709551615
  {
    ScaledRoundUpIsExact(value, ppm);
    var product, exact := value * ppm, CeilDiv(value * ppm, SCALE);
    assert 1000000 * exact - 1000000 < product <= 1000000 * exact;
  }

  lemma RoundedInNumbers(value: u64, alignment: u64)
    ensures alignment == 0 ==> RoundUp(value, alignment) == Ok(value)
    ensures alignment > 0 && RoundUp(value, alignment).Ok? ==>
              var r := RoundUp(value, alignment).value;
              value <= r < value + alignment && r % alignment == 0
    ensures RoundUp(value, alignment).Err? <==>
              alignment > 0 && value % alignment != 0 && value - value % alignment + alignment > 18446744073709551615
  {
    if alignment > 0 && RoundUp(value, alignment).Ok? {
      RoundUpIsLeastMultiple(value, alignment);
      var k := CeilDiv(value, alignment);
      MultipleIsDivisible(alignment, k);
    }
  }

  lemma MultipleIsDivisible(d: nat, k: nat)
    requires d > 0
    ensures (d * k) % d == 0
  {
    AlignedIsMultiple(d, 1, k);
    assert d * 1 * k == d * k;
  }

  /** The first ranks together hold their part of the width, rounded up; all of them hold it all; each share is
      the even one or one more. */
  lemma SharesInNumbers(width: u64, world: u32, ranks: nat)
    requires 0 < world && ranks <= world
    ensures world * Shares(width, world, ranks) - world < ranks * width <= world * Shares(width, world, ranks)
    ensures ranks == world ==> Shares(width, world, ranks) == width
    ensures ranks < world ==>
              var share := LogicalRankFrontier(width, world, ranks);
              && share.Ok? && width / world <= share.value <= width / world + 1
              && Shares(width, world, ranks + 1) == Shares(width, world, ranks) + share.value
  {
    SharesAreProportional(width, world, ranks);
    if ranks < world {
      ShareIsEven(width, world, ranks);
      WidthCeil(width, world);
    }
  }

  /** The aligned width is the least multiple of the alignment at or above the width, a rank's capacity its even
      part rounded up, a shard's size the even part of that rounded up. */
  lemma SizesInNumbers(c: Config)
    requires LogicalShardSize(c).Ok?
    ensures var alignment, aligned := c.world * c.shards * c.alignment, AlignedWidth(c);
            && aligned.Ok?
            && (alignment == 0 ==> aligned.value == c.width)
            && (alignment > 0 ==> c.width <= aligned.value < c.width + alignment && aligned.value % alignment == 0)
    ensures var aligned, local := AlignedWidth(c).value, LocalFrontierCapacity(c);
            local.Ok? && c.world * local.value - c.world < aligned <= c.world * local.value
    ensures var local, shard := LocalFrontierCapacity(c).value, LogicalShardSize(c).value;
            c.shards * shard - c.shards < local <= c.shards * shard
  {
    AlignedFacts(c);
    RoundedInNumbers(c.width, BeamAlignment(c).value);
  }
}
