/** Candidate records and the two orders on them (src/types.hpp, src/hash.cpp, src/stream4.cpp). */
module Candidates {
  type u8 = x: int | 0 <= x < 0x100
  type u16 = x: int | 0 <= x < 0x1_0000
  type u32 = x: int | 0 <= x < 0x1_0000_0000
  type u64 = x: int | 0 <= x < 0x1_0000_0000_0000_0000

  const U32_MAX: u32 := 0xFFFF_FFFF
  const U64_MAX: u64 := 0xFFFF_FFFF_FFFF_FFFF

  datatype Hash128 = Hash128(lo: u64, hi: u64)

  datatype Candidate = Candidate(hash: Hash128, parent: u64, score: u32, route: u32)

  predicate HashLess(a: Hash128, b: Hash128) {
    if a.hi != b.hi then a.hi < b.hi else a.lo < b.lo
  }

  /** Smaller score first, then smaller parent, then smaller packed route. */
  predicate Better(a: Candidate, b: Candidate) {
    if a.score != b.score then a.score < b.score
    else if a.parent != b.parent then a.parent < b.parent
    else a.route < b.route
  }

  /** The comparator Stream4 sorts with: by hash, ties by quality. */
  predicate MergeLess(a: Candidate, b: Candidate) {
    if a.hash != b.hash then HashLess(a.hash, b.hash) else Better(a, b)
  }

  function PackRoute(sourceRank: u16, owner: u8, move: u8): u32 {
    sourceRank * 0x1_0000 + owner * 0x100 + move
  }

  function UnpackSourceRank(route: u32): u16 {
    route / 0x1_0000
  }

  function UnpackOwner(route: u32): u8 {
    route / 0x100 % 0x100
  }

  function UnpackMove(route: u32): u8 {
    route % 0x100
  }

  /** Hashes compare as 128-bit numbers whose upper word is `hi`. */
  lemma HashOrderIsNumeric(a: Hash128, b: Hash128)
    ensures HashLess(a, b) <==>
            a.hi * 0x1_0000_0000_0000_0000 + a.lo < b.hi * 0x1_0000_0000_0000_0000 + b.lo
  {
  }

  /** A candidate's place in the quality order as one number: score, then parent, then packed route. */
  function Place(c: Candidate): nat {
    c.score * 0x1_0000_0000_0000_0000_0000_0000 + c.parent * 0x1_0000_0000 + c.route
  }

  lemma QualityIsNumeric(a: Candidate, b: Candidate)
    ensures Better(a, b) <==> Place(a) < Place(b)
    ensures Better(a, b) <==>
            || a.score < b.score
            || (a.score == b.score && a.parent < b.parent)
            || (a.score == b.score && a.parent == b.parent && a.route < b.route)
  {
  }

  /** A packed route is the number with the rank in the upper 16 bits, then owner and move in 8 bits each. */
  lemma RouteIsNumeric(sourceRank: u16, owner: u8, move: u8, route: u32)
    ensures PackRoute(sourceRank, owner, move) == sourceRank * 65536 + owner * 256 + move
    ensures UnpackMove(route) == route % 256 && UnpackOwner(route) == route / 256 % 256
    ensures UnpackSourceRank(route) == route / 65536
  {
  }

  /** A packed route gives back its three fields, and every 32-bit word is the packing of its fields. */
  lemma RouteRoundTrip(sourceRank: u16, owner: u8, move: u8, route: u32)
    ensures UnpackSourceRank(PackRoute(sourceRank, owner, move)) == sourceRank
    ensures UnpackOwner(PackRoute(sourceRank, owner, move)) == owner
    ensures UnpackMove(PackRoute(sourceRank, owner, move)) == move
    ensures PackRoute(UnpackSourceRank(route), UnpackOwner(route), UnpackMove(route)) == route
  {
    var packed := PackRoute(sourceRank, owner, move);
    assert packed / 0x100 == sourceRank * 0x100 + owner;
    assert packed / 0x1_0000 == sourceRank;
    assert route == route / 0x100 * 0x100 + route % 0x100;
    assert route / 0x100 == route / 0x100 / 0x100 * 0x100 + route / 0x100 % 0x100;
    assert route / 0x100 / 0x100 == route / 0x1_0000;
  }
}
