/** What a frontier is, as sets: the best candidate of every hash, cut by a threshold or to the top B. */
module Frontier {
  import opened Candidates
  import opened Sets
  import Sorting

  /** One representative per hash: the candidates no other candidate of the same hash beats. */
  ghost function Best(S: set<Candidate>): set<Candidate> {
    set c | c in S && forall d :: d in S && d.hash == c.hash ==> !Better(d, c)
  }

  ghost function AtMost(S: set<Candidate>, threshold: int): set<Candidate> {
    set c | c in S && c.score <= threshold
  }

  ghost function HashesAtMost(S: set<Candidate>, threshold: int): set<Hash128> {
    set c | c in S && c.score <= threshold :: c.hash
  }

  /** A physical bank: strictly increasing hashes, so one entry per hash. */
  ghost predicate IsBank(s: seq<Candidate>) {
    forall i, j :: 0 <= i < j < |s| ==> HashLess(s[i].hash, s[j].hash)
  }

  ghost predicate UniqueHashes(S: set<Candidate>) {
    forall c, d :: c in S && d in S && c.hash == d.hash ==> c == d
  }

  /** Every candidate is matched or beaten by the representative of its hash. */
  lemma {:induction false} BestCovers(S: set<Candidate>, c: Candidate) returns (b: Candidate)
    requires c in S
    ensures b in Best(S) && b.hash == c.hash && (b == c || Better(b, c))
    decreases |S|
  {
    if c in Best(S) {
      b := c;
    } else {
      var d :| d in S && d.hash == c.hash && Better(d, c);
      b := BestCovers(S - {c}, d);
      assert S == S - {c} + {c};
    }
  }

  lemma BestIsUnique(S: set<Candidate>)
    ensures UniqueHashes(Best(S)) && Best(S) <= S
  {
    forall c, d | c in Best(S) && d in Best(S) && c.hash == d.hash ensures c == d {
      assert !Better(c, d) && !Better(d, c);
    }
  }

  /** Deduplicating a batch early, and again after more candidates arrive, changes nothing. */
  lemma BestAbsorbs(A: set<Candidate>, B: set<Candidate>)
    ensures Best(Best(A) + B) == Best(A + B)
  {
    forall c, d | c in Best(Best(A) + B) && d in A + B && d.hash == c.hash ensures !Better(d, c) {
      if d in A {
        var e := BestCovers(A, d);
        assert e in Best(A) + B;
      }
    }
  }

  lemma BestIdempotent(A: set<Candidate>)
    ensures Best(Best(A)) == Best(A)
  {
    BestAbsorbs(A, {});
    assert Best(A) + {} == Best(A) && A + {} == A;
  }

  /** The score leads the quality order, so thresholding commutes with deduplication. */
  lemma BestOfThreshold(A: set<Candidate>, t: int)
    ensures Best(AtMost(A, t)) == AtMost(Best(A), t)
  {
  }

  predicate BankLess(a: Candidate, b: Candidate) {
    HashLess(a.hash, b.hash)
  }

  lemma BankIsDeterminedByElements(a: seq<Candidate>, b: seq<Candidate>)
    requires IsBank(a) && IsBank(b) && Elems(a) == Elems(b)
    ensures a == b
  {
    assert forall c :: c in a <==> c in Elems(a);
    assert forall c :: c in b <==> c in Elems(b);
    assert forall i, j :: 0 <= i < j < |a| ==> BankLess(a[i], a[j]);
    assert forall i, j :: 0 <= i < j < |b| ==> BankLess(b[i], b[j]);
    Sorting.IncreasingIsDetermined(a, b, BankLess);
  }

  // ---- the top B ----

  ghost function Beaters(S: set<Candidate>, c: Candidate): set<Candidate> {
    set d | d in S && Better(d, c)
  }

  /** The candidates that fewer than `beam` others beat. */
  ghost function TopB(S: set<Candidate>, beam: nat): set<Candidate> {
    set c | c in S && |Beaters(S, c)| < beam
  }

  /** Any two candidates can be told apart by (score, parent, route). */
  ghost predicate Ranked(S: set<Candidate>) {
    forall c, d :: c in S && d in S && c != d ==> Better(c, d) || Better(d, c)
  }

  ghost predicate RankedSequence(s: seq<Candidate>) {
    forall i, j :: 0 <= i < j < |s| ==> Better(s[i], s[j])
  }

  /** The frontier a depth should produce: the best candidate per hash, best first, cut to the beam. */
  ghost predicate IsTopFrontier(S: set<Candidate>, beam: nat, out: seq<Candidate>) {
    RankedSequence(out) && Elems(out) == TopB(Best(S), beam)
  }

  /** Truncating the ranked sequence of a set leaves exactly its top B. */
  lemma TruncationIsTopB(S: set<Candidate>, s: seq<Candidate>, beam: nat)
    requires RankedSequence(s) && Elems(s) == S
    ensures Elems(if |s| > beam then s[..beam] else s) == TopB(S, beam)
  {
    forall i | 0 <= i < |s| ensures |Beaters(S, s[i])| == i {
      assert Beaters(S, s[i]) == Elems(s[..i]) by {
        forall d | d in Beaters(S, s[i]) ensures d in s[..i] {
          var k :| 0 <= k < |s| && s[k] == d;
          assert k < i;
        }
        forall d | d in s[..i] ensures d in Beaters(S, s[i]) {
          var k :| 0 <= k < i && s[k] == d;
          assert d in Elems(s);
        }
      }
      RankedSize(s[..i]);
    }
    var cut := if |s| > beam then s[..beam] else s;
    forall c | c in TopB(S, beam) ensures c in cut {
      assert c in Elems(s);
      var i :| 0 <= i < |s| && s[i] == c;
      assert cut[i] == c;
    }
    forall c | c in cut ensures c in TopB(S, beam) {
      var i :| 0 <= i < |cut| && cut[i] == c;
      assert s[i] in Elems(s);
    }
  }

  lemma RankedSize(s: seq<Candidate>)
    requires RankedSequence(s)
    ensures |Elems(s)| == |s|
  {
    ElemsSize(s);
    assert Distinct(s);
  }

  lemma RankedSequenceIsDetermined(a: seq<Candidate>, b: seq<Candidate>)
    requires RankedSequence(a) && RankedSequence(b) && Elems(a) == Elems(b)
    ensures a == b
  {
    assert forall c :: c in a <==> c in Elems(a);
    assert forall c :: c in b <==> c in Elems(b);
    Sorting.IncreasingIsDetermined(a, b, Better);
  }

  // ---- thresholds ----

  /** Deduplication does not change which hashes have a candidate at or below a score. */
  lemma BestHashes(S: set<Candidate>, t: int)
    ensures HashesAtMost(Best(S), t) == HashesAtMost(S, t)
  {
    forall h | h in HashesAtMost(S, t) ensures h in HashesAtMost(Best(S), t) {
      var c :| c in S && c.score <= t && c.hash == h;
      var b := BestCovers(S, c);
    }
  }

  lemma {:induction false} UniqueCount(S: set<Candidate>, t: int)
    requires UniqueHashes(S)
    ensures |AtMost(S, t)| == |HashesAtMost(S, t)|
    decreases |S|
  {
    if c :| c in S {
      UniqueCount(S - {c}, t);
      RemoveOne(S, c, t);
    }
  }

  lemma RemoveOne(S: set<Candidate>, c: Candidate, t: int)
    requires UniqueHashes(S) && c in S
    ensures c.score <= t ==> |AtMost(S, t)| == |AtMost(S - {c}, t)| + 1
    ensures c.score <= t ==> |HashesAtMost(S, t)| == |HashesAtMost(S - {c}, t)| + 1
    ensures c.score > t ==> AtMost(S, t) == AtMost(S - {c}, t) && HashesAtMost(S, t) == HashesAtMost(S - {c}, t)
  {
    var R := S - {c};
    forall h | h in HashesAtMost(S, t) && (c.score > t || h != c.hash) ensures h in HashesAtMost(R, t) {
      var d :| d in S && d.score <= t && d.hash == h;
      assert d in R;
    }
    if c.score <= t {
      assert AtMost(S, t) == AtMost(R, t) + {c};
      assert HashesAtMost(S, t) == HashesAtMost(R, t) + {c.hash};
    } else {
      assert AtMost(S, t) == AtMost(R, t);
      assert HashesAtMost(S, t) == HashesAtMost(R, t);
    }
  }

  lemma HashesMonotone(S: set<Candidate>, S': set<Candidate>, t: int)
    requires S <= S'
    ensures HashesAtMost(S, t) <= HashesAtMost(S', t) && |HashesAtMost(S, t)| <= |HashesAtMost(S', t)|
  {
    SubsetSize(HashesAtMost(S, t), HashesAtMost(S', t));
  }

  /** A threshold is safe when the beam is already filled at or below it (or it lets everything through). */
  ghost predicate Safe(S: set<Candidate>, beam: nat, t: u32) {
    t == U32_MAX || beam <= |HashesAtMost(S, t)|
  }

  /** No safe threshold excludes a member of the true distinct top B. */
  lemma SafeKeepsTopB(S: set<Candidate>, beam: nat, t: u32, c: Candidate)
    requires Safe(S, beam, t) && c in TopB(Best(S), beam)
    ensures c.score <= t
  {
    if c.score > t {
      BestIsUnique(S);
      UniqueCount(Best(S), t);
      BestHashes(S, t);
      SubsetSize(AtMost(Best(S), t), Beaters(Best(S), c));
    }
  }

  /** Two candidate sets that agree up to a safe threshold have the same top B. */
  lemma TopBDependsOnSafePart(S: set<Candidate>, S': set<Candidate>, beam: nat, t: u32)
    requires Safe(S, beam, t)
    requires AtMost(Best(S), t) == AtMost(Best(S'), t)
    ensures TopB(Best(S), beam) == TopB(Best(S'), beam)
  {
    BestHashes(S, t);
    BestHashes(S', t);
    assert HashesAtMost(Best(S), t) == HashesAtMost(Best(S'), t) by {
      assert forall X, h :: h in HashesAtMost(X, t) <==> exists c :: c in AtMost(X, t) && c.hash == h;
    }
    forall c ensures c in TopB(Best(S), beam) <==> c in TopB(Best(S'), beam) {
      if c in TopB(Best(S), beam) {
        SafeKeepsTopB(S, beam, t, c);
      }
      if c in TopB(Best(S'), beam) {
        SafeKeepsTopB(S', beam, t, c);
      }
      if c.score <= t {
        assert Beaters(Best(S), c) == Beaters(AtMost(Best(S), t), c);
        assert Beaters(Best(S'), c) == Beaters(AtMost(Best(S'), t), c);
        assert c in Best(S) <==> c in AtMost(Best(S), t);
        assert c in Best(S') <==> c in AtMost(Best(S'), t);
      }
    }
  }

  // ---- the scores of a frontier ----

  /** The candidate that every other one beats. */
  lemma Worst(S: set<Candidate>) returns (w: Candidate)
    requires Ranked(S) && S != {}
    ensures w in S && forall c :: c in S && c != w ==> Better(c, w)
    decreases |S|
  {
    var c :| c in S;
    var rest := S - {c};
    assert S == rest + {c};
    if rest == {} {
      return c;
    }
    w := Worst(rest);
    if !Better(c, w) {
      assert Better(w, c);
      return c;
    }
  }

  lemma Arrange(S: set<Candidate>) returns (s: seq<Candidate>)
    requires Ranked(S)
    ensures RankedSequence(s) && Elems(s) == S
    decreases |S|
  {
    if S == {} {
      return [];
    }
    var w := Worst(S);
    var front := Arrange(S - {w});
    RankedSnoc(front, w);
    return front + [w];
  }

  lemma RankedSnoc(front: seq<Candidate>, w: Candidate)
    requires RankedSequence(front) && forall c :: c in Elems(front) ==> Better(c, w)
    ensures RankedSequence(front + [w]) && Elems(front + [w]) == Elems(front) + {w}
  {
    assert forall k :: 0 <= k < |front| ==> front[k] in Elems(front);
    ElemsSnoc(front, w);
  }

  lemma TopBSize(S: set<Candidate>, beam: nat)
    requires Ranked(S)
    ensures |TopB(S, beam)| == if |S| < beam then |S| else beam
  {
    var s := Arrange(S);
    TruncationIsTopB(S, s, beam);
    RankedSize(s);
    RankedSize(if |s| > beam then s[..beam] else s);
  }

  /** Up to any score the top B holds as many candidates as there are hashes, and at most B. */
  lemma TopBScores(S: set<Candidate>, beam: nat, t: int)
    requires Ranked(S)
    ensures |AtMost(TopB(Best(S), beam), t)| == if |HashesAtMost(S, t)| < beam then |HashesAtMost(S, t)| else beam
  {
    var low := AtMost(Best(S), t);
    assert AtMost(TopB(Best(S), beam), t) == TopB(low, beam) by {
      forall c | c in low ensures Beaters(Best(S), c) == Beaters(low, c) {
      }
    }
    TopBSize(low, beam);
    BestIsUnique(S);
    UniqueCount(Best(S), t);
    BestHashes(S, t);
  }

  /** Sequences in quality order that hold equally many candidates up to every score have the same scores. */
  lemma CountsGiveScores(a: seq<Candidate>, b: seq<Candidate>)
    requires RankedSequence(a) && RankedSequence(b)
    requires forall t :: |AtMost(Elems(a), t)| == |AtMost(Elems(b), t)|
    ensures |a| == |b| && forall i :: 0 <= i < |a| ==> a[i].score == b[i].score
  {
    assert AtMost(Elems(a), U32_MAX) == Elems(a) && AtMost(Elems(b), U32_MAX) == Elems(b);
    RankedSize(a);
    RankedSize(b);
    forall i | 0 <= i < |a| ensures a[i].score == b[i].score {
      ScoreNotAbove(a, b, i);
      ScoreNotAbove(b, a, i);
    }
  }

  lemma ScoreNotAbove(a: seq<Candidate>, b: seq<Candidate>, i: nat)
    requires RankedSequence(a) && RankedSequence(b) && i < |a| && i < |b|
    requires forall t :: |AtMost(Elems(a), t)| == |AtMost(Elems(b), t)|
    ensures b[i].score <= a[i].score
  {
    var t := a[i].score;
    if t < b[i].score {
      forall c | c in Elems(a[..i + 1]) ensures c in AtMost(Elems(a), t) {
        var k :| 0 <= k < i + 1 && a[k] == c;
      }
      forall c | c in AtMost(Elems(b), t) ensures c in Elems(b[..i]) {
        var k :| 0 <= k < |b| && b[k] == c;
        assert k < i;
        assert b[..i][k] == c;
      }
      RankedSize(a[..i + 1]);
      RankedSize(b[..i]);
      SubsetSize(Elems(a[..i + 1]), AtMost(Elems(a), t));
      SubsetSize(AtMost(Elems(b), t), Elems(b[..i]));
    }
  }

  // ---- banks and frontiers in numbers ----

  /** Strictly increasing hashes, read as 128-bit numbers. */
  ghost predicate IncreasingNumbers(s: seq<Candidate>) {
    forall i, j :: 0 <= i < j < |s| ==>
      s[i].hash.hi * 0x1_0000_0000_0000_0000 + s[i].hash.lo < s[j].hash.hi * 0x1_0000_0000_0000_0000 + s[j].hash.lo
  }

  lemma BankIsNumeric(s: seq<Candidate>)
    ensures IsBank(s) <==> IncreasingNumbers(s)
  {
    forall i, j | 0 <= i < j < |s|
      ensures HashLess(s[i].hash, s[j].hash) <==>
              s[i].hash.hi * 0x1_0000_0000_0000_0000 + s[i].hash.lo
              < s[j].hash.hi * 0x1_0000_0000_0000_0000 + s[j].hash.lo
    {
      HashOrderIsNumeric(s[i].hash, s[j].hash);
    }
  }

  /** `c` has the lowest place among the candidates of its hash. */
  ghost predicate LowestOfHash(S: set<Candidate>, c: Candidate) {
    c in S && forall d :: d in S && d.hash == c.hash ==> Place(c) <= Place(d)
  }

  lemma PlaceIsUnique(a: Candidate, b: Candidate)
    requires a.hash == b.hash && Place(a) == Place(b)
    ensures a == b
  {
    QualityIsNumeric(a, b);
    QualityIsNumeric(b, a);
  }

  lemma BestIsNumeric(S: set<Candidate>, c: Candidate)
    ensures c in Best(S) <==> LowestOfHash(S, c)
  {
    forall d | d in S && d.hash == c.hash ensures !Better(d, c) <==> Place(c) <= Place(d) {
      QualityIsNumeric(d, c);
    }
  }

  /** The frontier without sets of beaters: at most B candidates in increasing places, each the lowest of its
      hash; a hash is missing only when the frontier is full and ends before that hash's lowest place. */
  ghost predicate TopInNumbers(S: set<Candidate>, beam: nat, out: seq<Candidate>) {
    && |out| <= beam
    && (forall i, j :: 0 <= i < j < |out| ==> Place(out[i]) < Place(out[j]))
    && (forall i :: 0 <= i < |out| ==> LowestOfHash(S, out[i]))
    && forall c :: LowestOfHash(S, c) && c !in out ==>
         |out| == beam && forall i :: 0 <= i < |out| ==> Place(out[i]) < Place(c)
  }

  lemma RankedIsNumeric(s: seq<Candidate>)
    ensures RankedSequence(s) <==> forall i, j :: 0 <= i < j < |s| ==> Place(s[i]) < Place(s[j])
  {
    forall i, j | 0 <= i < j < |s| ensures Better(s[i], s[j]) <==> Place(s[i]) < Place(s[j]) {
      QualityIsNumeric(s[i], s[j]);
    }
  }

  /** The two definitions of a depth's frontier agree. */
  lemma TopFrontierIsNumeric(S: set<Candidate>, beam: nat, out: seq<Candidate>)
    requires Ranked(S)
    ensures IsTopFrontier(S, beam, out) <==> TopInNumbers(S, beam, out)
  {
    RankedIsNumeric(out);
    forall c ensures c in Best(S) <==> LowestOfHash(S, c) {
      BestIsNumeric(S, c);
    }
    if IsTopFrontier(S, beam, out) {
      TopIsCut(S, beam, out);
    }
    if TopInNumbers(S, beam, out) {
      CutIsTop(S, beam, out);
    }
  }

  lemma TopIsCut(S: set<Candidate>, beam: nat, out: seq<Candidate>)
    requires Ranked(S) && IsTopFrontier(S, beam, out)
    ensures |out| <= beam
    ensures forall c :: c in Best(S) && c !in out ==>
              |out| == beam && forall i :: 0 <= i < |out| ==> Place(out[i]) < Place(c)
    ensures forall i :: 0 <= i < |out| ==> out[i] in Best(S)
  {
    var s := Arrange(Best(S));
    var cut := if |s| > beam then s[..beam] else s;
    TruncationIsTopB(Best(S), s, beam);
    RankedSequenceIsDetermined(out, cut);
    assert forall i :: 0 <= i < |cut| ==> s[i] in out;
    forall i | 0 <= i < |out| ensures out[i] in Best(S) {
      assert out[i] in Elems(out);
    }
    forall c | c in Best(S) && c !in out
      ensures |out| == beam && forall i :: 0 <= i < |out| ==> Place(out[i]) < Place(c)
    {
      assert c in Elems(s);
      var k :| 0 <= k < |s| && s[k] == c;
      forall i | 0 <= i < |out| ensures Place(out[i]) < Place(c) {
        QualityIsNumeric(s[i], s[k]);
      }
    }
  }

  lemma CutIsTop(S: set<Candidate>, beam: nat, out: seq<Candidate>)
    requires Ranked(S) && TopInNumbers(S, beam, out)
    ensures IsTopFrontier(S, beam, out)
  {
    RankedIsNumeric(out);
    forall i | 0 <= i < |out| ensures out[i] in TopB(Best(S), beam) {
      BestIsNumeric(S, out[i]);
      forall b | b in Beaters(Best(S), out[i]) ensures b in Elems(out[..i]) {
        BestIsNumeric(S, b);
        QualityIsNumeric(b, out[i]);
        var k :| 0 <= k < |out| && out[k] == b;
        assert out[..i][k] == b;
      }
      SubsetSize(Beaters(Best(S), out[i]), Elems(out[..i]));
      ElemsSize(out[..i]);
    }
    forall c | c in TopB(Best(S), beam) ensures c in out {
      BestIsNumeric(S, c);
      if c !in out {
        forall i | 0 <= i < |out| ensures out[i] in Beaters(Best(S), c) {
          QualityIsNumeric(out[i], c);
          BestIsNumeric(S, out[i]);
        }
        RankedSize(out);
        SubsetSize(Elems(out), Beaters(Best(S), c));
      }
    }
  }
}
