/** The survivors of every depth, and the path that leads to a solution (src/history.cpp). */
module HistoryPath {
  import opened Candidates
  import opened FrontierCpu
  import opened Wrappers

  datatype Path = Path(moves: seq<u8>, parents: seq<u64>)

  datatype Error = DepthOutOfRange | ParentOutOfRange

  /** The path to `meta` at `depth`: its parent's path, then its own move. */
  function PathTo(depths: seq<seq<Candidate>>, meta: Candidate, depth: nat): (r: Option<Path>)
    requires depth <= |depths| + 1
    ensures r.Some? ==> |r.value.moves| == |r.value.parents| == depth
    decreases depth
  {
    if depth == 0 then Some(Path([], []))
    else if depth == 1 then Some(Path([UnpackMove(meta.route)], [meta.parent]))
    else if meta.parent >= |depths[depth - 2]| then None
    else
      match PathTo(depths, depths[depth - 2][meta.parent], depth - 1)
      case None => None
      case Some(p) => Some(Path(p.moves + [UnpackMove(meta.route)], p.parents + [meta.parent]))
  }

  /** A path without recursion: its last step is the entry's own, and every earlier parent index names the
      survivor, of the depth before, whose move and parent stand one place earlier. */
  ghost predicate IsPath(depths: seq<seq<Candidate>>, meta: Candidate, depth: nat, p: Path)
    requires depth <= |depths| + 1
  {
    && |p.moves| == |p.parents| == depth
    && (depth > 0 ==> p.moves[depth - 1] == meta.route % 256 && p.parents[depth - 1] == meta.parent)
    && forall k :: 0 <= k < depth - 1 ==> StepOfPath(depths[k], p, k)
  }

  ghost predicate StepOfPath(survivors: seq<Candidate>, p: Path, k: nat) {
    && k + 1 < |p.moves| == |p.parents| && p.parents[k + 1] < |survivors|
    && p.moves[k] == survivors[p.parents[k + 1]].route % 256 && p.parents[k] == survivors[p.parents[k + 1]].parent
  }

  lemma {:induction false} PathToIsPath(depths: seq<seq<Candidate>>, meta: Candidate, depth: nat)
    requires depth <= |depths| + 1 && PathTo(depths, meta, depth).Some?
    ensures IsPath(depths, meta, depth, PathTo(depths, meta, depth).value)
    decreases depth
  {
    var p := PathTo(depths, meta, depth).value;
    if depth > 1 {
      var parent := depths[depth - 2][meta.parent];
      PathToIsPath(depths, parent, depth - 1);
      var front := PathTo(depths, parent, depth - 1).value;
      forall k | 0 <= k < depth - 1 ensures StepOfPath(depths[k], p, k) {
        assert k < depth - 2 ==> StepOfPath(depths[k], front, k);
      }
    }
  }

  lemma {:induction false} PathIsPathTo(depths: seq<seq<Candidate>>, meta: Candidate, depth: nat, p: Path)
    requires depth <= |depths| + 1 && IsPath(depths, meta, depth, p)
    ensures PathTo(depths, meta, depth) == Some(p)
    decreases depth
  {
    if depth == 0 {
      assert p == Path([], []);
    } else if depth == 1 {
      assert p == Path([UnpackMove(meta.route)], [meta.parent]);
    } else {
      var last := depth - 2;
      assert StepOfPath(depths[last], p, last);
      var parent := depths[last][meta.parent];
      var front := Path(p.moves[..depth - 1], p.parents[..depth - 1]);
      forall k | 0 <= k < depth - 2 ensures StepOfPath(depths[k], front, k) {
        assert StepOfPath(depths[k], p, k);
      }
      PathIsPathTo(depths, parent, depth - 1, front);
      assert p.moves == front.moves + [UnpackMove(meta.route)] && p.parents == front.parents + [meta.parent];
    }
  }

  class CpuHistoryStore {
    var depths: seq<seq<Candidate>>

    constructor ()
      ensures depths == []
    {
      depths := [];
    }

    method Clear()
      modifies this
      ensures depths == []
    {
      depths := [];
    }

    method AppendDepth(meta: seq<Candidate>)
      modifies this
      ensures depths == old(depths) + [meta]
    {
      depths := depths + [meta];
    }

    /** Walks a cursor back from the solved entry, filling the path from its end. */
    method ReconstructSolution(solved: Candidate, solvedDepth: u32) returns (r: Result<Path, Error>)
      ensures solvedDepth > |depths| + 1 ==> r == Err(DepthOutOfRange)
      ensures solvedDepth <= |depths| + 1 ==>
                r == match PathTo(depths, solved, solvedDepth) case Some(p) => Ok(p) case None => Err(ParentOutOfRange)
      ensures r.Ok? ==> IsPath(depths, solved, solvedDepth, r.value)
      ensures r == Err(ParentOutOfRange) ==>
                solvedDepth <= |depths| + 1 && forall p :: !IsPath(depths, solved, solvedDepth, p)
    {
      r := WalkBack(solved, solvedDepth);
      if r.Ok? {
        PathToIsPath(depths, solved, solvedDepth);
      } else if r.error.ParentOutOfRange? {
        forall p | IsPath(depths, solved, solvedDepth, p) ensures false {
          PathIsPathTo(depths, solved, solvedDepth, p);
        }
      }
    }

    method WalkBack(solved: Candidate, solvedDepth: u32) returns (r: Result<Path, Error>)
      ensures solvedDepth > |depths| + 1 ==> r == Err(DepthOutOfRange)
      ensures solvedDepth <= |depths| + 1 ==>
                r == match PathTo(depths, solved, solvedDepth) case Some(p) => Ok(p) case None => Err(ParentOutOfRange)
    {
      if solvedDepth > |depths| + 1 {
        return Err(DepthOutOfRange);
      }
      var moves: seq<u8> := seq(solvedDepth, _ => 0);
      var parents: seq<u64> := seq(solvedDepth, _ => 0);
      var cursor, parent := solved, solved.parent;
      var depth: nat := solvedDepth;
      assert moves[depth..] == [] && parents[depth..] == [];
      ExtendedByNothing(PathTo(depths, solved, solvedDepth));
      while depth > 0
        invariant depth <= solvedDepth && |moves| == |parents| == solvedDepth && parent == cursor.parent
        invariant solvedDepth > 0 ==> depth > 0
        invariant PathTo(depths, solved, solvedDepth)
               == Extended(PathTo(depths, cursor, depth), Path(moves[depth..], parents[depth..]))
      {
        var out := depth - 1;
        ghost var tail := Path(moves[depth..], parents[depth..]);
        moves := moves[out := UnpackMove(cursor.route)];
        parents := parents[out := parent];
        assert moves[out..] == [UnpackMove(cursor.route)] + tail.moves;
        assert parents[out..] == [parent] + tail.parents;
        if out == 0 {
          assert moves[0..] == moves && parents[0..] == parents;
          break;
        }
        if parent >= |depths[out - 1]| {
          return Err(ParentOutOfRange);
        }
        ExtendedStep(PathTo(depths, depths[out - 1][parent], out), UnpackMove(cursor.route), parent, tail);
        cursor := depths[out - 1][parent];
        parent := cursor.parent;
        depth := out;
      }
      return Ok(Path(moves, parents));
    }
  }

  /** What the loop still has to prepend before the part it has already written. */
  ghost function Extended(head: Option<Path>, tail: Path): Option<Path> {
    match head
    case None => None
    case Some(p) => Some(Path(p.moves + tail.moves, p.parents + tail.parents))
  }

  lemma ExtendedByNothing(head: Option<Path>)
    ensures Extended(head, Path([], [])) == head
  {
    if head.Some? {
      assert head.value.moves + [] == head.value.moves && head.value.parents + [] == head.value.parents;
    }
  }

  lemma ExtendedStep(head: Option<Path>, move: u8, parent: u64, tail: Path)
    ensures Extended(match head case None => None
                     case Some(p) => Some(Path(p.moves + [move], p.parents + [parent])), tail)
         == Extended(head, Path([move] + tail.moves, [parent] + tail.parents))
  {
    if head.Some? {
      assert head.value.moves + [move] + tail.moves == head.value.moves + ([move] + tail.moves);
      assert head.value.parents + [parent] + tail.parents == head.value.parents + ([parent] + tail.parents);
    }
  }

  /** Repeatedly apply moves, clearing the padding after each. */
  function Replay(pz: Puzzle, start: Cells, moves: seq<u8>): (end: Cells)
    requires pz.Valid() && pz.Fits(start) && forall i :: 0 <= i < |moves| ==> moves[i] < |pz.generators|
    ensures pz.Fits(end)
  {
    if moves == [] then start
    else pz.Child(Replay(pz, start, moves[..|moves| - 1]), moves[|moves| - 1])
  }

  /** A run of reference depths: frontiers[k + 1] was materialised from frontiers[k] by the survivors stored
      as depths[k]. */
  ghost predicate Searched(pz: Puzzle, frontiers: seq<seq<Cells>>, depths: seq<seq<Candidate>>)
    requires pz.Valid()
  {
    && |frontiers| == |depths| + 1
    && (forall k :: 0 <= k < |frontiers| ==> pz.AllFit(frontiers[k]))
    && forall k :: 0 <= k < |depths| ==> Materialised(pz, frontiers[k], depths[k], frontiers[k + 1])
  }

  /** `path` really leads from the initial frontier to `state`. */
  ghost predicate Reaches(pz: Puzzle, initial: seq<Cells>, path: Path, state: Cells)
    requires pz.Valid() && pz.AllFit(initial)
  {
    && path.parents != [] && path.parents[0] < |initial|
    && (forall i :: 0 <= i < |path.moves| ==> path.moves[i] < |pz.generators|)
    && Replay(pz, initial[path.parents[0]], path.moves) == state
  }

  lemma LongerPathIsReal(pz: Puzzle, initial: seq<Cells>, p: Path, state: Cells, move: u8, parent: u64)
    requires pz.Valid() && pz.AllFit(initial) && Reaches(pz, initial, p, state) && move < |pz.generators|
    ensures Reaches(pz, initial, Path(p.moves + [move], p.parents + [parent]), pz.Child(state, move))
  {
    assert (p.moves + [move])[..|p.moves|] == p.moves;
    assert (p.parents + [parent])[0] == p.parents[0];
  }

  /** After any number of depths, the reconstructed path of any child of the last frontiers, stored or just
      generated, has its depth as length and replays from the initial frontier to that child. */
  lemma {:induction false} ReconstructedPathIsReal(pz: Puzzle, frontiers: seq<seq<Cells>>, depths: seq<seq<Candidate>>,
                                                   meta: Candidate, depth: nat)
    requires pz.Valid() && Searched(pz, frontiers, depths) && 0 < depth <= |depths| + 1
    requires meta.parent < |frontiers[depth - 1]| && UnpackMove(meta.route) < |pz.generators|
    ensures var r := PathTo(depths, meta, depth);
            && r.Some? && |r.value.moves| == depth
            && Reaches(pz, frontiers[0], r.value, pz.Child(frontiers[depth - 1][meta.parent], UnpackMove(meta.route)))
    decreases depth
  {
    var move := UnpackMove(meta.route);
    if depth == 1 {
      FirstMoveIsReal(pz, frontiers[0], meta.parent, move);
    } else {
      var before := depth - 2;
      assert Materialised(pz, frontiers[before], depths[before], frontiers[before + 1]);
      var parent := depths[before][meta.parent];
      ReconstructedPathIsReal(pz, frontiers, depths, parent, depth - 1);
      LongerPathIsReal(pz, frontiers[0], PathTo(depths, parent, depth - 1).value,
                       frontiers[depth - 1][meta.parent], move, meta.parent);
    }
  }

  lemma FirstMoveIsReal(pz: Puzzle, initial: seq<Cells>, parent: u64, move: u8)
    requires pz.Valid() && pz.AllFit(initial) && parent < |initial| && move < |pz.generators|
    ensures Reaches(pz, initial, Path([move], [parent]), pz.Child(initial[parent], move))
  {
    assert [move][..0] == [];
    assert Replay(pz, initial[parent], [move]) == pz.Child(Replay(pz, initial[parent], []), move);
  }

  /** A stored survivor's path replays to exactly the state materialised for it. */
  lemma SurvivorPathIsReal(pz: Puzzle, frontiers: seq<seq<Cells>>, depths: seq<seq<Candidate>>, depth: nat, i: nat)
    requires pz.Valid() && Searched(pz, frontiers, depths) && 0 < depth <= |depths| && i < |depths[depth - 1]|
    ensures var r := PathTo(depths, depths[depth - 1][i], depth);
            && r.Some? && |r.value.moves| == depth
            && Reaches(pz, frontiers[0], r.value, frontiers[depth][i])
  {
    var before := depth - 1;
    assert Materialised(pz, frontiers[before], depths[before], frontiers[before + 1]);
    ReconstructedPathIsReal(pz, frontiers, depths, depths[depth - 1][i], depth);
  }
}
