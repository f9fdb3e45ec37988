/** The serial anySCAN engine: the per-vertex classification state, the block
    driver `Summarize` and the `anySCAN` entry point. The disjoint set is
    represented by the sequence of `Union` calls made on it. */
module AnyScan {
  import opened GraphStore
  import opened Similarity
  import opened Classification

  class AnySCANGraph {
    const g: Graph
    const eps: Threshold
    const minU: int
    const codes: Codes
    const alphaBlockSize: int

    const vertexStatus: array<int>
    const epsNeighborNum: array<int>
    const epsNeighborhood: array<seq<int>>
    /** The `Union(u, w)` calls made on the disjoint set, in call order. */
    var unioned: seq<(int, int)>
    var checkingLst: seq<int>
    /** The vertex blocks [first, last] that `Summarize` has processed, in order. */
    ghost var blocks: seq<(nat, nat)>

    ghost predicate Valid() {
      vertexStatus.Length == g.n && epsNeighborNum.Length == g.n && epsNeighborhood.Length == g.n &&
      vertexStatus != epsNeighborNum && 2 <= alphaBlockSize
    }

    /** The state the constructor leaves. */
    ghost predicate Initial()
      reads this`unioned, vertexStatus, epsNeighborNum, epsNeighborhood
      requires Valid()
    {
      (forall v :: 0 <= v < g.n ==> vertexStatus[v] == codes.untouched) &&
      (forall v :: 0 <= v < g.n ==> epsNeighborNum[v] == 0) &&
      (forall v :: 0 <= v < g.n ==> epsNeighborhood[v] == []) &&
      unioned == []
    }

    /** The arrays after the blocks covering [0, lo) are processed (see `ClassifiedBelow`). */
    ghost predicate Classified(lo: int)
      reads vertexStatus, epsNeighborNum, epsNeighborhood
      requires Valid() && 0 <= lo <= g.n
    {
      ClassifiedBelow(g, eps, minU, codes, vertexStatus[..], epsNeighborNum[..], epsNeighborhood[..], lo)
    }

    /** Inside each block of `done`, a non-core reached by a core of the block is a border. */
    ghost predicate Bordered(done: seq<(nat, nat)>, lo: int)
      reads vertexStatus
      requires Valid() && 0 <= lo <= g.n
    {
      BlocksBordered(g, eps, minU, codes, vertexStatus[..], done, lo)
    }

    /** The state after the blocks covering [0, vBeg) are processed. */
    ghost predicate ProcessedBelow(vBeg: int)
      reads this`unioned, vertexStatus, epsNeighborNum, epsNeighborhood
      requires Valid() && 0 <= vBeg <= g.n
    {
      Classified(vBeg) && unioned == UnionLog(g, eps, minU, codes, vBeg)
    }

    /** What `Summarize` establishes. */
    ghost predicate Summarized()
      reads this`unioned, this`blocks, vertexStatus, epsNeighborNum, epsNeighborhood
      requires Valid()
    {
      // the blocks are those the boundary rule of lines 95-99 yields
      blocks == BlockSchedule(g.n, alphaBlockSize, codes.untouched, 0, 0, 0) &&
      // every vertex is classified (see `ClassifiedBelow`) and the union calls are all made
      ProcessedBelow(g.n) &&
      // inside each block, a non-core reached by a core of the block is a border
      BlocksBordered(g, eps, minU, codes, vertexStatus[..], blocks, g.n)
    }

    /** Lines 33-40, with the graph and parameters passed in instead of read. */
    constructor (g: Graph, eps: Threshold, minU: int, codes: Codes)
      ensures Valid() && Initial()
      ensures this.g == g && this.eps == eps && this.minU == minU && this.codes == codes
      ensures alphaBlockSize == 32768 && checkingLst == [] && blocks == []
      ensures fresh(vertexStatus) && fresh(epsNeighborNum) && fresh(epsNeighborhood)
    {
      this.g := g;
      this.eps := eps;
      this.minU := minU;
      this.codes := codes;
      alphaBlockSize := 32768;
      vertexStatus := new int[g.n](_ => codes.untouched);
      epsNeighborNum := new int[g.n](_ => 0);
      epsNeighborhood := new seq<int>[g.n](_ => []);
      unioned := [];
      checkingLst := [];
      blocks := [];
    }

    /** Lines 103-116 for one vertex: append its similar edge targets and mark it
        PROCESSED_CORE or PROCESSED_NOISE by their number. */
    method EvaluateVertex(u: int)
      requires Valid() && 0 <= u < g.n
      modifies vertexStatus, epsNeighborhood
      ensures epsNeighborhood[u] == old(epsNeighborhood[u]) + EpsNeighborhood(g, eps, u)
      ensures vertexStatus[u] == if IsCore(g, eps, minU, u) then codes.processedCore else codes.processedNoise
      ensures forall x :: 0 <= x < g.n && x != u ==>
        epsNeighborhood[x] == old(epsNeighborhood[x]) && vertexStatus[x] == old(vertexStatus[x])
    {
      assert g.start[0] <= g.start[u] <= g.start[u + 1] <= g.start[g.n];
      var sd := 0;
      for j := g.start[u] to g.start[u + 1]
        invariant epsNeighborhood[u] == old(epsNeighborhood[u]) + SimilarTargets(g, eps, u, j)
        invariant sd == |SimilarTargets(g, eps, u, j)|
        invariant forall x :: 0 <= x < g.n && x != u ==> epsNeighborhood[x] == old(epsNeighborhood[x])
        modifies epsNeighborhood
      {
        var verdict := EvalSimilarity(g, eps, u, j);
        if verdict == Similar {
          epsNeighborhood[u] := epsNeighborhood[u] + [g.edges[j]];
          sd := sd + 1;
        }
      }
      if sd >= minU {
        vertexStatus[u] := codes.processedCore;
      } else {
        vertexStatus[u] := codes.processedNoise;
      }
    }

    /** Step 1.1 (lines 101-117) on the block [vBeg, vEnd). */
    method EvaluateBlock(vBeg: int, vEnd: int)
      requires Valid() && 0 <= vBeg <= vEnd <= g.n
      modifies vertexStatus, epsNeighborhood
      ensures forall u :: vBeg <= u < vEnd ==>
        epsNeighborhood[u] == old(epsNeighborhood[u]) + EpsNeighborhood(g, eps, u)
      ensures forall u :: vBeg <= u < vEnd ==>
        vertexStatus[u] == if IsCore(g, eps, minU, u) then codes.processedCore else codes.processedNoise
      ensures forall x :: 0 <= x < g.n && !(vBeg <= x < vEnd) ==>
        epsNeighborhood[x] == old(epsNeighborhood[x]) && vertexStatus[x] == old(vertexStatus[x])
    {
      for u := vBeg to vEnd
        invariant forall x :: vBeg <= x < u ==>
          epsNeighborhood[x] == old(epsNeighborhood[x]) + EpsNeighborhood(g, eps, x)
        invariant forall x :: vBeg <= x < u ==>
          vertexStatus[x] == if IsCore(g, eps, minU, x) then codes.processedCore else codes.processedNoise
        invariant forall x :: 0 <= x < g.n && !(vBeg <= x < u) ==>
          epsNeighborhood[x] == old(epsNeighborhood[x]) && vertexStatus[x] == old(vertexStatus[x])
      {
        EvaluateVertex(u);
      }
    }

    /** Lines 122-124 for one core: add one to the counter of every vertex in
        its eps-neighbourhood `nb`. */
    method CountNeighbors(nb: seq<int>)
      requires Valid() && forall k :: 0 <= k < |nb| ==> 0 <= nb[k] < g.n
      modifies epsNeighborNum
      ensures forall x :: 0 <= x < g.n ==> epsNeighborNum[x] == old(epsNeighborNum[x]) + Count(nb, x)
    {
      for k := 0 to |nb|
        invariant forall x :: 0 <= x < g.n ==> epsNeighborNum[x] == old(epsNeighborNum[x]) + Count(nb[..k], x)
      {
        var w := nb[k];
        assert nb[..k + 1][..k] == nb[..k];
        epsNeighborNum[w] := epsNeighborNum[w] + 1;
      }
      assert nb[..|nb|] == nb;
    }

    /** First loop of step 1.2 (lines 120-126): each core of the block adds one
        to the counter of every member of its eps-neighbourhood. */
    method CountBlock(vBeg: int, vEnd: int)
      requires Valid() && 0 <= vBeg <= vEnd <= g.n
      requires forall u :: vBeg <= u < vEnd ==> epsNeighborhood[u] == EpsNeighborhood(g, eps, u)
      requires forall u :: vBeg <= u < vEnd ==>
        (vertexStatus[u] == codes.processedCore <==> IsCore(g, eps, minU, u))
      requires forall x :: 0 <= x < g.n ==> epsNeighborNum[x] == CoreRefs(g, eps, minU, x, vBeg)
      modifies epsNeighborNum
      ensures forall x :: 0 <= x < g.n ==> epsNeighborNum[x] == CoreRefs(g, eps, minU, x, vEnd)
    {
      for u := vBeg to vEnd
        invariant forall x :: 0 <= x < g.n ==> epsNeighborNum[x] == CoreRefs(g, eps, minU, x, u)
      {
        if vertexStatus[u] == codes.processedCore {
          CountNeighbors(epsNeighborhood[u]);
        }
      }
    }

    /** Lines 129-138 for one core: rewrite the status of every vertex in its
        eps-neighbourhood `nb` by `Reclassify`. */
    method ReclassifyNeighbors(nb: seq<int>)
      requires Valid() && forall k :: 0 <= k < |nb| ==> 0 <= nb[k] < g.n
      modifies vertexStatus
      ensures forall x :: 0 <= x < g.n ==> (vertexStatus[x] ==
        if old(vertexStatus[x]) == codes.processedNoise && x in nb then codes.processedBorder else old(vertexStatus[x]))
    {
      for k := 0 to |nb|
        invariant forall x :: 0 <= x < g.n ==> (vertexStatus[x] ==
          if old(vertexStatus[x]) == codes.processedNoise && x in nb[..k]
          then codes.processedBorder else old(vertexStatus[x]))
      {
        var w := nb[k];
        assert nb[..k + 1] == nb[..k] + [w];
        vertexStatus[w] := Reclassify(codes, minU, vertexStatus[w], epsNeighborNum[w]);
      }
      assert nb[..|nb|] == nb;
    }

    /** Second loop of step 1.2 (lines 127-141): every eps-neighbour of a core
        of the block has its status rewritten by `Reclassify`; with distinct
        codes only PROCESSED_NOISE changes, to PROCESSED_BORDER. */
    method ReclassifyBlock(vBeg: int, vEnd: int)
      requires Valid() && 0 <= vBeg <= vEnd <= g.n
      requires forall u :: vBeg <= u < vEnd ==> epsNeighborhood[u] == EpsNeighborhood(g, eps, u)
      requires forall u :: vBeg <= u < vEnd ==>
        (vertexStatus[u] == codes.processedCore <==> IsCore(g, eps, minU, u))
      modifies vertexStatus
      ensures forall x :: 0 <= x < g.n ==> (vertexStatus[x] ==
        if old(vertexStatus[x]) == codes.processedNoise && RefByCore(g, eps, minU, x, vBeg, vEnd)
        then codes.processedBorder else old(vertexStatus[x]))
    {
      for u := vBeg to vEnd
        invariant forall x :: 0 <= x < g.n ==> (vertexStatus[x] ==
          if old(vertexStatus[x]) == codes.processedNoise && RefByCore(g, eps, minU, x, vBeg, u)
          then codes.processedBorder else old(vertexStatus[x]))
      {
        if vertexStatus[u] == codes.processedCore {
          ReclassifyNeighbors(epsNeighborhood[u]);
        }
      }
    }

    /** Lines 147-151 for one core `u`: union it with every vertex of its
        eps-neighbourhood `nb` that passes `IsDefiniteCore`. */
    method MergeNeighbors(u: int, nb: seq<int>)
      modifies this`unioned
      ensures unioned == old(unioned) + DefiniteCorePairs(codes, u, nb)
    {
      for k := 0 to |nb|
        invariant unioned == old(unioned) + DefiniteCorePairs(codes, u, nb[..k])
      {
        var w := nb[k];
        assert nb[..k + 1][..k] == nb[..k];
        if IsDefiniteCore(codes, w) {
          unioned := unioned + [(u, w)];
        }
      }
      assert nb[..|nb|] == nb;
    }

    /** Step 1.3 (lines 144-153): union each core of the block with every
        eps-neighbour that passes `IsDefiniteCore`. */
    method MergeBlock(vBeg: int, vEnd: int)
      requires Valid() && 0 <= vBeg <= vEnd <= g.n
      requires forall u :: vBeg <= u < vEnd ==> epsNeighborhood[u] == EpsNeighborhood(g, eps, u)
      requires forall u :: vBeg <= u < vEnd ==>
        (vertexStatus[u] == codes.processedCore <==> IsCore(g, eps, minU, u))
      requires unioned == UnionLog(g, eps, minU, codes, vBeg)
      modifies this`unioned
      ensures unioned == UnionLog(g, eps, minU, codes, vEnd)
    {
      for u := vBeg to vEnd
        invariant unioned == UnionLog(g, eps, minU, codes, u)
      {
        UnionLogStep(g, eps, minU, codes, u);
        if vertexStatus[u] == codes.processedCore {
          MergeNeighbors(u, epsNeighborhood[u]);
        }
      }
    }

    /** Steps 1.1 and 1.2 (lines 101-141) on the block [vBeg, vEnd). */
    method ClassifyBlock(vBeg: int, vEnd: int)
      requires Valid() && 0 <= vBeg < vEnd <= g.n
      requires forall x :: vBeg <= x < vEnd ==> epsNeighborhood[x] == []
      requires forall x :: 0 <= x < g.n ==> epsNeighborNum[x] == CoreRefs(g, eps, minU, x, vBeg)
      modifies vertexStatus, epsNeighborNum, epsNeighborhood
      ensures forall x :: 0 <= x < g.n ==>
        epsNeighborhood[x] == if vBeg <= x < vEnd then EpsNeighborhood(g, eps, x) else old(epsNeighborhood[x])
      ensures forall x :: 0 <= x < g.n ==> epsNeighborNum[x] == CoreRefs(g, eps, minU, x, vEnd)
      ensures forall x :: 0 <= x < g.n ==>
        vertexStatus[x] == BlockStatus(g, eps, minU, codes, x, old(vertexStatus[x]), vBeg, vEnd)
    {
      EvaluateBlock(vBeg, vEnd);
      CountBlock(vBeg, vEnd);
      ReclassifyBlock(vBeg, vEnd);
    }

    /** The state of the loop of lines 95-157 before vertex `vCur`, with the
        open block starting at `vBeg` and `done` the blocks already closed:
        `done` followed by what the boundary rule still yields is the whole
        schedule, and everything below the open block is processed. */
    ghost predicate Walk(vBeg: nat, vCur: nat, untouchedNum: int, done: seq<(nat, nat)>)
      reads this`unioned, vertexStatus, epsNeighborNum, epsNeighborhood
      requires Valid()
    {
      0 <= vBeg <= vCur <= g.n && (vCur == g.n ==> vBeg == g.n) &&
      done + BlockSchedule(g.n, alphaBlockSize, codes.untouched, vBeg, vCur, untouchedNum)
        == BlockSchedule(g.n, alphaBlockSize, codes.untouched, 0, 0, 0) &&
      ProcessedBelow(vBeg) && Bordered(done, vBeg)
    }

    /** The constructor's state is the loop state before the first vertex. */
    lemma WalkStarts()
      requires Valid() && Initial()
      ensures Walk(0, 0, 0, [])
    {
      ClassifiedAtStart(g, eps, minU, codes, vertexStatus[..], epsNeighborNum[..], epsNeighborhood[..]);
    }

    /** Vertices from the start of the open block on are still untouched. */
    lemma OpenBlockUntouched(vBeg: nat, vCur: nat, untouchedNum: int, done: seq<(nat, nat)>)
      requires Valid() && vCur < g.n && Walk(vBeg, vCur, untouchedNum, done)
      ensures vertexStatus[vCur] == codes.untouched
    {
      assert vertexStatus[..][vCur] == codes.untouched;
    }

    /** Lines 96-98 when the block stays open: only the counter moves. */
    lemma WalkAdvances(vBeg: nat, vCur: nat, untouchedNum: int, num: int, done: seq<(nat, nat)>)
      requires Valid() && vCur < g.n && Walk(vBeg, vCur, untouchedNum, done)
      requires num == if codes.untouched == untouchedNum then untouchedNum + 1 else untouchedNum
      requires num < alphaBlockSize && vCur != g.n - 1
      ensures Walk(vBeg, vCur + 1, num, done)
    {
      ScheduleContinues(g.n, alphaBlockSize, codes.untouched, done, vBeg, vCur, untouchedNum, num);
    }

    /** The body of lines 100-155 on the block [vBeg, vCur], given the blocks
        `done` already processed. */
    method ProcessBlock(vBeg: nat, vCur: nat, ghost done: seq<(nat, nat)>)
      requires Valid() && vBeg <= vCur < g.n && ProcessedBelow(vBeg) && Bordered(done, vBeg)
      modifies this`unioned, vertexStatus, epsNeighborNum, epsNeighborhood
      ensures ProcessedBelow(vCur + 1) && Bordered(done + [(vBeg, vCur)], vCur + 1)
      ensures forall x :: 0 <= x < g.n ==>
        vertexStatus[x] == BlockStatus(g, eps, minU, codes, x, old(vertexStatus[x]), vBeg, vCur + 1)
    {
      var vEnd := vCur + 1;
      ghost var st, nu, nb := vertexStatus[..], epsNeighborNum[..], epsNeighborhood[..];
      assert forall x :: vBeg <= x < vEnd ==> epsNeighborhood[x] == nb[x];
      ClassifyBlock(vBeg, vEnd);
      ghost var st', nu', nb' := vertexStatus[..], epsNeighborNum[..], epsNeighborhood[..];
      ClassifyStep(g, eps, minU, codes, st, nu, nb, st', nu', nb', vBeg, vEnd);
      BordersStep(g, eps, minU, codes, st, st', done, vBeg, vEnd);
      assert forall u :: vBeg <= u < vEnd ==> vertexStatus[u] == st'[u] && epsNeighborhood[u] == nb'[u];
      MergeBlock(vBeg, vEnd);
    }

    /** Lines 99-156 when the counter `num` closes the block [vBeg, vCur]: process it. */
    method CloseBlock(vBeg: nat, vCur: nat, untouchedNum: int, num: int, ghost done: seq<(nat, nat)>)
      requires Valid() && vCur < g.n && Walk(vBeg, vCur, untouchedNum, done)
      requires num == if codes.untouched == untouchedNum then untouchedNum + 1 else untouchedNum
      requires num >= alphaBlockSize || vCur == g.n - 1
      modifies this`unioned, vertexStatus, epsNeighborNum, epsNeighborhood
      ensures Walk(vCur + 1, vCur + 1, num, done + [(vBeg, vCur)])
    {
      ScheduleCloses(g.n, alphaBlockSize, codes.untouched, done, vBeg, vCur, untouchedNum, num);
      ProcessBlock(vBeg, vCur, done);
    }

    /** One iteration of the loop of lines 95-157 at vertex `vCur`: advance the
        counter of lines 96-98 and, when the block closes, process it. */
    method SummarizeStep(vBeg: nat, vCur: nat, untouchedNum: int, ghost done: seq<(nat, nat)>)
      returns (vBeg': nat, untouchedNum': int, ghost done': seq<(nat, nat)>)
      requires Valid() && vCur < g.n && Walk(vBeg, vCur, untouchedNum, done)
      modifies this`unioned, vertexStatus, epsNeighborNum, epsNeighborhood
      ensures Walk(vBeg', vCur + 1, untouchedNum', done')
    {
      OpenBlockUntouched(vBeg, vCur, untouchedNum, done);
      untouchedNum' := untouchedNum;
      if vertexStatus[vCur] == untouchedNum' {
        untouchedNum' := untouchedNum' + 1;
      }
      if untouchedNum' >= alphaBlockSize || vCur == g.n - 1 {
        CloseBlock(vBeg, vCur, untouchedNum, untouchedNum', done);
        vBeg', done' := vCur + 1, done + [(vBeg, vCur)];
      } else {
        WalkAdvances(vBeg, vCur, untouchedNum, untouchedNum', done);
        vBeg', done' := vBeg, done;
      }
    }

    /** Lines 94-158: walk the vertices, close a block when the counter reaches
        the block size or at the last vertex, and process it. */
    method Summarize()
      requires Valid() && Initial()
      modifies this`unioned, this`blocks, vertexStatus, epsNeighborNum, epsNeighborhood
      ensures Valid() && Summarized()
      ensures forall x :: 0 <= x < g.n ==> (vertexStatus[x] == codes.processedBorder <==>
        !IsCore(g, eps, minU, x) && RefByCore(g, eps, minU, x, 0, g.n))
    {
      var vBeg: nat, vCur: nat, untouchedNum := 0, 0, 0;
      ghost var done: seq<(nat, nat)> := [];
      WalkStarts();
      while vCur < g.n
        invariant Walk(vBeg, vCur, untouchedNum, done)
        decreases g.n - vCur
      {
        vBeg, untouchedNum, done := SummarizeStep(vBeg, vCur, untouchedNum, done);
        vCur := vCur + 1;
      }
      blocks := done;
      WalkEnds(untouchedNum);
    }

    /** At the end of the walk the closed blocks are the whole schedule; with
        a block size of at least two that is one block, so the end state
        classifies borders exactly. */
    lemma WalkEnds(untouchedNum: int)
      requires Valid() && Walk(g.n, g.n, untouchedNum, blocks)
      ensures Summarized()
      ensures forall x :: 0 <= x < g.n ==> (vertexStatus[x] == codes.processedBorder <==>
        !IsCore(g, eps, minU, x) && RefByCore(g, eps, minU, x, 0, g.n))
    {
      assert blocks == BlockSchedule(g.n, alphaBlockSize, codes.untouched, 0, 0, 0);
      forall x | 0 <= x < g.n
        ensures vertexStatus[x] == codes.processedBorder <==>
          !IsCore(g, eps, minU, x) && RefByCore(g, eps, minU, x, 0, g.n)
      {
        ExactBorders(g, eps, minU, codes, alphaBlockSize, vertexStatus[..], epsNeighborNum[..], epsNeighborhood[..], x);
      }
    }

    /** Lines 160-162: an empty body in the source. */
    method MergeStronglyRelatedCluster()
    {
    }

    /** Lines 164-166: clears the checking list. */
    method MergeWeaklyRelatedCluster()
      modifies this`checkingLst
      ensures checkingLst == []
    {
      checkingLst := [];
    }

    /** Lines 169-171: an empty body in the source. */
    method PostProcessing()
    {
    }

    /** The engine's entry point (lines 173-178): summarise the graph into
        core-induced clusters, then run the three merge and post-processing
        phases. */
    method AnySCAN()
      requires Valid() && Initial()
      modifies this`unioned, this`blocks, this`checkingLst, vertexStatus, epsNeighborNum, epsNeighborhood
      ensures Valid() && Summarized() && checkingLst == []
      ensures forall x :: 0 <= x < g.n ==> (vertexStatus[x] == codes.processedBorder <==>
        !IsCore(g, eps, minU, x) && RefByCore(g, eps, minU, x, 0, g.n))
    {
      Summarize();
      MergeStronglyRelatedCluster();
      MergeWeaklyRelatedCluster();
      PostProcessing();
    }
  }
}
