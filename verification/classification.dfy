/** What the block classification of the anySCAN engine computes, stated as
    functions of the graph and the parameters: eps-neighbourhoods, core-ness,
    the eps-neighbour counters, the log of union calls, the status rewrite of
    the reclassification step and the block schedule. */
module Classification {
  import opened GraphStore
  import opened Similarity

  /** The five numeric status codes; their values live outside the engine, so
      they are parameters here. */
  datatype StatusCodes = StatusCodes(
    untouched: int, unprocessedCore: int, processedCore: int, processedNoise: int, processedBorder: int)
  {
    predicate Distinct() {
      untouched != unprocessedCore && untouched != processedCore &&
      untouched != processedNoise && untouched != processedBorder &&
      unprocessedCore != processedCore && unprocessedCore != processedNoise &&
      unprocessedCore != processedBorder &&
      processedCore != processedNoise && processedCore != processedBorder &&
      processedNoise != processedBorder
    }
  }

  type Codes = c: StatusCodes | c.Distinct() witness StatusCodes(0, 1, 2, 3, 4)

  // ---------------------------------------------------------------------------
  // eps-neighbourhoods

  /** Targets of the edges of `u` below `hi` that the oracle calls similar, in edge order. */
  function SimilarTargets(g: Graph, eps: Threshold, u: int, hi: int): (r: seq<int>)
    requires 0 <= u < g.n
    requires g.start[u] <= hi <= g.start[u + 1]
    ensures |r| <= hi - g.start[u]
    ensures forall k :: 0 <= k < |r| ==> 0 <= r[k] < g.n
    decreases hi - g.start[u]
  {
    assert g.start[0] <= g.start[u] && g.start[u + 1] <= g.start[g.n];
    if hi == g.start[u] then []
    else
      SimilarTargets(g, eps, u, hi - 1) +
      (if EdgeVerdict(g, eps, u, g.edges[hi - 1]) == Similar then [g.edges[hi - 1]] else [])
  }

  /** The eps-neighbourhood of `u` (lines 103-110). */
  function EpsNeighborhood(g: Graph, eps: Threshold, u: int): (r: seq<int>)
    requires 0 <= u < g.n
    ensures |r| <= |g.Slice(u)|
    ensures forall k :: 0 <= k < |r| ==> 0 <= r[k] < g.n
  {
    SimilarTargets(g, eps, u, g.start[u + 1])
  }

  lemma {:induction false} SimilarTargetsMembers(g: Graph, eps: Threshold, u: int, hi: int, w: int)
    requires 0 <= u < g.n
    requires g.start[u] <= hi <= g.start[u + 1]
    ensures w in SimilarTargets(g, eps, u, hi) <==>
      0 <= w < g.n && w in g.edges[g.start[u]..hi] && EdgeVerdict(g, eps, u, w) == Similar
    decreases hi - g.start[u]
  {
    var lo := g.start[u];
    assert g.start[0] <= lo && g.start[u + 1] <= g.start[g.n];
    if hi > lo {
      var e := g.edges[hi - 1];
      var before := g.edges[lo..hi - 1];
      SimilarTargetsMembers(g, eps, u, hi - 1, w);
      assert g.edges[lo..hi] == before + [e];
      assert w in g.edges[lo..hi] <==> w in before || w == e;
    }
  }

  /** `w` is an eps-neighbour of `u` exactly when it is a neighbour of `u` and
      the oracle calls the pair similar. */
  lemma EpsNeighborhoodMembers(g: Graph, eps: Threshold, u: int, w: int)
    requires 0 <= u < g.n
    ensures w in EpsNeighborhood(g, eps, u) <==>
      0 <= w < g.n && w in g.Slice(u) && EdgeVerdict(g, eps, u, w) == Similar
  {
    SimilarTargetsMembers(g, eps, u, g.start[u + 1], w);
  }

  /** On an undirected graph, eps-neighbourhood membership is symmetric: the
      fact the counter propagation of lines 120-126 relies on. */
  lemma EpsNeighborhoodSymmetric(g: Graph, eps: Threshold, u: int, w: int)
    requires g.Symmetric()
    requires 0 <= u < g.n && 0 <= w < g.n
    ensures w in EpsNeighborhood(g, eps, u) <==> u in EpsNeighborhood(g, eps, w)
  {
    EpsNeighborhoodMembers(g, eps, u, w);
    EpsNeighborhoodMembers(g, eps, w, u);
    VerdictSymmetric(g, eps, u, w);
  }

  /** With closed-neighbourhood degrees, the eps-neighbourhood is exactly the
      set of neighbours `w` with sigma(u, w) >= eps. */
  lemma EpsNeighborhoodIsScan(g: Graph, eps: Threshold, u: int, w: int)
    requires g.SortedSlices() && g.Symmetric() && g.NoSelfLoops() && g.ClosedDegrees()
    requires 0 <= u < g.n && 0 <= w < g.n
    ensures w in EpsNeighborhood(g, eps, u) <==>
      w in g.Slice(u) &&
      |g.ClosedNeighborhood(u) * g.ClosedNeighborhood(w)| * |g.ClosedNeighborhood(u) * g.ClosedNeighborhood(w)| * eps.b2
        >= g.degree[u] * g.degree[w] * eps.a2
  {
    EpsNeighborhoodMembers(g, eps, u, w);
    if w in g.Slice(u) {
      VerdictIsScanTest(g, eps, u, w);
    }
  }

  predicate IsCore(g: Graph, eps: Threshold, minU: int, u: int)
    requires 0 <= u < g.n
  {
    |EpsNeighborhood(g, eps, u)| >= minU
  }

  // ---------------------------------------------------------------------------
  // eps-neighbour counters

  /** Occurrences of `x` in `s`. */
  function Count(s: seq<int>, x: int): (c: nat)
    ensures c <= |s|
    ensures c > 0 <==> x in s
  {
    if s == [] then 0
    else Count(s[..|s| - 1], x) + (if s[|s| - 1] == x then 1 else 0)
  }

  /** Is `x` in the eps-neighbourhood of some core among the vertices [lo, hi)? */
  predicate RefByCore(g: Graph, eps: Threshold, minU: int, x: int, lo: int, hi: int)
    requires 0 <= lo <= hi <= g.n
    decreases hi - lo
  {
    lo < hi &&
    (RefByCore(g, eps, minU, x, lo, hi - 1) ||
     (IsCore(g, eps, minU, hi - 1) && x in EpsNeighborhood(g, eps, hi - 1)))
  }

  lemma {:induction false} RefByCoreWitness(g: Graph, eps: Threshold, minU: int, x: int, lo: int, hi: int)
    requires 0 <= lo <= hi <= g.n
    ensures RefByCore(g, eps, minU, x, lo, hi) <==>
      exists v :: lo <= v < hi && IsCore(g, eps, minU, v) && x in EpsNeighborhood(g, eps, v)
    decreases hi - lo
  {
    if lo < hi {
      RefByCoreWitness(g, eps, minU, x, lo, hi - 1);
      if RefByCore(g, eps, minU, x, lo, hi) && !RefByCore(g, eps, minU, x, lo, hi - 1) {
        assert hi - 1 < hi && IsCore(g, eps, minU, hi - 1) && x in EpsNeighborhood(g, eps, hi - 1);
      }
    }
  }

  lemma {:induction false} RefByCoreSplit(g: Graph, eps: Threshold, minU: int, x: int, lo: int, mid: int, hi: int)
    requires 0 <= lo <= mid <= hi <= g.n
    ensures RefByCore(g, eps, minU, x, lo, hi) <==>
      RefByCore(g, eps, minU, x, lo, mid) || RefByCore(g, eps, minU, x, mid, hi)
    decreases hi - mid
  {
    if mid < hi {
      RefByCoreSplit(g, eps, minU, x, lo, mid, hi - 1);
    }
  }

  /** The value lines 120-126 leave in `eps_neighbor_num[x]` after the vertices
      below `hi` are processed: one count per occurrence of `x` in the
      eps-neighbourhood of each core below `hi`. */
  function CoreRefs(g: Graph, eps: Threshold, minU: int, x: int, hi: int): (c: nat)
    requires 0 <= hi <= g.n
    ensures c > 0 <==> RefByCore(g, eps, minU, x, 0, hi)
  {
    if hi == 0 then 0
    else
      CoreRefs(g, eps, minU, x, hi - 1) +
      (if IsCore(g, eps, minU, hi - 1) then Count(EpsNeighborhood(g, eps, hi - 1), x) else 0)
  }

  /** In a strictly ascending sequence every value occurs at most once. */
  lemma {:induction false} CountAscending(s: seq<int>, x: int)
    requires StrictlyAscending(s)
    ensures Count(s, x) == if x in s then 1 else 0
    decreases |s|
  {
    if s != [] {
      var init := s[..|s| - 1];
      assert StrictlyAscending(init);
      CountAscending(init, x);
      if s[|s| - 1] == x {
        assert x !in init by {
          forall k | 0 <= k < |init| ensures init[k] != x {
            assert init[k] == s[k] < s[|s| - 1];
          }
        }
      }
    }
  }

  lemma AppendAscending(r: seq<int>, e: int)
    requires StrictlyAscending(r) && forall k :: 0 <= k < |r| ==> r[k] < e
    ensures StrictlyAscending(r + [e])
  {
  }

  /** Within a strictly ascending slice, an edge target stored earlier is smaller. */
  lemma EarlierTargetSmaller(g: Graph, u: int, hi: int, w: int)
    requires g.SortedSlices() && 0 <= u < g.n
    requires g.start[u] < hi <= g.start[u + 1]
    requires w in g.edges[g.start[u]..hi - 1]
    ensures w < g.edges[hi - 1]
  {
    assert g.start[0] <= g.start[u] && g.start[u + 1] <= g.start[g.n];
    var sl := g.edges[g.start[u]..hi - 1];
    var i :| 0 <= i < |sl| && sl[i] == w;
    assert StrictlyAscending(g.Slice(u));
    assert g.Slice(u)[i] == w && g.Slice(u)[hi - 1 - g.start[u]] == g.edges[hi - 1];
  }

  lemma EarlierSimilarTargetSmaller(g: Graph, eps: Threshold, u: int, hi: int, w: int)
    requires g.SortedSlices() && 0 <= u < g.n
    requires g.start[u] < hi <= g.start[u + 1]
    requires w in SimilarTargets(g, eps, u, hi - 1)
    ensures w < g.edges[hi - 1]
  {
    SimilarTargetsMembers(g, eps, u, hi - 1, w);
    EarlierTargetSmaller(g, u, hi, w);
  }

  /** A strictly ascending neighbour slice keeps its eps-neighbourhood strictly
      ascending: it is a subsequence of the slice. */
  lemma {:induction false} SimilarTargetsAscending(g: Graph, eps: Threshold, u: int, hi: int)
    requires g.SortedSlices() && 0 <= u < g.n
    requires g.start[u] <= hi <= g.start[u + 1]
    ensures StrictlyAscending(SimilarTargets(g, eps, u, hi))
    decreases hi - g.start[u]
  {
    if hi > g.start[u] {
      var r := SimilarTargets(g, eps, u, hi - 1);
      var e := g.edges[hi - 1];
      SimilarTargetsAscending(g, eps, u, hi - 1);
      forall k | 0 <= k < |r| ensures r[k] < e {
        EarlierSimilarTargetSmaller(g, eps, u, hi, r[k]);
      }
      AppendAscending(r, e);
      assert SimilarTargets(g, eps, u, hi) ==
        r + (if EdgeVerdict(g, eps, u, e) == Similar then [e] else []);
    }
  }

  /** Core `v` lists `x` in its eps-neighbourhood. */
  predicate CoreReferences(g: Graph, eps: Threshold, minU: int, v: int, x: int)
    requires 0 <= v < g.n
  {
    IsCore(g, eps, minU, v) && x in EpsNeighborhood(g, eps, v)
  }

  /** The cores below `hi` whose eps-neighbourhood contains `x`. */
  function CoresReferencing(g: Graph, eps: Threshold, minU: int, x: int, hi: int): (r: set<int>)
    requires 0 <= hi <= g.n
    ensures forall v :: v in r <==> 0 <= v < hi && CoreReferences(g, eps, minU, v, x)
  {
    if hi == 0 then {}
    else
      CoresReferencing(g, eps, minU, x, hi - 1) +
      (if CoreReferences(g, eps, minU, hi - 1, x) then {hi - 1} else {})
  }

  lemma CoresReferencingStep(g: Graph, eps: Threshold, minU: int, x: int, hi: int)
    requires 0 < hi <= g.n
    ensures |CoresReferencing(g, eps, minU, x, hi)| == |CoresReferencing(g, eps, minU, x, hi - 1)| +
      (if CoreReferences(g, eps, minU, hi - 1, x) then 1 else 0)
  {
    assert hi - 1 !in CoresReferencing(g, eps, minU, x, hi - 1);
  }

  /** With strictly ascending neighbour slices, the counter of lines 120-126 is
      the number of cores whose eps-neighbourhood contains `x`. */
  lemma {:induction false} CoreRefsCountsCores(g: Graph, eps: Threshold, minU: int, x: int, hi: int)
    requires g.SortedSlices() && 0 <= hi <= g.n
    ensures CoreRefs(g, eps, minU, x, hi) == |CoresReferencing(g, eps, minU, x, hi)|
  {
    if hi == 0 {
      assert CoresReferencing(g, eps, minU, x, hi) == {};
    } else {
      var v := hi - 1;
      CoreRefsCountsCores(g, eps, minU, x, v);
      CoresReferencingStep(g, eps, minU, x, hi);
      SimilarTargetsAscending(g, eps, v, g.start[v + 1]);
      CountAscending(EpsNeighborhood(g, eps, v), x);
    }
  }

  // ---------------------------------------------------------------------------
  // Reclassification and union

  /** The test of line 148, applied (as there) to a vertex id. */
  predicate IsDefiniteCore(codes: StatusCodes, x: int) {
    x == codes.unprocessedCore || x == codes.processedCore
  }

  /** With distinct codes, `IsDefiniteCore` accepts the two core codes and
      rejects the other three. */
  lemma DefiniteCoreCodes(codes: StatusCodes)
    requires codes.Distinct()
    ensures IsDefiniteCore(codes, codes.unprocessedCore) && IsDefiniteCore(codes, codes.processedCore)
    ensures !IsDefiniteCore(codes, codes.untouched) && !IsDefiniteCore(codes, codes.processedNoise) &&
      !IsDefiniteCore(codes, codes.processedBorder)
  {
  }

  /** The status rewrite of lines 130-138 for an eps-neighbour `s`-status
      vertex whose counter is `num`. With distinct codes the promotion to
      UNPROCESSED_CORE sits under a contradictory guard, so only
      PROCESSED_NOISE changes, to PROCESSED_BORDER. */
  function Reclassify(codes: StatusCodes, minU: int, s: int, num: int): (t: int)
    ensures codes.Distinct() ==> t == (if s == codes.processedNoise then codes.processedBorder else s)
  {
    if s == codes.processedNoise then codes.processedBorder
    else if s != codes.processedCore then s
    else if s == codes.untouched then (if num >= minU then codes.unprocessedCore else s)
    else s
  }

  /** The union calls lines 147-151 make for core `u` with eps-neighbourhood `s`. */
  function DefiniteCorePairs(codes: StatusCodes, u: int, s: seq<int>): (r: seq<(int, int)>)
  {
    if s == [] then []
    else
      DefiniteCorePairs(codes, u, s[..|s| - 1]) +
      (if IsDefiniteCore(codes, s[|s| - 1]) then [(u, s[|s| - 1])] else [])
  }

  lemma {:induction false} DefiniteCorePairsMembers(codes: StatusCodes, u: int, s: seq<int>, p: (int, int))
    ensures p in DefiniteCorePairs(codes, u, s) <==> p.0 == u && p.1 in s && IsDefiniteCore(codes, p.1)
  {
    if s != [] {
      DefiniteCorePairsMembers(codes, u, s[..|s| - 1], p);
      assert s == s[..|s| - 1] + [s[|s| - 1]];
    }
  }

  /** The sequence of union calls made for the cores below `hi`, in vertex order. */
  function UnionLog(g: Graph, eps: Threshold, minU: int, codes: StatusCodes, hi: int): (r: seq<(int, int)>)
    requires 0 <= hi <= g.n
  {
    if hi == 0 then []
    else
      UnionLog(g, eps, minU, codes, hi - 1) +
      (if IsCore(g, eps, minU, hi - 1)
       then DefiniteCorePairs(codes, hi - 1, EpsNeighborhood(g, eps, hi - 1))
       else [])
  }

  /** One more vertex in the union log: the pairs of `u`, if it is a core. */
  lemma UnionLogStep(g: Graph, eps: Threshold, minU: int, codes: StatusCodes, u: int)
    requires 0 <= u < g.n
    ensures UnionLog(g, eps, minU, codes, u + 1) == UnionLog(g, eps, minU, codes, u) +
      (if IsCore(g, eps, minU, u) then DefiniteCorePairs(codes, u, EpsNeighborhood(g, eps, u)) else [])
  {
  }

  /** A pair is unioned exactly when its first vertex is a core, its second is
      in that core's eps-neighbourhood, and the second, read as a status code,
      is a core code. */
  lemma {:induction false} UnionLogMembers(g: Graph, eps: Threshold, minU: int, codes: StatusCodes, hi: int, p: (int, int))
    requires 0 <= hi <= g.n
    ensures p in UnionLog(g, eps, minU, codes, hi) <==>
      0 <= p.0 < hi && IsCore(g, eps, minU, p.0) && p.1 in EpsNeighborhood(g, eps, p.0) &&
      IsDefiniteCore(codes, p.1)
  {
    if hi > 0 {
      UnionLogMembers(g, eps, minU, codes, hi - 1, p);
      DefiniteCorePairsMembers(codes, hi - 1, EpsNeighborhood(g, eps, hi - 1), p);
    }
  }

  // ---------------------------------------------------------------------------
  // Block schedule

  /** The blocks [vBeg, vCur] that the loop of lines 95-157 closes, from loop
      state (vBeg, vCur, untouchedNum), given that the status it reads at
      `vCur` is `untouched` (no vertex at or after the open block has been
      touched yet). */
  function BlockSchedule(n: nat, alpha: int, untouched: int, vBeg: nat, vCur: nat, untouchedNum: int): seq<(nat, nat)>
    decreases n - vCur
  {
    if vCur >= n then []
    else
      var num := if untouched == untouchedNum then untouchedNum + 1 else untouchedNum;
      if num >= alpha || vCur == n - 1 then [(vBeg, vCur)] + BlockSchedule(n, alpha, untouched, vCur + 1, vCur + 1, num)
      else BlockSchedule(n, alpha, untouched, vBeg, vCur + 1, num)
  }

  /** One iteration of the loop of lines 95-157, seen from the schedule, when
      the counter `num` closes the block [vBeg, vCur]: the blocks already closed
      (`done`), then this one, then the rest of the schedule stay the whole
      schedule. */
  lemma ScheduleCloses(n: nat, alpha: int, untouched: int, done: seq<(nat, nat)>,
                       vBeg: nat, vCur: nat, untouchedNum: int, num: int)
    requires vCur < n && num == (if untouched == untouchedNum then untouchedNum + 1 else untouchedNum)
    requires num >= alpha || vCur == n - 1
    requires done + BlockSchedule(n, alpha, untouched, vBeg, vCur, untouchedNum) == BlockSchedule(n, alpha, untouched, 0, 0, 0)
    ensures (done + [(vBeg, vCur)]) + BlockSchedule(n, alpha, untouched, vCur + 1, vCur + 1, num)
      == BlockSchedule(n, alpha, untouched, 0, 0, 0)
  {
    assert done + ([(vBeg, vCur)] + BlockSchedule(n, alpha, untouched, vCur + 1, vCur + 1, num)) ==
      (done + [(vBeg, vCur)]) + BlockSchedule(n, alpha, untouched, vCur + 1, vCur + 1, num);
  }

  /** The same iteration when the block stays open: only the counter moves. */
  lemma ScheduleContinues(n: nat, alpha: int, untouched: int, done: seq<(nat, nat)>,
                          vBeg: nat, vCur: nat, untouchedNum: int, num: int)
    requires vCur < n && num == (if untouched == untouchedNum then untouchedNum + 1 else untouchedNum)
    requires num < alpha && vCur != n - 1
    requires done + BlockSchedule(n, alpha, untouched, vBeg, vCur, untouchedNum) == BlockSchedule(n, alpha, untouched, 0, 0, 0)
    ensures done + BlockSchedule(n, alpha, untouched, vBeg, vCur + 1, num) == BlockSchedule(n, alpha, untouched, 0, 0, 0)
  {
  }

  /** `b` lists non-empty consecutive ranges [lo0, hi0], [hi0 + 1, hi1], ... that
      end at `hi - 1`. */
  predicate Tiles(b: seq<(nat, nat)>, lo: nat, hi: nat)
    decreases |b|
  {
    if b == [] then lo == hi
    else b[0].0 == lo && b[0].0 <= b[0].1 < hi && Tiles(b[1..], b[0].1 + 1, hi)
  }

  lemma {:induction false} ScheduleTiles(n: nat, alpha: int, untouched: int, vBeg: nat, vCur: nat, untouchedNum: int)
    requires vBeg <= vCur < n || vBeg == vCur == n
    ensures Tiles(BlockSchedule(n, alpha, untouched, vBeg, vCur, untouchedNum), vBeg, n)
    decreases n - vCur
  {
    if vCur < n {
      var num := if untouched == untouchedNum then untouchedNum + 1 else untouchedNum;
      ScheduleTiles(n, alpha, untouched, vCur + 1, vCur + 1, num);
      if !(num >= alpha || vCur == n - 1) {
        ScheduleTiles(n, alpha, untouched, vBeg, vCur + 1, num);
      }
    }
  }

  lemma {:induction false} TilesOrdered(b: seq<(nat, nat)>, lo: nat, hi: nat)
    requires Tiles(b, lo, hi)
    ensures forall i :: 0 <= i < |b| ==> lo <= b[i].0 <= b[i].1 < hi
    ensures forall i, j :: 0 <= i < j < |b| ==> b[i].1 < b[j].0
    decreases |b|
  {
    if b != [] {
      TilesOrdered(b[1..], b[0].1 + 1, hi);
      assert forall i :: 0 < i < |b| ==> b[i] == b[1..][i - 1];
    }
  }

  /** Block `i` of `b` holds vertex `x`. */
  predicate InBlock(b: seq<(nat, nat)>, i: int, x: int) {
    0 <= i < |b| && b[i].0 <= x <= b[i].1
  }

  lemma {:induction false} TilesCover(b: seq<(nat, nat)>, lo: nat, hi: nat, x: nat)
    requires Tiles(b, lo, hi) && lo <= x < hi
    ensures exists i :: 0 <= i < |b| && b[i].0 <= x <= b[i].1
    decreases |b|
  {
    if x > b[0].1 {
      TilesCover(b[1..], b[0].1 + 1, hi, x);
      var i :| 0 <= i < |b[1..]| && b[1..][i].0 <= x <= b[1..][i].1;
      assert b[i + 1] == b[1..][i];
    }
  }

  /** Every vertex lies in exactly one block of the schedule, so step 1.1
      evaluates each vertex exactly once. */
  lemma ScheduleCoversOnce(n: nat, alpha: int, untouched: int, x: nat)
    requires x < n
    ensures exists i :: InBlock(BlockSchedule(n, alpha, untouched, 0, 0, 0), i, x)
    ensures forall i, j ::
      (InBlock(BlockSchedule(n, alpha, untouched, 0, 0, 0), i, x) &&
       InBlock(BlockSchedule(n, alpha, untouched, 0, 0, 0), j, x)) ==> i == j
  {
    var b := BlockSchedule(n, alpha, untouched, 0, 0, 0);
    ScheduleTiles(n, alpha, untouched, 0, 0, 0);
    TilesOrdered(b, 0, n);
    TilesCover(b, 0, n, x);
    var i :| 0 <= i < |b| && b[i].0 <= x <= b[i].1;
    assert InBlock(b, i, x);
  }

  lemma {:induction false} ScheduleWithoutCount(n: nat, alpha: int, untouched: int, vBeg: nat, vCur: nat, untouchedNum: int)
    requires vBeg <= vCur < n && untouchedNum != untouched && untouchedNum < alpha
    ensures BlockSchedule(n, alpha, untouched, vBeg, vCur, untouchedNum) == [(vBeg, n - 1)]
    decreases n - vCur
  {
    if vCur < n - 1 {
      ScheduleWithoutCount(n, alpha, untouched, vBeg, vCur + 1, untouchedNum);
    }
  }

  /** The counter of lines 96-98 is compared with a status code, so it grows at
      most once: for any code values and any block size of at least two, the
      whole vertex range forms one block. */
  lemma SingleBlock(n: nat, alpha: int, untouched: int)
    requires 0 < n && 2 <= alpha
    ensures BlockSchedule(n, alpha, untouched, 0, 0, 0) == [(0, n - 1)]
  {
    var num := if untouched == 0 then 1 else 0;
    if n > 1 {
      ScheduleWithoutCount(n, alpha, untouched, 0, 1, num);
    }
  }

  // ---------------------------------------------------------------------------
  // One block step of the driver, on snapshots of the per-vertex arrays
  // (`st` statuses, `num` eps-neighbour counters, `nb` eps-neighbourhood lists)

  /** The arrays after the blocks covering [0, lo) are processed. */
  predicate ClassifiedBelow(g: Graph, eps: Threshold, minU: int, codes: StatusCodes,
                            st: seq<int>, num: seq<int>, nb: seq<seq<int>>, lo: int)
    requires |st| == g.n && |num| == g.n && |nb| == g.n && 0 <= lo <= g.n
  {
    // vertices from `lo` on are untouched
    (forall x :: lo <= x < g.n ==> st[x] == codes.untouched && nb[x] == []) &&
    // below `lo`: the list is the eps-neighbourhood, PROCESSED_CORE marks the cores
    (forall x :: 0 <= x < lo ==> nb[x] == EpsNeighborhood(g, eps, x)) &&
    (forall x :: 0 <= x < lo ==> (st[x] == codes.processedCore <==> IsCore(g, eps, minU, x))) &&
    (forall x :: 0 <= x < lo ==> st[x] in {codes.processedCore, codes.processedNoise, codes.processedBorder}) &&
    // a border is reached by a core; a non-core reached by a core no earlier than itself is a border
    (forall x :: 0 <= x < lo && st[x] == codes.processedBorder ==> RefByCore(g, eps, minU, x, 0, lo)) &&
    (forall x, v :: (0 <= x <= v < lo && CoreReferences(g, eps, minU, v, x) && !IsCore(g, eps, minU, x)) ==>
      st[x] == codes.processedBorder) &&
    // counters count the references by the cores below `lo`
    (forall x :: 0 <= x < g.n ==> num[x] == CoreRefs(g, eps, minU, x, lo))
  }

  /** Freshly initialised arrays are classified below 0. */
  lemma ClassifiedAtStart(g: Graph, eps: Threshold, minU: int, codes: StatusCodes,
                          st: seq<int>, num: seq<int>, nb: seq<seq<int>>)
    requires |st| == g.n && |num| == g.n && |nb| == g.n
    requires forall x :: 0 <= x < g.n ==> st[x] == codes.untouched && num[x] == 0 && nb[x] == []
    ensures ClassifiedBelow(g, eps, minU, codes, st, num, nb, 0)
  {
  }

  /** The status that steps 1.1 and 1.2 (lines 101-141) give vertex `x`, of
      status `s`, when they run on the block [lo, hi). */
  function BlockStatus(g: Graph, eps: Threshold, minU: int, codes: StatusCodes, x: int, s: int, lo: int, hi: int): int
    requires 0 <= x < g.n && 0 <= lo <= hi <= g.n
  {
    if lo <= x < hi then
      (if IsCore(g, eps, minU, x) then codes.processedCore
       else if RefByCore(g, eps, minU, x, lo, hi) then codes.processedBorder
       else codes.processedNoise)
    else if s == codes.processedNoise && RefByCore(g, eps, minU, x, lo, hi) then codes.processedBorder
    else s
  }

  /** Processing the next block [lo, hi) takes "classified below lo" to
      "classified below hi". */
  lemma ClassifyStep(g: Graph, eps: Threshold, minU: int, codes: Codes,
                     st: seq<int>, num: seq<int>, nb: seq<seq<int>>,
                     st': seq<int>, num': seq<int>, nb': seq<seq<int>>, lo: int, hi: int)
    requires |st| == g.n && |num| == g.n && |nb| == g.n && 0 <= lo < hi <= g.n
    requires |st'| == g.n && |num'| == g.n && |nb'| == g.n
    requires ClassifiedBelow(g, eps, minU, codes, st, num, nb, lo)
    requires forall x :: 0 <= x < g.n ==> nb'[x] == if lo <= x < hi then EpsNeighborhood(g, eps, x) else nb[x]
    requires forall x :: 0 <= x < g.n ==> num'[x] == CoreRefs(g, eps, minU, x, hi)
    requires forall x :: 0 <= x < g.n ==> st'[x] == BlockStatus(g, eps, minU, codes, x, st[x], lo, hi)
    ensures ClassifiedBelow(g, eps, minU, codes, st', num', nb', hi)
  {
    forall x | 0 <= x < hi && st'[x] == codes.processedBorder
      ensures RefByCore(g, eps, minU, x, 0, hi)
    {
      RefByCoreSplit(g, eps, minU, x, 0, lo, hi);
    }
    forall x, v | 0 <= x <= v < hi && CoreReferences(g, eps, minU, v, x) && !IsCore(g, eps, minU, x)
      ensures st'[x] == codes.processedBorder
    {
      if lo <= v {
        RefByCoreWitness(g, eps, minU, x, lo, hi);
      }
    }
  }

  /** Within the vertex range [lo, hi), every non-core in the eps-neighbourhood
      of a core is a border. */
  predicate BordersWithin(g: Graph, eps: Threshold, minU: int, codes: StatusCodes, st: seq<int>, lo: int, hi: int)
    requires |st| == g.n && 0 <= lo <= hi <= g.n
  {
    forall x, v :: (lo <= x < hi && lo <= v < hi && CoreReferences(g, eps, minU, v, x) &&
      !IsCore(g, eps, minU, x)) ==> st[x] == codes.processedBorder
  }

  /** Every block of `b` lies below `hi`, and `BordersWithin` holds on each. */
  predicate BlocksBordered(g: Graph, eps: Threshold, minU: int, codes: StatusCodes, st: seq<int>, b: seq<(nat, nat)>, hi: int)
    requires |st| == g.n && 0 <= hi <= g.n
  {
    forall i :: 0 <= i < |b| ==> b[i].0 <= b[i].1 < hi && BordersWithin(g, eps, minU, codes, st, b[i].0, b[i].1 + 1)
  }

  /** Step 1.2 turns every non-core reached by a core of the block into a
      border, and no later step undoes a border. */
  lemma BordersStep(g: Graph, eps: Threshold, minU: int, codes: Codes,
                    st: seq<int>, st': seq<int>, b: seq<(nat, nat)>, lo: int, hi: int)
    requires |st| == g.n && |st'| == g.n && 0 <= lo < hi <= g.n
    requires BlocksBordered(g, eps, minU, codes, st, b, lo)
    requires forall x :: 0 <= x < g.n ==> st'[x] == BlockStatus(g, eps, minU, codes, x, st[x], lo, hi)
    ensures BlocksBordered(g, eps, minU, codes, st', b + [(lo, hi - 1)], hi)
  {
    var b' := b + [(lo, hi - 1)];
    forall i | 0 <= i < |b'|
      ensures b'[i].0 <= b'[i].1 < hi && BordersWithin(g, eps, minU, codes, st', b'[i].0, b'[i].1 + 1)
    {
      if i < |b| {
        assert b'[i] == b[i];
        assert BordersWithin(g, eps, minU, codes, st, b[i].0, b[i].1 + 1);
      } else {
        forall x, v | lo <= x < hi && lo <= v < hi && CoreReferences(g, eps, minU, v, x) && !IsCore(g, eps, minU, x)
          ensures st'[x] == codes.processedBorder
        {
          RefByCoreWitness(g, eps, minU, x, lo, hi);
        }
      }
    }
  }

  /** When the schedule is a single block (block size at least 2, see
      `SingleBlock`), the end state classifies borders exactly: a vertex is
      PROCESSED_BORDER iff it is not a core and some core lists it in its
      eps-neighbourhood. */
  lemma ExactBorders(g: Graph, eps: Threshold, minU: int, codes: Codes, alpha: int,
                     st: seq<int>, num: seq<int>, nb: seq<seq<int>>, x: int)
    requires 2 <= alpha
    requires |st| == g.n && |num| == g.n && |nb| == g.n && 0 <= x < g.n
    requires ClassifiedBelow(g, eps, minU, codes, st, num, nb, g.n)
    requires BlocksBordered(g, eps, minU, codes, st, BlockSchedule(g.n, alpha, codes.untouched, 0, 0, 0), g.n)
    ensures st[x] == codes.processedBorder <==> !IsCore(g, eps, minU, x) && RefByCore(g, eps, minU, x, 0, g.n)
  {
    if !IsCore(g, eps, minU, x) && RefByCore(g, eps, minU, x, 0, g.n) {
      SingleBlock(g.n, alpha, codes.untouched);
      var b := BlockSchedule(g.n, alpha, codes.untouched, 0, 0, 0);
      assert b[0] == (0, g.n - 1);
      assert BordersWithin(g, eps, minU, codes, st, 0, g.n);
      RefByCoreWitness(g, eps, minU, x, 0, g.n);
      var v :| 0 <= v < g.n && IsCore(g, eps, minU, v) && x in EpsNeighborhood(g, eps, v);
      assert CoreReferences(g, eps, minU, v, x);
    }
  }
}
