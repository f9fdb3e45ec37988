/** The similarity oracle of the anySCAN engine: the exact rational threshold test
    sigma(u, v) >= eps, decided with integer arithmetic on eps^2 = a2 / b2 and a
    merge-join over two sorted neighbour slices with early abort. */
module Similarity {
  import opened GraphStore

  datatype Verdict = Similar | NotSimilar

  /** The threshold eps^2 as the fraction a2 / b2. */
  datatype Eps = Eps(a2: int, b2: int)
  {
    predicate WellFormed() {
      0 <= a2 && 0 < b2
    }
  }

  type Threshold = e: Eps | e.WellFormed() witness Eps(0, 1)

  function Min(x: int, y: int): int { if x > y then y else x }
  function Max(x: int, y: int): int { if x > y then x else y }

  // ---------------------------------------------------------------------------
  // Arithmetic helpers

  lemma MulLeft(k: int, x: int, y: int)
    requires 0 <= k && x <= y
    ensures k * x <= k * y
  {
  }

  lemma SquareMono(x: int, y: int)
    requires 0 <= x <= y
    ensures x * x <= y * y
  {
    MulLeft(x, x, y);
    MulLeft(y, x, y);
  }

  lemma ScaledSquareMono(x: int, y: int, b: int)
    requires 0 <= x <= y && 0 <= b
    ensures x * x * b <= y * y * b
  {
    SquareMono(x, y);
    MulLeft(b, x * x, y * y);
  }

  // ---------------------------------------------------------------------------
  // Lower bound on the common-neighbour count

  /** Integer stand-in for the floating square root of line 48: the largest `r`
      with `r * r <= x`, found by counting up from `k`. */
  function FloorSqrtFrom(x: nat, k: nat): (r: nat)
    requires k * k <= x
    ensures r * r <= x < (r + 1) * (r + 1)
    decreases x - k
  {
    if x < (k + 1) * (k + 1) then k
    else
      assert k + 1 <= (k + 1) * (k + 1);
      FloorSqrtFrom(x, k + 1)
  }

  function FloorSqrt(x: nat): (r: nat)
    ensures r * r <= x < (r + 1) * (r + 1)
  {
    FloorSqrtFrom(x, 0)
  }

  /** The correction of line 49: bump the estimate `c` by one when `c * c`
      still falls short of the threshold. It is enough when the estimate is at
      most one below the exact root. */
  function RoundUp(eps: Threshold, du: nat, dv: nat, c: nat): (r: nat)
    ensures r == c || r == c + 1
    ensures (c + 1) * (c + 1) * eps.b2 >= du * dv * eps.a2 ==> r * r * eps.b2 >= du * dv * eps.a2
    ensures c * c * eps.b2 >= du * dv * eps.a2 ==> r == c
  {
    if c * c * eps.b2 < du * dv * eps.a2 then c + 1 else c
  }

  /** The smallest common-neighbour count `c` with c^2 * b2 >= du * dv * a2,
      i.e. with c / sqrt(du * dv) >= eps. */
  function ComputeCnLowerBound(eps: Threshold, du: nat, dv: nat): (c: nat)
    ensures c * c * eps.b2 >= du * dv * eps.a2
    ensures c > 0 ==> (c - 1) * (c - 1) * eps.b2 < du * dv * eps.a2
  {
    var p := du * dv * eps.a2;
    var q := p / eps.b2;
    var est := FloorSqrt(q);
    EstimateFacts(p, eps.b2, q, est);
    RoundUp(eps, du, dv, est)
  }

  /** floor(sqrt(floor(p / b))) is at most one below the exact root of p / b,
      and its square does not exceed p / b. */
  lemma EstimateFacts(p: nat, b: int, q: nat, est: nat)
    requires 0 < b && q == p / b
    requires est * est <= q < (est + 1) * (est + 1)
    ensures (est + 1) * (est + 1) * b > p
    ensures est * est * b <= p
    ensures est > 0 ==> (est - 1) * (est - 1) * b < est * est * b
  {
    assert p == q * b + p % b;
    MulLeft(b, q + 1, (est + 1) * (est + 1));
    MulLeft(b, est * est, q);
    if est > 0 {
      assert (est - 1) * (est - 1) < est * est;
      assert (est - 1) * (est - 1) * b < est * est * b by {
        MulLeft(b, (est - 1) * (est - 1) + 1, est * est);
      }
    }
  }

  /** Minimality: no count below the bound meets the threshold. */
  lemma {:induction false} LowerBoundIsLeast(eps: Threshold, du: nat, dv: nat, k: nat)
    requires k * k * eps.b2 >= du * dv * eps.a2
    ensures ComputeCnLowerBound(eps, du, dv) <= k
  {
    var c := ComputeCnLowerBound(eps, du, dv);
    if k < c {
      ScaledSquareMono(k, c - 1, eps.b2);
    }
  }

  /** The bound is non-decreasing in both degrees. */
  lemma LowerBoundMonotone(eps: Threshold, du: nat, dv: nat, du': nat, dv': nat)
    requires du <= du' && dv <= dv'
    ensures ComputeCnLowerBound(eps, du, dv) <= ComputeCnLowerBound(eps, du', dv')
  {
    var c' := ComputeCnLowerBound(eps, du', dv');
    MulLeft(du, dv, dv');
    MulLeft(dv', du, du');
    MulLeft(eps.a2, du * dv, du' * dv');
    LowerBoundIsLeast(eps, du, dv, c');
  }

  // ---------------------------------------------------------------------------
  // Merge-join intersection

  /** Number of matches a merge-join of `a` and `b` finds. */
  function Common(a: seq<int>, b: seq<int>): (k: nat)
    ensures k <= |a| && k <= |b|
    decreases |a| + |b|
  {
    if |a| == 0 || |b| == 0 then 0
    else if a[0] < b[0] then Common(a[1..], b)
    else if a[0] > b[0] then Common(a, b[1..])
    else 1 + Common(a[1..], b[1..])
  }

  lemma {:induction false} CommonSymmetric(a: seq<int>, b: seq<int>)
    ensures Common(a, b) == Common(b, a)
    decreases |a| + |b|
  {
    if |a| == 0 || |b| == 0 {
    } else if a[0] < b[0] {
      CommonSymmetric(a[1..], b);
    } else if a[0] > b[0] {
      CommonSymmetric(a, b[1..]);
    } else {
      CommonSymmetric(a[1..], b[1..]);
    }
  }

  lemma AscendingTail(s: seq<int>)
    requires StrictlyAscending(s) && |s| > 0
    ensures StrictlyAscending(s[1..])
    ensures forall x :: x in s[1..] ==> s[0] < x
    ensures forall x :: x in s ==> s[0] <= x
  {
    forall x | x in s ensures s[0] <= x {
      var i :| 0 <= i < |s| && s[i] == x;
    }
    forall x | x in s[1..] ensures s[0] < x {
      var i :| 0 <= i < |s[1..]| && s[1..][i] == x;
      assert s[i + 1] == x;
    }
  }

  lemma ElemsCons(s: seq<int>)
    requires |s| > 0
    ensures Elems(s) == Elems(s[1..]) + {s[0]}
  {
    assert s == [s[0]] + s[1..];
  }

  /** A head smaller than every element of `b` is not shared. */
  lemma SharedDropHead(a: seq<int>, b: seq<int>)
    requires StrictlyAscending(b) && |a| > 0 && |b| > 0 && a[0] < b[0]
    ensures Elems(a) * Elems(b) == Elems(a[1..]) * Elems(b)
  {
    AscendingTail(b);
    ElemsCons(a);
  }

  /** A common head is shared once and appears in neither tail. */
  lemma SharedMatch(a: seq<int>, b: seq<int>)
    requires StrictlyAscending(a) && StrictlyAscending(b) && |a| > 0 && |b| > 0 && a[0] == b[0]
    ensures |Elems(a) * Elems(b)| == |Elems(a[1..]) * Elems(b[1..])| + 1
  {
    AscendingTail(a);
    ElemsCons(a);
    ElemsCons(b);
    assert Elems(a) * Elems(b) == Elems(a[1..]) * Elems(b[1..]) + {a[0]};
    assert a[0] !in Elems(a[1..]) * Elems(b[1..]);
  }

  /** On strictly ascending slices the merge-join counts the shared elements. */
  lemma {:induction false} CommonCountsSharedElements(a: seq<int>, b: seq<int>)
    requires StrictlyAscending(a) && StrictlyAscending(b)
    ensures Common(a, b) == |Elems(a) * Elems(b)|
    decreases |a| + |b|
  {
    if |a| == 0 || |b| == 0 {
      assert Elems(a) * Elems(b) == {};
    } else {
      AscendingTail(a);
      AscendingTail(b);
      if a[0] < b[0] {
        CommonCountsSharedElements(a[1..], b);
        SharedDropHead(a, b);
      } else if a[0] > b[0] {
        CommonCountsSharedElements(a, b[1..]);
        SharedDropHead(b, a);
        assert Elems(a) * Elems(b) == Elems(b) * Elems(a);
        assert Elems(a) * Elems(b[1..]) == Elems(b[1..]) * Elems(a);
      } else {
        CommonCountsSharedElements(a[1..], b[1..]);
        SharedMatch(a, b);
      }
    }
  }

  /** One step of the merge-join on two non-empty sequences. */
  lemma CommonStep(a: seq<int>, b: seq<int>)
    requires |a| > 0 && |b| > 0
    ensures Common(a, b) ==
      if a[0] < b[0] then Common(a[1..], b)
      else if a[0] > b[0] then Common(a, b[1..])
      else 1 + Common(a[1..], b[1..])
  {
  }

  /** When the merge-join stops (a slice is used up, or the count or a
      remaining-degree bound decides), `cn` alone decides the outcome. */
  lemma MergeExit(a: seq<int>, b: seq<int>, cn: int, du: int, dv: int, m: int, total: int)
    requires du == cn + |a| && dv == cn + |b|
    requires cn - 2 + Common(a, b) == total
    requires !(|a| > 0 && |b| > 0 && cn < m && du >= m && dv >= m)
    ensures cn >= m <==> 2 + total >= m
  {
  }

  /** The merge-join of lines 53-75: SIMILAR iff the two free self matches plus
      the shared neighbours reach `minCnNum`. */
  method IntersectNeighborSets(g: Graph, u: int, v: int, minCnNum: int) returns (r: Verdict)
    requires 0 <= u < g.n && 0 <= v < g.n
    ensures r == Similar <==> 2 + Common(g.Slice(u), g.Slice(v)) >= minCnNum
    ensures minCnNum <= 2 ==> r == Similar
  {
    // offsets are kept relative to the two slices: `i` stands for
    // `offset_nei_u - start[u]` and `j` for `offset_nei_v - start[v]`
    var su, sv := g.Slice(u), g.Slice(v);
    ghost var total := Common(su, sv);
    var cn := 2;
    var du, dv := |su| + 2, |sv| + 2;
    var i, j := 0, 0;
    while i < |su| && j < |sv| && cn < minCnNum && du >= minCnNum && dv >= minCnNum
      invariant 0 <= i <= |su| && 0 <= j <= |sv|
      invariant 2 <= cn && du == cn + |su[i..]| && dv == cn + |sv[j..]|
      invariant cn - 2 + Common(su[i..], sv[j..]) == total
      decreases |su| - i + |sv| - j
    {
      CommonStep(su[i..], sv[j..]);
      assert su[i..][1..] == su[i + 1..] && sv[j..][1..] == sv[j + 1..];
      if su[i] < sv[j] {
        du := du - 1;
        i := i + 1;
      } else if su[i] > sv[j] {
        dv := dv - 1;
        j := j + 1;
      } else {
        cn := cn + 1;
        i, j := i + 1, j + 1;
      }
    }
    MergeExit(su[i..], sv[j..], cn, du, dv, minCnNum, total);
    r := if cn >= minCnNum then Similar else NotSimilar;
  }

  // ---------------------------------------------------------------------------
  // The pruned similarity test

  /** The verdict of lines 77-87 on the pair (u, v). */
  function EdgeVerdict(g: Graph, eps: Threshold, u: int, v: int): Verdict
    requires 0 <= u < g.n && 0 <= v < g.n
  {
    var degA: nat := Min(g.degree[u], g.degree[v]);
    var degB: nat := Max(g.degree[u], g.degree[v]);
    if degA * eps.b2 < degB * eps.a2 then NotSimilar
    else
      var c := ComputeCnLowerBound(eps, degA, degB);
      if c <= 2 then Similar
      else if 2 + Common(g.Slice(u), g.Slice(v)) >= c then Similar
      else NotSimilar
  }

  /** Evaluates the edge at `edgeIdx`, leaving vertex `u`. */
  method EvalSimilarity(g: Graph, eps: Threshold, u: int, edgeIdx: int) returns (r: Verdict)
    requires 0 <= u < g.n && 0 <= edgeIdx < |g.edges|
    ensures r == EdgeVerdict(g, eps, u, g.edges[edgeIdx])
    ensures var v := g.edges[edgeIdx];
      Min(g.degree[u], g.degree[v]) * eps.b2 < Max(g.degree[u], g.degree[v]) * eps.a2 ==> r == NotSimilar
    ensures var v := g.edges[edgeIdx];
      Min(g.degree[u], g.degree[v]) * eps.b2 >= Max(g.degree[u], g.degree[v]) * eps.a2 &&
      ComputeCnLowerBound(eps, Min(g.degree[u], g.degree[v]), Max(g.degree[u], g.degree[v])) <= 2
      ==> r == Similar
  {
    var v := g.edges[edgeIdx];
    var degA, degB := g.degree[u], g.degree[v];
    if degA > degB {
      degA, degB := degB, degA;
    }
    if degA * eps.b2 < degB * eps.a2 {
      r := NotSimilar;
    } else {
      var c := ComputeCnLowerBound(eps, degA, degB);
      if c <= 2 {
        r := Similar;
      } else {
        r := IntersectNeighborSets(g, u, v, c);
      }
    }
  }

  /** Evaluating u -> v and v -> u gives the same verdict. */
  lemma VerdictSymmetric(g: Graph, eps: Threshold, u: int, v: int)
    requires 0 <= u < g.n && 0 <= v < g.n
    ensures EdgeVerdict(g, eps, u, v) == EdgeVerdict(g, eps, v, u)
  {
    CommonSymmetric(g.Slice(u), g.Slice(v));
  }
  // ---------------------------------------------------------------------------
  // The pruned test is the exact SCAN test

  /** A merge-join misses at least one element of `a` when some element of `a`
      is absent from `b`. */
  lemma {:induction false} CommonMisses(a: seq<int>, b: seq<int>, x: int)
    requires x in a && x !in b
    ensures Common(a, b) < |a|
    decreases |a| + |b|
  {
    if |b| == 0 {
    } else if a[0] == x {
      if a[0] > b[0] {
        CommonMisses(a, b[1..], x);
      }
    } else {
      assert x in a[1..];
      if a[0] < b[0] {
      } else if a[0] > b[0] {
        CommonMisses(a, b[1..], x);
      } else {
        CommonMisses(a[1..], b[1..], x);
      }
    }
  }

  /** Adding two distinct fresh elements, each already in the other set, to
      two sets adds exactly those two to their intersection. */
  lemma ClosedPair(s: set<int>, t: set<int>, u: int, v: int)
    requires u !in s && u in t && v in s && v !in t
    ensures |(s + {u}) * (t + {v})| == 2 + |s * t|
  {
    var i := s * t;
    assert (s + {u}) * (t + {v}) == (i + {u}) + {v};
    assert |i + {u}| == |i| + 1;
  }

  /** For an edge (u, v) of a symmetric loop-free graph, the closed neighbourhoods
      share u, v and the common neighbours, and no more than either holds. */
  lemma ClosedCommon(g: Graph, u: int, v: int)
    requires g.SortedSlices() && g.Symmetric() && g.NoSelfLoops()
    requires 0 <= u < g.n && v in g.Slice(u)
    ensures 0 <= v < g.n
    ensures |g.ClosedNeighborhood(u) * g.ClosedNeighborhood(v)| == 2 + Common(g.Slice(u), g.Slice(v))
    ensures Common(g.Slice(u), g.Slice(v)) < |g.Slice(u)|
    ensures Common(g.Slice(u), g.Slice(v)) < |g.Slice(v)|
  {
    var su, sv := g.Slice(u), g.Slice(v);
    assert u in sv && u !in su && v !in sv;
    CommonCountsSharedElements(su, sv);
    ClosedPair(Elems(su), Elems(sv), u, v);
    CommonMisses(su, sv, v);
    CommonMisses(sv, su, u);
    CommonSymmetric(su, sv);
  }

  /** The degree-ratio rejection of line 81 is sound: a common count no larger
      than the smaller closed degree cannot reach the threshold. */
  lemma RatioPruneSound(cn: int, lo: int, hi: int, a2: int, b2: int)
    requires 0 <= cn <= lo && 1 <= lo && 0 < b2
    requires lo * b2 < hi * a2
    ensures cn * cn * b2 < lo * hi * a2
  {
    ScaledSquareMono(cn, lo, b2);
    assert lo * lo * b2 == lo * (lo * b2);
    MulLeft(lo, lo * b2 + 1, hi * a2);
    assert lo * (hi * a2) == lo * hi * a2;
  }

  /** Comparing a count with the lower bound is the same as the squared test. */
  lemma BoundDecides(eps: Threshold, du: nat, dv: nat, cn: nat)
    ensures cn >= ComputeCnLowerBound(eps, du, dv) <==> cn * cn * eps.b2 >= du * dv * eps.a2
  {
    var c := ComputeCnLowerBound(eps, du, dv);
    if cn >= c {
      ScaledSquareMono(c, cn, eps.b2);
    } else if cn * cn * eps.b2 >= du * dv * eps.a2 {
      LowerBoundIsLeast(eps, du, dv, cn);
    }
  }

  /** The pruned test of lines 79-85 on degrees `d1`, `d2` and a closed common
      count `cn` no larger than either degree is the squared SCAN test. */
  lemma PrunedTestByCount(eps: Threshold, d1: nat, d2: nat, cn: nat)
    requires 2 <= cn && cn <= d1 && cn <= d2
    ensures var lo, hi := Min(d1, d2), Max(d1, d2);
      (!(lo * eps.b2 < hi * eps.a2) &&
       (ComputeCnLowerBound(eps, lo, hi) <= 2 || cn >= ComputeCnLowerBound(eps, lo, hi)))
      <==> cn * cn * eps.b2 >= d1 * d2 * eps.a2
  {
    var lo: nat, hi: nat := Min(d1, d2), Max(d1, d2);
    assert lo * hi * eps.a2 == d1 * d2 * eps.a2 by {
      assert lo * hi == d1 * d2;
    }
    if lo * eps.b2 < hi * eps.a2 {
      RatioPruneSound(cn, lo, hi, eps.a2, eps.b2);
    } else {
      BoundDecides(eps, lo, hi, cn);
      BoundDecides(eps, lo, hi, 2);
    }
  }

  /** The verdict as a function of the closed common count `cn`, given that
      `cn` is two plus the merge-join count and at most the smaller degree. */
  lemma VerdictByCount(g: Graph, eps: Threshold, u: int, v: int, cn: nat)
    requires 0 <= u < g.n && 0 <= v < g.n
    requires cn == 2 + Common(g.Slice(u), g.Slice(v))
    requires cn <= g.degree[u] && cn <= g.degree[v]
    ensures EdgeVerdict(g, eps, u, v) == Similar <==> cn * cn * eps.b2 >= g.degree[u] * g.degree[v] * eps.a2
  {
    PrunedTestByCount(eps, g.degree[u], g.degree[v], cn);
  }

  /** With closed-neighbourhood degrees, the verdict of lines 77-87 is exactly
      sigma(u, v) >= eps, i.e. cn^2 * b2 >= du * dv * a2 where cn counts the
      shared members of the two closed neighbourhoods. */
  lemma VerdictIsScanTest(g: Graph, eps: Threshold, u: int, v: int)
    requires g.SortedSlices() && g.Symmetric() && g.NoSelfLoops() && g.ClosedDegrees()
    requires 0 <= u < g.n && v in g.Slice(u)
    ensures 0 <= v < g.n
    ensures var cn := |g.ClosedNeighborhood(u) * g.ClosedNeighborhood(v)|;
      EdgeVerdict(g, eps, u, v) == Similar <==> cn * cn * eps.b2 >= g.degree[u] * g.degree[v] * eps.a2
  {
    ClosedCommon(g, u, v);
    VerdictByCount(g, eps, u, v, |g.ClosedNeighborhood(u) * g.ClosedNeighborhood(v)|);
  }
}
