/** The graph store: a compressed-sparse-row graph, read-only for the whole run.
    Vertex `u` has the out-edges `edges[start[u] .. start[u+1]]`; `degree[u]` is
    whatever the graph loader supplies for `u` (the engine never derives it). */
module GraphStore {

  datatype Csr = Csr(n: nat, start: seq<int>, edges: seq<int>, degree: seq<int>)
  {
    /** Shape the engine relies on for every array access. */
    predicate WellFormed() {
      |start| == n + 1 && |degree| == n &&
      start[0] == 0 && start[n] == |edges| &&
      (forall i, j :: 0 <= i <= j <= n ==> start[i] <= start[j]) &&
      (forall k :: 0 <= k < |edges| ==> 0 <= edges[k] < n) &&
      (forall v :: 0 <= v < n ==> 0 <= degree[v])
    }

    /** The neighbour ids of `u`, in storage order. */
    function Slice(u: int): (s: seq<int>)
      requires WellFormed() && 0 <= u < n
      ensures |s| == start[u + 1] - start[u]
      ensures forall k :: 0 <= k < |s| ==> 0 <= s[k] < n
    {
      assert start[0] <= start[u] <= start[u + 1] <= start[n];
      edges[start[u]..start[u + 1]]
    }

    /** Every neighbour slice is strictly ascending (sorted, no repeated edge). */
    predicate SortedSlices()
      requires WellFormed()
    {
      forall u :: 0 <= u < n ==> StrictlyAscending(Slice(u))
    }

    /** The edge list is the directed doubling of an undirected graph. */
    predicate Symmetric()
      requires WellFormed()
    {
      forall u, v :: 0 <= u < n && 0 <= v < n ==> (v in Slice(u) <==> u in Slice(v))
    }

    predicate NoSelfLoops()
      requires WellFormed()
    {
      forall u :: 0 <= u < n ==> u !in Slice(u)
    }

    /** `degree[u]` is the size of the closed neighbourhood of `u` (its neighbours plus itself). */
    predicate ClosedDegrees()
      requires WellFormed()
    {
      forall u :: 0 <= u < n ==> degree[u] == start[u + 1] - start[u] + 1
    }

    /** The closed neighbourhood N+(u): the neighbours of `u` and `u` itself. */
    function ClosedNeighborhood(u: int): (c: set<int>)
      requires WellFormed() && 0 <= u < n
      ensures u in c
    {
      Elems(Slice(u)) + {u}
    }
  }

  /** A graph the engine can run on. */
  type Graph = g: Csr | g.WellFormed() witness Csr(0, [0], [], [])

  predicate StrictlyAscending(s: seq<int>) {
    forall i, j :: 0 <= i < j < |s| ==> s[i] < s[j]
  }

  function Elems(s: seq<int>): (e: set<int>)
    ensures forall x :: x in e <==> x in s
  {
    set x | x in s
  }
}
