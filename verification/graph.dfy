/** The graph both engines search: vertex positions on the canvas and a weighted
    adjacency matrix, plus the matrix operations the two constructors share. */
module Graphs {
  import opened Paths

  /** A vertex's fixed position on the canvas. */
  datatype Point = Point(x: int, y: int)

  /** Vertex positions, and an adjacency matrix indexed like `vertices`. */
  datatype Graph = Graph(vertices: seq<Point>, adjacency: Matrix)

  /** The distance between two positions. `Graph.cs` computes sqrt(dx*dx + dy*dy) in
      floating point; the model takes it as a given function. */
  type WeightFn = (Point, Point) -> real

  /** What the model relies on about the Euclidean distance of integer points. */
  ghost predicate IsEuclidean(w: WeightFn) {
    forall p, q :: w(p, q) >= 0.0 && w(p, q) == w(q, p) && (w(p, q) == 0.0 <==> p == q)
  }

  /** An undirected, non-negatively weighted graph without self-loops. */
  ghost predicate WellFormed(g: Graph) {
    && |g.adjacency| == |g.vertices|
    && Square(g.adjacency)
    && NonNegative(g.adjacency)
    && Symmetric(g.adjacency)
    && ZeroDiagonal(g.adjacency)
  }

  /** Two vertices share a position. */
  ghost predicate Coincide(vertices: seq<Point>) {
    exists i, j :: 0 <= i < j < |vertices| && vertices[i] == vertices[j]
  }

  /** The most edges a simple undirected graph on n vertices can hold. */
  function MaxEdges(n: nat): int {
    n * (n - 1) / 2
  }

  /** The n-by-n all-zero matrix (a fresh `double[n, n]`). */
  function Zeros(n: nat): (r: Matrix)
    ensures |r| == n && Square(r)
    ensures forall u, v :: 0 <= u < n && 0 <= v < n ==> r[u][v] == 0.0
  {
    seq(n, _ => seq(n, _ => 0.0))
  }

  /** Writes weight `w` into both [u][v] and [v][u]; every other entry keeps its value. */
  function Link(m: Matrix, u: Vertex, v: Vertex, w: real): (r: Matrix)
    requires Square(m) && u < |m| && v < |m|
    ensures |r| == |m| && Square(r)
    ensures r[u][v] == w && r[v][u] == w
    ensures forall a, b :: 0 <= a < |m| && 0 <= b < |m| && !(a == u && b == v) && !(a == v && b == u) ==>
              r[a][b] == m[a][b]
  {
    var m1 := m[u := m[u][v := w]];
    m1[v := m1[v][u := w]]
  }

  /** Writing the weights an entry pair already holds changes nothing. */
  lemma LinkSame(m: Matrix, u: Vertex, v: Vertex, w: real)
    requires Square(m) && u < |m| && v < |m|
    requires m[u][v] == w && m[v][u] == w
    ensures Link(m, u, v, w) == m
  {
    var r := Link(m, u, v, w);
    forall a | 0 <= a < |m|
      ensures r[a] == m[a]
    {
      assert |r[a]| == |m[a]|;
    }
  }

  /** The undirected edges of `m`, each as (smaller index, larger index). */
  ghost function EdgeSet(m: Matrix): set<(Vertex, Vertex)>
    requires Square(m)
  {
    set u: Vertex, v: Vertex | u < v < |m| && m[u][v] != 0.0 :: (u, v)
  }

  /** All unordered pairs of distinct vertices below n. */
  ghost function AllPairs(n: nat): set<(Vertex, Vertex)> {
    set u: Vertex, v: Vertex | u < v < n :: (u, v)
  }

  ghost function PairsTo(k: nat, v: Vertex): set<(Vertex, Vertex)> {
    set u: Vertex | u < k :: (u, v)
  }

  lemma {:induction false} PairsToSize(k: nat, v: Vertex)
    ensures |PairsTo(k, v)| == k
  {
    if k > 0 {
      PairsToSize(k - 1, v);
      assert PairsTo(k, v) == PairsTo(k - 1, v) + {(k - 1, v)};
    }
  }

  /** There are exactly n*(n-1)/2 unordered pairs of distinct vertices. */
  lemma {:induction false} AllPairsSize(n: nat)
    ensures |AllPairs(n)| == MaxEdges(n)
  {
    if n > 0 {
      AllPairsSize(n - 1);
      PairsToSize(n - 1, n - 1);
      assert AllPairs(n) == AllPairs(n - 1) + PairsTo(n - 1, n - 1);
      assert AllPairs(n - 1) !! PairsTo(n - 1, n - 1);
      assert n * (n - 1) == (n - 1) * (n - 2) + 2 * (n - 1);
    }
  }

  /** No matrix holds more edges than the constructors' n*(n-1)/2 guard admits. */
  lemma EdgeSetBound(m: Matrix)
    requires Square(m)
    ensures |EdgeSet(m)| <= MaxEdges(|m|)
  {
    AllPairsSize(|m|);
    SubsetSize(EdgeSet(m), AllPairs(|m|));
  }

  /** The edge a link of u and v writes, as (smaller index, larger index). */
  function Pair(u: Vertex, v: Vertex): (Vertex, Vertex) {
    if u < v then (u, v) else (v, u)
  }

  lemma LinkEdgesWithin(m: Matrix, u: Vertex, v: Vertex, w: real)
    requires Square(m) && u < |m| && v < |m| && u != v
    ensures EdgeSet(Link(m, u, v, w)) <= EdgeSet(m) + {Pair(u, v)}
  {
    var r := Link(m, u, v, w);
    forall pair | pair in EdgeSet(r)
      ensures pair in EdgeSet(m) + {Pair(u, v)}
    {
      var (a, b) := pair;
      if pair != Pair(u, v) {
        assert r[a][b] == m[a][b];
      }
    }
  }

  lemma LinkEdgesCover(m: Matrix, u: Vertex, v: Vertex, w: real)
    requires Square(m) && u < |m| && v < |m| && u != v && w != 0.0
    ensures EdgeSet(m) + {Pair(u, v)} <= EdgeSet(Link(m, u, v, w))
  {
    var r := Link(m, u, v, w);
    forall pair | pair in EdgeSet(m) + {Pair(u, v)}
      ensures pair in EdgeSet(r)
    {
      var (a, b) := pair;
      if pair != Pair(u, v) {
        assert r[a][b] == m[a][b];
      }
    }
  }

  /** Linking a pair that had no edge, with a nonzero weight, adds exactly one edge. */
  lemma LinkAddsEdge(m: Matrix, u: Vertex, v: Vertex, w: real)
    requires Square(m) && Symmetric(m) && u < |m| && v < |m| && u != v
    requires m[u][v] == 0.0 && w != 0.0
    ensures |EdgeSet(Link(m, u, v, w))| == |EdgeSet(m)| + 1
  {
    LinkEdgesWithin(m, u, v, w);
    LinkEdgesCover(m, u, v, w);
    assert EdgeSet(Link(m, u, v, w)) == EdgeSet(m) + {Pair(u, v)};
    assert Pair(u, v) !in EdgeSet(m);
  }
}
