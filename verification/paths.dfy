/** Adjacency matrices, paths over them, path costs, reachability and the
    distance labels both search engines keep. */
module Paths {

  /** A vertex is identified by its index in the graph's vertex array. */
  type Vertex = nat

  /** An ordered route of vertex indices. */
  type Path = seq<Vertex>

  /** An n-by-n weight table: entry [u][v] is the weight of edge u-v, 0 meaning "no edge". */
  type Matrix = seq<seq<real>>

  ghost predicate Square(m: Matrix) {
    forall u :: 0 <= u < |m| ==> |m[u]| == |m|
  }

  ghost predicate NonNegative(m: Matrix)
    requires Square(m)
  {
    forall u, v :: 0 <= u < |m| && 0 <= v < |m| ==> m[u][v] >= 0.0
  }

  ghost predicate Symmetric(m: Matrix)
    requires Square(m)
  {
    forall u, v :: 0 <= u < |m| && 0 <= v < |m| ==> m[u][v] == m[v][u]
  }

  ghost predicate ZeroDiagonal(m: Matrix)
    requires Square(m)
  {
    forall u :: 0 <= u < |m| ==> m[u][u] == 0.0
  }

  /** Row `u` holds no edge at all. */
  ghost predicate IsolatedRow(m: Matrix, u: Vertex)
    requires Square(m) && u < |m|
  {
    forall v :: 0 <= v < |m| ==> m[u][v] == 0.0
  }

  function Last(p: Path): Vertex
    requires |p| > 0
  {
    p[|p| - 1]
  }

  /** A non-empty vertex sequence whose consecutive vertices are joined by a nonzero entry. */
  ghost predicate IsPath(m: Matrix, p: Path) {
    && Square(m)
    && |p| > 0
    && (forall i :: 0 <= i < |p| ==> p[i] < |m|)
    && (forall i :: 0 <= i < |p| - 1 ==> m[p[i]][p[i + 1]] != 0.0)
  }

  ghost predicate Walk(m: Matrix, s: Vertex, d: Vertex, p: Path) {
    IsPath(m, p) && p[0] == s && Last(p) == d
  }

  /** No vertex occurs twice. */
  ghost predicate Simple(p: Path) {
    forall i, j :: 0 <= i < j < |p| ==> p[i] != p[j]
  }

  ghost predicate Reachable(m: Matrix, s: Vertex, d: Vertex) {
    exists p :: Walk(m, s, d, p)
  }

  /** Sum of the weights of the edges along `p`. */
  ghost function Cost(m: Matrix, p: Path): real
    requires IsPath(m, p)
    decreases |p|
  {
    if |p| == 1 then 0.0
    else
      assert IsPath(m, p[..|p| - 1]);
      Cost(m, p[..|p| - 1]) + m[p[|p| - 2]][p[|p| - 1]]
  }

  /** Extending a path by one edge adds exactly that edge's weight. */
  lemma CostAppend(m: Matrix, p: Path, x: Vertex)
    requires IsPath(m, p) && x < |m| && m[Last(p)][x] != 0.0
    ensures IsPath(m, p + [x])
    ensures Cost(m, p + [x]) == Cost(m, p) + m[Last(p)][x]
  {
    var q := p + [x];
    assert q[..|q| - 1] == p;
  }

  lemma {:induction false} CostNonNegative(m: Matrix, p: Path)
    requires IsPath(m, p) && NonNegative(m)
    ensures Cost(m, p) >= 0.0
    decreases |p|
  {
    if |p| > 1 {
      assert IsPath(m, p[..|p| - 1]);
      CostNonNegative(m, p[..|p| - 1]);
    }
  }

  /** Every prefix of a path is a path, and with non-negative weights it costs no more. */
  lemma {:induction false} CostPrefix(m: Matrix, p: Path, k: nat)
    requires IsPath(m, p) && NonNegative(m) && k < |p|
    ensures IsPath(m, p[..k + 1])
    ensures Cost(m, p[..k + 1]) <= Cost(m, p)
    decreases |p|
  {
    if k + 1 == |p| {
      assert p[..k + 1] == p;
    } else {
      var p' := p[..|p| - 1];
      assert IsPath(m, p');
      assert p'[..k + 1] == p[..k + 1];
      CostPrefix(m, p', k);
    }
  }

  /** A set of vertices closed under edges contains the end of every path that starts in it. */
  lemma {:induction false} WalkStaysInside(m: Matrix, inside: set<Vertex>, p: Path)
    requires Square(m)
    requires IsPath(m, p) && p[0] in inside
    requires forall u: Vertex, v: Vertex :: u in inside && u < |m| && v < |m| && m[u][v] != 0.0 ==> v in inside
    ensures Last(p) in inside
    decreases |p|
  {
    if |p| > 1 {
      var p' := p[..|p| - 1];
      assert IsPath(m, p');
      WalkStaysInside(m, inside, p');
      assert m[p[|p| - 2]][p[|p| - 1]] != 0.0;
    }
  }

  // ---------------------------------------------------------------------------
  // Distance labels

  /** A best-known distance; `Infinite` stands for the `double.MaxValue` sentinel. */
  datatype Dist = Finite(value: real) | Infinite

  function Plus(d: Dist, w: real): Dist {
    match d
    case Finite(x) => Finite(x + w)
    case Infinite => Infinite
  }

  /** The engines' strict `<` on labels; nothing is below the sentinel's own value. */
  predicate Less(a: Dist, b: Dist) {
    a.Finite? && (b.Infinite? || a.value < b.value)
  }

  predicate AtMost(a: Dist, b: Dist) {
    !Less(b, a)
  }

  // ---------------------------------------------------------------------------
  // Finitely many simple paths

  /** All sequences over [0, n) of length at most k. */
  ghost function Words(n: nat, k: nat): set<Path>
    decreases k
  {
    if k == 0 then {[]}
    else Words(n, k - 1) + (set p, x | p in Words(n, k - 1) && 0 <= x < n :: p + [x])
  }

  lemma {:induction false} InWords(n: nat, k: nat, p: Path)
    requires |p| <= k && forall i :: 0 <= i < |p| ==> p[i] < n
    ensures p in Words(n, k)
    decreases k
  {
    if k > 0 {
      if |p| == k {
        var p' := p[..|p| - 1];
        InWords(n, k - 1, p');
        assert p == p' + [p[|p| - 1]];
      } else {
        InWords(n, k - 1, p);
      }
    }
  }

  /** The vertex indices below n. */
  ghost function Range(n: nat): (r: set<Vertex>)
    ensures forall v: int :: v in r <==> 0 <= v < n
    ensures |r| == n
  {
    if n == 0 then {} else Range(n - 1) + {n - 1}
  }

  ghost function Elements(p: Path): set<Vertex> {
    set i | 0 <= i < |p| :: p[i]
  }

  lemma {:induction false} SimpleElements(p: Path)
    requires Simple(p)
    ensures |Elements(p)| == |p|
    decreases |p|
  {
    if |p| > 0 {
      var p' := p[..|p| - 1];
      SimpleElements(p');
      assert Elements(p) == Elements(p') + {Last(p)};
      assert Last(p) !in Elements(p');
    }
  }

  lemma SubsetSize<T>(a: set<T>, b: set<T>)
    requires a <= b
    ensures |a| <= |b|
  {
    assert b == a + (b - a);
  }

  /** Pigeonhole: a simple path over n vertices has at most n vertices. */
  lemma SimpleBound(p: Path, n: nat)
    requires Simple(p) && forall i :: 0 <= i < |p| ==> p[i] < n
    ensures |p| <= n
  {
    SimpleElements(p);
    SubsetSize(Elements(p), Range(n));
  }
}
