/** The random constructor `Graph(numberOfVertices, numberOfEdges, height, width)`.
    `System.Random` is modelled as a finite stream of raw draws; each call
    `random.Next(bound)` consumes one draw and reduces it into [0, bound). */
module RandomGraph {
  import opened Paths
  import opened Graphs

  /** `random.Next(bound)`: the next draw reduced into [0, bound). */
  function Next(raw: nat, bound: nat): nat {
    if bound == 0 then 0 else raw % bound
  }

  /** Every value the real generator can return is the reduction of some draw, so the
      stream model leaves out no behaviour of `System.Random`. */
  lemma NextCovers(value: nat, bound: nat)
    requires value < bound
    ensures Next(value, bound) == value
  {
  }

  datatype Outcome =
    | Built(graph: Graph)
    /** The `ArgumentOutOfRangeException` of the edge-count guard. */
    | TooManyEdges
    /** The finite stream ran out before construction finished (no counterpart in `Graph.cs`). */
    | DrawsExhausted

  /** A coordinate drawn with `random.Next(bound)`: inside [0, bound), or 0 for an empty range. */
  predicate OnCanvas(c: int, bound: nat) {
    0 <= c && (if bound == 0 then c == 0 else c < bound)
  }

  /** Places vertex i at (Next(draw 2i, width), Next(draw 2i+1, height)). */
  method PlaceVertices(n: nat, height: nat, width: nat, random: seq<nat>)
    returns (ok: bool, vertices: seq<Point>, cursor: nat)
    ensures ok <==> 2 * n <= |random|
    ensures ok ==> cursor == 2 * n && |vertices| == n
    ensures ok ==> forall i :: 0 <= i < n ==>
              vertices[i] == Point(Next(random[2 * i], width), Next(random[2 * i + 1], height))
    ensures ok ==> forall i :: 0 <= i < n ==>
              OnCanvas(vertices[i].x, width) && OnCanvas(vertices[i].y, height)
  {
    vertices := [];
    cursor := 0;
    if |random| < 2 * n {
      return false, vertices, cursor;
    }
    while |vertices| < n
      invariant |vertices| <= n && cursor == 2 * |vertices|
      invariant forall i :: 0 <= i < |vertices| ==>
                  vertices[i] == Point(Next(random[2 * i], width), Next(random[2 * i + 1], height))
      invariant forall i :: 0 <= i < |vertices| ==>
                  OnCanvas(vertices[i].x, width) && OnCanvas(vertices[i].y, height)
    {
      vertices := vertices + [Point(Next(random[cursor], width), Next(random[cursor + 1], height))];
      cursor := cursor + 2;
    }
    ok := true;
  }

  /** One edge draw: a source vertex, then destination vertices drawn until one differs from
      the source vertex. On success the draws at positions cursor+1 .. next-2 all repeated the
      source vertex. */
  method DrawEdge(n: nat, random: seq<nat>, cursor: nat)
    returns (ok: bool, source: Vertex, destination: int, next: nat)
    ensures ok ==> cursor + 2 <= next <= |random|
    ensures ok ==> source == Next(random[cursor], n) && destination == Next(random[next - 1], n)
    ensures ok ==> source < n && 0 <= destination < n && source != destination
    ensures ok ==> forall k :: cursor < k < next - 1 ==> Next(random[k], n) == source
    ensures !ok ==> next == if cursor < |random| then |random| else cursor
    ensures !ok ==> cursor >= |random| ||
                    forall k :: cursor < k < |random| ==> Next(random[k], n) == Next(random[cursor], n)
    ensures cursor + 1 < |random| && Next(random[cursor], n) != Next(random[cursor + 1], n) ==>
              ok && next == cursor + 2
  {
    if cursor >= |random| {
      return false, 0, -1, cursor;
    }
    source := Next(random[cursor], n);
    destination := -1;
    next := cursor + 1;
    while destination == -1 || destination == source
      invariant cursor < next <= |random|
      invariant destination == -1 <==> next == cursor + 1
      invariant destination != -1 ==> destination == Next(random[next - 1], n)
      invariant forall k :: cursor < k < next - 1 ==> Next(random[k], n) == source
      invariant cursor + 1 < |random| && Next(random[cursor], n) != Next(random[cursor + 1], n) ==>
                  next <= cursor + 2
      decreases |random| - next
    {
      if next >= |random| {
        return false, source, destination, next;
      }
      destination := Next(random[next], n);
      next := next + 1;
    }
    ok := true;
  }

  /** The k-th pair of draws after `cursor`, read as (source, destination). */
  function DrawnPair(n: nat, random: seq<nat>, cursor: nat, k: nat): (Vertex, Vertex)
    requires cursor + 2 * k + 1 < |random|
  {
    (Next(random[cursor + 2 * k], n), Next(random[cursor + 2 * k + 1], n))
  }

  /** The `count` pairs of draws after `cursor` lie in the stream, each joins two different
      vertices, and no two of them name the same unordered pair: a stream on which every
      edge draw takes exactly two values and lands on a fresh pair. */
  ghost predicate FreshDraws(n: nat, random: seq<nat>, cursor: nat, count: int) {
    && cursor + 2 * count <= |random|
    && (forall k :: 0 <= k < count ==> DrawnPair(n, random, cursor, k).0 != DrawnPair(n, random, cursor, k).1)
    && (forall k, l :: 0 <= k < l < count ==>
          Pair(DrawnPair(n, random, cursor, k).0, DrawnPair(n, random, cursor, k).1) !=
          Pair(DrawnPair(n, random, cursor, l).0, DrawnPair(n, random, cursor, l).1))
  }

  /** The pair `p` names an entry of `m` with no edge. */
  predicate EmptyAt(m: Matrix, p: (Vertex, Vertex)) {
    p.0 < |m| && p.1 < |m| && p.1 < |m[p.0]| && m[p.0][p.1] == 0.0
  }

  /** The edge loop is on schedule for fresh draws: after i counted draws it has used exactly
      2i draws and every pair still to come has no edge. */
  ghost predicate OnSchedule(m: Matrix, n: nat, random: seq<nat>, cursor: nat, count: int, i: nat, used: nat) {
    FreshDraws(n, random, cursor, count) ==>
      used == cursor + 2 * i &&
      forall k :: i <= k < count ==> EmptyAt(m, DrawnPair(n, random, cursor, k))
  }

  /** Linking the i-th fresh pair leaves every later fresh pair without an edge. */
  lemma LinkKeepsFresh(m: Matrix, n: nat, random: seq<nat>, cursor: nat, count: int, i: nat, weight: real)
    requires Square(m) && |m| == n && FreshDraws(n, random, cursor, count) && i < count
    requires forall k :: i <= k < count ==> EmptyAt(m, DrawnPair(n, random, cursor, k))
    ensures EmptyAt(m, DrawnPair(n, random, cursor, i))
    ensures forall k :: i < k < count ==>
              EmptyAt(Link(m, DrawnPair(n, random, cursor, i).0, DrawnPair(n, random, cursor, i).1, weight),
                      DrawnPair(n, random, cursor, k))
  {
  }

  /** One round of the edge loop keeps it on schedule: on fresh draws the edge draw takes
      exactly the next two values and lands on an empty entry, which is then linked. */
  lemma ScheduleStep(m: Matrix, n: nat, random: seq<nat>, cursor: nat, count: int, i: nat, used: nat,
                     drawn: bool, s: Vertex, d: int, next: nat, weight: real)
    requires Square(m) && |m| == n && i < count && used <= |random|
    requires OnSchedule(m, n, random, cursor, count, i, used)
    requires used + 1 < |random| && Next(random[used], n) != Next(random[used + 1], n) ==>
               drawn && next == used + 2
    requires drawn ==> used + 2 <= next <= |random| && s < n && 0 <= d < n
    requires drawn ==> s == Next(random[used], n) && d == Next(random[next - 1], n)
    ensures FreshDraws(n, random, cursor, count) ==> drawn && m[s][d] == 0.0
    ensures drawn && m[s][d] == 0.0 ==> OnSchedule(Link(m, s, d, weight), n, random, cursor, count, i + 1, next)
    ensures drawn && m[s][d] != 0.0 ==> OnSchedule(m, n, random, cursor, count, i, next)
  {
    if FreshDraws(n, random, cursor, count) {
      assert used + 1 < |random|;
      assert (Next(random[used], n), Next(random[used + 1], n)) == DrawnPair(n, random, cursor, i);
      LinkKeepsFresh(m, n, random, cursor, count, i, weight);
    }
  }

  /** The edge loop: draws pairs until `numberOfEdges` draws have been counted, retrying
      (without counting) any draw whose pair already has a nonzero weight. `used` is the
      position in the stream after the last draw; `lost` counts the counted draws that left
      no edge behind. */
  method DrawEdges(vertices: seq<Point>, numberOfEdges: int, w: WeightFn, random: seq<nat>, cursor: nat)
    returns (ok: bool, m: Matrix, used: nat, ghost lost: nat)
    requires IsEuclidean(w) && cursor <= |random|
    ensures cursor <= used <= |random|
    ensures !ok ==> used == |random|
    ensures numberOfEdges <= 0 ==> ok
    ensures ok ==> |m| == |vertices| && Square(m) && NonNegative(m) && Symmetric(m) && ZeroDiagonal(m)
    ensures ok ==> forall u, v :: 0 <= u < |vertices| && 0 <= v < |vertices| ==>
              m[u][v] == 0.0 || m[u][v] == w(vertices[u], vertices[v])
    ensures ok ==> |EdgeSet(m)| + lost == if numberOfEdges < 0 then 0 else numberOfEdges
    ensures lost > 0 ==> Coincide(vertices)
    ensures FreshDraws(|vertices|, random, cursor, numberOfEdges) ==>
              ok && used == cursor + 2 * (if numberOfEdges < 0 then 0 else numberOfEdges)
  {
    var n := |vertices|;
    m := Zeros(n);
    used, lost := cursor, 0;
    var i := 0;
    while i < numberOfEdges
      invariant cursor <= used <= |random|
      invariant |m| == n && Square(m) && NonNegative(m) && Symmetric(m) && ZeroDiagonal(m)
      invariant forall u, v :: 0 <= u < n && 0 <= v < n ==>
                  m[u][v] == 0.0 || m[u][v] == w(vertices[u], vertices[v])
      invariant 0 <= i && (i <= numberOfEdges || i == 0)
      invariant |EdgeSet(m)| + lost == i
      invariant lost > 0 ==> Coincide(vertices)
      invariant OnSchedule(m, n, random, cursor, numberOfEdges, i, used)
      decreases |random| - used
    {
      var drawn, s, d, next := DrawEdge(n, random, used);
      ScheduleStep(m, n, random, cursor, numberOfEdges, i, used, drawn, s, d, next,
                   if drawn then w(vertices[s], vertices[d]) else 0.0);
      used := next;
      if !drawn {
        return false, m, used, lost;
      }
      if m[s][d] == 0.0 {
        CountedDraw(m, vertices, w, s, d);
        lost := lost + if vertices[s] == vertices[d] then 1 else 0;
        m := Link(m, s, d, w(vertices[s], vertices[d]));
        i := i + 1;
      }
    }
    ok := true;
  }

  /** The random constructor. Rejects an edge count above n*(n-1)/2 before drawing
      anything; otherwise places the vertices and runs the edge loop. `used` is the number
      of draws consumed; `lost` counts the counted draws that left no edge behind. */
  method BuildRandomGraph(numberOfVertices: nat, numberOfEdges: int, height: nat, width: nat,
                          w: WeightFn, random: seq<nat>)
    returns (r: Outcome, used: nat, ghost lost: nat)
    requires IsEuclidean(w)
    ensures r.TooManyEdges? <==> numberOfEdges > MaxEdges(numberOfVertices)
    ensures used <= |random| && (r.TooManyEdges? ==> used == 0)
    ensures r.DrawsExhausted? ==> |random| < 2 * numberOfVertices || used == |random|
    ensures numberOfEdges <= 0 && 2 * numberOfVertices <= |random| ==> r.Built?
    ensures r.Built? ==> 2 * numberOfVertices <= used
    ensures r.Built? ==> |r.graph.vertices| == numberOfVertices && WellFormed(r.graph)
    ensures r.Built? ==> forall i :: 0 <= i < numberOfVertices ==>
              r.graph.vertices[i] == Point(Next(random[2 * i], width), Next(random[2 * i + 1], height))
    ensures r.Built? ==> forall i :: 0 <= i < numberOfVertices ==>
              OnCanvas(r.graph.vertices[i].x, width) && OnCanvas(r.graph.vertices[i].y, height)
    ensures r.Built? ==> forall u, v :: 0 <= u < numberOfVertices && 0 <= v < numberOfVertices ==>
              r.graph.adjacency[u][v] == 0.0 ||
              r.graph.adjacency[u][v] == w(r.graph.vertices[u], r.graph.vertices[v])
    ensures r.Built? ==> |EdgeSet(r.graph.adjacency)| + lost == if numberOfEdges < 0 then 0 else numberOfEdges
    ensures r.Built? && lost > 0 ==> Coincide(r.graph.vertices)
    ensures r.Built? && !Coincide(r.graph.vertices) ==>
              |EdgeSet(r.graph.adjacency)| == if numberOfEdges < 0 then 0 else numberOfEdges
    ensures numberOfEdges <= MaxEdges(numberOfVertices) && 2 * numberOfVertices <= |random| &&
            FreshDraws(numberOfVertices, random, 2 * numberOfVertices, numberOfEdges) ==>
              r.Built? && used == 2 * numberOfVertices + 2 * (if numberOfEdges < 0 then 0 else numberOfEdges)
  {
    var n := numberOfVertices;
    used, lost := 0, 0;
    if numberOfEdges > MaxEdges(n) {
      return TooManyEdges, used, lost;
    }
    var placed, vertices, cursor := PlaceVertices(n, height, width, random);
    if !placed {
      return DrawsExhausted, used, lost;
    }
    var ok, m;
    ok, m, used, lost := DrawEdges(vertices, numberOfEdges, w, random, cursor);
    if !ok {
      return DrawsExhausted, used, lost;
    }
    r := Built(Graph(vertices, m));
  }

  /** A counted draw on an empty entry keeps the matrix well formed, with every entry 0 or
      the distance of its endpoints, and adds one edge unless both endpoints share a position. */
  lemma CountedDraw(m: Matrix, vertices: seq<Point>, w: WeightFn, s: Vertex, d: Vertex)
    requires IsEuclidean(w) && |m| == |vertices| && Square(m) && NonNegative(m) && Symmetric(m) && ZeroDiagonal(m)
    requires forall u, v :: 0 <= u < |m| && 0 <= v < |m| ==> m[u][v] == 0.0 || m[u][v] == w(vertices[u], vertices[v])
    requires s < |m| && d < |m| && s != d && m[s][d] == 0.0
    ensures Square(Link(m, s, d, w(vertices[s], vertices[d])))
    ensures NonNegative(Link(m, s, d, w(vertices[s], vertices[d])))
    ensures Symmetric(Link(m, s, d, w(vertices[s], vertices[d])))
    ensures ZeroDiagonal(Link(m, s, d, w(vertices[s], vertices[d])))
    ensures forall u, v :: 0 <= u < |m| && 0 <= v < |m| ==>
              Link(m, s, d, w(vertices[s], vertices[d]))[u][v] == 0.0 ||
              Link(m, s, d, w(vertices[s], vertices[d]))[u][v] == w(vertices[u], vertices[v])
    ensures |EdgeSet(Link(m, s, d, w(vertices[s], vertices[d])))| ==
              |EdgeSet(m)| + if vertices[s] == vertices[d] then 0 else 1
    ensures vertices[s] == vertices[d] ==> Coincide(vertices)
  {
    var weight := w(vertices[s], vertices[d]);
    if weight == 0.0 {
      assert vertices[s] == vertices[d];
      CoincidentDrawIsLost(m, vertices, w, s, d);
      if s < d {
        assert Coincide(vertices) by { assert vertices[s] == vertices[d]; }
      } else {
        assert Coincide(vertices) by { assert vertices[d] == vertices[s]; }
      }
    } else {
      LinkAddsEdge(m, s, d, weight);
    }
  }

  /** The counted-but-lost draw: a draw between two vertices at the same position writes
      weight 0 into an empty entry, so the matrix, and with it the edge set, stays as it was,
      although the constructor counts the draw toward `numberOfEdges`. */
  lemma CoincidentDrawIsLost(m: Matrix, vertices: seq<Point>, w: WeightFn, s: Vertex, d: Vertex)
    requires IsEuclidean(w) && Square(m) && Symmetric(m) && |vertices| == |m| && s < |m| && d < |m|
    requires m[s][d] == 0.0 && vertices[s] == vertices[d]
    ensures Link(m, s, d, w(vertices[s], vertices[d])) == m
    ensures EdgeSet(Link(m, s, d, w(vertices[s], vertices[d]))) == EdgeSet(m)
  {
    LinkSame(m, s, d, w(vertices[s], vertices[d]));
  }

}
