/** The `AStar` engine: a best-first search over the adjacency matrix, ordered by the priority
    queue on distance plus the Euclidean estimate to the destination, with no closed set, and
    an exit the moment the destination is extracted from the queue. */
module AStarSearch {
  import opened Paths
  import opened Graphs
  import opened Search
  import opened PriorityQueue
  import opened AStarInvariant

  /** The straight-line estimate from a vertex to the destination: for a Euclidean distance
      it is never negative, zero exactly when the two share a position, and the same from
      either end. The search itself relies on none of this. */
  function Heuristic(g: Graph, w: WeightFn, node: Vertex, destination: Vertex): (r: real)
    requires node < |g.vertices| && destination < |g.vertices|
    ensures IsEuclidean(w) ==> r >= 0.0 && (r == 0.0 <==> g.vertices[node] == g.vertices[destination])
    ensures IsEuclidean(w) ==> r == w(g.vertices[destination], g.vertices[node])
  {
    w(g.vertices[node], g.vertices[destination])
  }

  /** One iteration of the neighbour loop of the expanded vertex `c`: neighbour `k` is
      relaxed exactly when joined to `c` and strictly improved by going through it; then its
      label drops to the tentative distance, its path is rebuilt through `c`, one queue entry
      with priority tentative + estimate is appended and one notification is raised. */
  method ExpandOne(g: Graph, w: WeightFn, source: Vertex, destination: Vertex, dist0: seq<Dist>,
                   paths0: seq<Path>, trace0: seq<Path>, queue0: Queue<Vertex>, c: Vertex, k: Vertex)
    returns (dist: seq<Dist>, paths: seq<Path>, trace: seq<Path>, queue: Queue<Vertex>, relaxed: bool)
    requires |g.vertices| == |g.adjacency| && destination < |g.adjacency|
    requires Consistent(g.adjacency, source, dist0, paths0) && Notified(g.adjacency, source, dist0, paths0, trace0)
    requires NonNegative(g.adjacency) && Prefixed(g.adjacency, dist0, paths0) && Queued(g.adjacency, dist0, queue0)
    requires c < |g.adjacency| && k < |g.adjacency| && dist0[c].Finite?
    requires c != destination && Unexpanded(paths0, destination) && Unexpanded(trace0, destination)
    ensures relaxed <==> g.adjacency[c][k] != 0.0 && Less(Plus(dist0[c], g.adjacency[c][k]), dist0[k])
    ensures Consistent(g.adjacency, source, dist, paths) && Notified(g.adjacency, source, dist, paths, trace)
    ensures Prefixed(g.adjacency, dist, paths) && Queued(g.adjacency, dist, queue)
    ensures !relaxed ==> dist == dist0 && paths == paths0 && trace == trace0 && queue == queue0
    ensures relaxed ==> && dist == dist0[k := Plus(dist0[c], g.adjacency[c][k])]
                        && paths == paths0[k := paths0[c] + [k]]
                        && trace == trace0 + [paths0[c] + [k]]
                        && |queue| == |queue0| + 1
                        && queue[|queue0|] == Entry(k, Plus(dist0[c], g.adjacency[c][k]).value + Heuristic(g, w, k, destination))
    ensures relaxed ==> Pending(g.adjacency, source, dist) < Pending(g.adjacency, source, dist0)
    ensures Lower(dist, dist0)
    ensures g.adjacency[c][k] != 0.0 ==> dist[k].Finite?
    ensures queue0 <= queue
    ensures Unexpanded(paths, destination) && Unexpanded(trace, destination)
  {
    var m := g.adjacency;
    if m[c][k] != 0.0 && Less(Plus(dist0[c], m[c][k]), dist0[k]) {
      var tentative := Plus(dist0[c], m[c][k]);
      var priority := tentative.value + Heuristic(g, w, k, destination);
      RelaxStep(m, source, dist0, paths0, trace0, queue0, c, k, priority);
      UnexpandedExtend(paths0, trace0, c, k, destination);
      var path := paths0[c] + [k];
      dist := dist0[k := tentative];
      paths := paths0[k := path];
      queue := Enqueue(queue0, k, priority);
      trace := trace0 + [path];
      relaxed := true;
    } else {
      dist, paths, trace, queue, relaxed := dist0, paths0, trace0, queue0, false;
    }
  }

  /** The neighbour loop of the expanded vertex `c`. Afterwards every neighbour of `c` is
      labelled, so `c` need no longer be waiting; either nothing changed or the measure fell. */
  method Expand(g: Graph, w: WeightFn, source: Vertex, destination: Vertex, dist0: seq<Dist>,
                paths0: seq<Path>, trace0: seq<Path>, queue0: Queue<Vertex>, c: Vertex)
    returns (dist: seq<Dist>, paths: seq<Path>, trace: seq<Path>, queue: Queue<Vertex>)
    requires |g.vertices| == |g.adjacency| && destination < |g.adjacency|
    requires Consistent(g.adjacency, source, dist0, paths0) && Notified(g.adjacency, source, dist0, paths0, trace0)
    requires NonNegative(g.adjacency) && Prefixed(g.adjacency, dist0, paths0) && Queued(g.adjacency, dist0, queue0)
    requires c < |g.adjacency| && dist0[c].Finite? && Frontier(g.adjacency, dist0, queue0, c)
    requires c != destination && Unexpanded(paths0, destination) && Unexpanded(trace0, destination)
    ensures Invariant(g.adjacency, source, dist, paths, trace, queue)
    ensures Unexpanded(paths, destination) && Unexpanded(trace, destination)
    ensures forall v :: 0 <= v < |g.adjacency| && g.adjacency[c][v] != 0.0 ==> dist[v].Finite?
    ensures Lower(dist, dist0)
    ensures (dist == dist0 && paths == paths0 && trace == trace0 && queue == queue0) ||
            Pending(g.adjacency, source, dist) < Pending(g.adjacency, source, dist0)
  {
    var m := g.adjacency;
    dist, paths, trace, queue := dist0, paths0, trace0, queue0;
    var neighbor := 0;
    while neighbor < |m|
      invariant 0 <= neighbor <= |m|
      invariant Progress(m, source, c, neighbor, dist0, paths0, trace0, queue0, dist, paths, trace, queue)
      invariant Unexpanded(paths, destination) && Unexpanded(trace, destination)
    {
      dist, paths, trace, queue := ExpandStep(g, w, source, destination, dist0, paths0, trace0, queue0, c, neighbor,
                                              dist, paths, trace, queue);
      neighbor := neighbor + 1;
    }
    Reframe(m, source, c, dist0, paths0, trace0, queue0, dist, paths, trace, queue);
  }

  /** One pass of the neighbour loop, as far as the loop's bookkeeping is concerned. */
  method ExpandStep(g: Graph, w: WeightFn, source: Vertex, destination: Vertex, dist0: seq<Dist>,
                    paths0: seq<Path>, trace0: seq<Path>, queue0: Queue<Vertex>, c: Vertex, neighbor: Vertex,
                    dist1: seq<Dist>, paths1: seq<Path>, trace1: seq<Path>, queue1: Queue<Vertex>)
    returns (dist: seq<Dist>, paths: seq<Path>, trace: seq<Path>, queue: Queue<Vertex>)
    requires Progress(g.adjacency, source, c, neighbor, dist0, paths0, trace0, queue0, dist1, paths1, trace1, queue1)
    requires |g.vertices| == |g.adjacency| && destination < |g.adjacency| && NonNegative(g.adjacency)
    requires neighbor < |g.adjacency| && dist0[c].Finite?
    requires c != destination && Unexpanded(paths1, destination) && Unexpanded(trace1, destination)
    ensures Progress(g.adjacency, source, c, neighbor + 1, dist0, paths0, trace0, queue0, dist, paths, trace, queue)
    ensures Unexpanded(paths, destination) && Unexpanded(trace, destination)
  {
    var m := g.adjacency;
    var relaxed;
    dist, paths, trace, queue, relaxed := ExpandOne(g, w, source, destination, dist1, paths1, trace1, queue1, c, neighbor);
    if relaxed {
      PendingMonotone(m, source, dist1, dist0);
    }
    forall v | 0 <= v <= neighbor && m[c][v] != 0.0
      ensures dist[v].Finite?
    {
      assert dist1[v].Finite? || v == neighbor;
    }
    forall u | 0 <= u < |m| && dist[u].Finite? && !dist0[u].Finite?
      ensures Waiting(queue, u)
    {
      if u == neighbor && relaxed {
        assert queue[|queue1|].item == u;
      } else {
        StillWaiting(queue1, queue, u);
      }
    }
  }

  /** The `AStar` method. Returns the path table and the notifications raised, in order. */
  method AStar(g: Graph, w: WeightFn, source: Vertex, destination: Vertex) returns (paths: seq<Path>, trace: seq<Path>)
    requires |g.vertices| == |g.adjacency|
    requires Square(g.adjacency) && NonNegative(g.adjacency)
    requires source < |g.adjacency| && destination < |g.adjacency|
    ensures |paths| == |g.adjacency| && paths[source] == [source]
    ensures forall v :: 0 <= v < |paths| && paths[v] != [] ==>
              Walk(g.adjacency, source, v, paths[v]) && Simple(paths[v])
    ensures forall j :: 0 <= j < |trace| ==>
              IsPath(g.adjacency, trace[j]) && trace[j][0] == source && Simple(trace[j]) && Last(trace[j]) != source
    ensures Cheaper(g.adjacency, trace)
    ensures forall v :: 0 <= v < |paths| && v != source ==> paths[v] == Latest(trace, v)
    ensures paths[destination] != [] <==> Reachable(g.adjacency, source, destination)
    ensures source == destination ==> trace == [] && forall v :: 0 <= v < |paths| && v != source ==> paths[v] == []
    ensures forall v, i :: 0 <= v < |paths| && 0 <= i < |paths[v]| - 1 ==> paths[v][i] != destination
    ensures forall j, i :: 0 <= j < |trace| && 0 <= i < |trace[j]| - 1 ==> trace[j][i] != destination
  {
    var m := g.adjacency;
    var n := |m|;
    paths := InitialPaths(n, source);
    var dist := InitialDist(n, source);
    var queue := Enqueue([], source, Heuristic(g, w, source, destination));
    trace := [];
    Start(m, source, queue);
    while |queue| > 0
      invariant Invariant(m, source, dist, paths, trace, queue)
      invariant Unexpanded(paths, destination) && Unexpanded(trace, destination)
      invariant source == destination ==> trace == [] && paths == InitialPaths(n, source) &&
                                          |queue| == 1 && queue[0].item == source
      decreases Pending(m, source, dist), |queue|
    {
      var current, rest := Dequeue(queue);
      if current == destination {
        Arrived(m, source, dist, paths, trace, queue, current);
        return;
      }
      ghost var b :| IsFirstMin(queue, b) && current == queue[b].item && rest == queue[..b] + queue[b + 1..];
      Extracted(m, dist, queue, b);
      dist, paths, trace, queue := Expand(g, w, source, destination, dist, paths, trace, rest, current);
    }
    Drained(m, source, dist, paths, trace, destination);
    Finish(m, source, dist, paths, trace, queue);
  }

  lemma Start(m: Matrix, source: Vertex, queue: Queue<Vertex>)
    requires Square(m) && NonNegative(m) && source < |m|
    requires |queue| == 1 && queue[0].item == source
    ensures Invariant(m, source, InitialDist(|m|, source), InitialPaths(|m|, source), [], queue)
  {
    InitialState(m, source);
    var paths := InitialPaths(|m|, source);
    assert paths[source][..1] == [source];
    assert PrefixBounded(m, InitialDist(|m|, source), paths[source], 0);
    assert Waiting(queue, source);
  }

  /** Extracting the destination: it has a path, which is a walk to it. */
  lemma Arrived(m: Matrix, source: Vertex, dist: seq<Dist>, paths: seq<Path>, trace: seq<Path>,
                queue: Queue<Vertex>, d: Vertex)
    requires Invariant(m, source, dist, paths, trace, queue) && Waiting(queue, d)
    ensures paths[d] != [] && Reachable(m, source, d)
    ensures Finished(m, source, dist, paths, trace)
  {
    assert Walk(m, source, d, paths[d]);
  }

  /** The engine's table and notification promises, from the loop invariant. */
  ghost predicate Finished(m: Matrix, source: Vertex, dist: seq<Dist>, paths: seq<Path>, trace: seq<Path>) {
    && Square(m) && |paths| == |m| && source < |m| && paths[source] == [source]
    && (forall v :: 0 <= v < |paths| && paths[v] != [] ==> Walk(m, source, v, paths[v]) && Simple(paths[v]))
    && (forall j :: 0 <= j < |trace| ==>
          IsPath(m, trace[j]) && trace[j][0] == source && Simple(trace[j]) && Last(trace[j]) != source)
    && Cheaper(m, trace)
    && (forall v :: 0 <= v < |paths| && v != source ==> paths[v] == Latest(trace, v))
  }

  lemma Finish(m: Matrix, source: Vertex, dist: seq<Dist>, paths: seq<Path>, trace: seq<Path>, queue: Queue<Vertex>)
    requires Invariant(m, source, dist, paths, trace, queue)
    ensures Finished(m, source, dist, paths, trace)
  {
  }
}
