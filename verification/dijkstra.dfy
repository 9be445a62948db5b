/** The `Dejkstra` engine: label-setting over the adjacency matrix with a per-vertex path
    table, a visited table seeded with the vertices that have no edge at all, at most n-1
    selection rounds, and an exit the moment the destination's label first improves. */
module DijkstraSearch {
  import opened Paths
  import opened Graphs
  import opened Search
  import opened DijkstraInvariant

  /** The initial visited table: a vertex counts as visited exactly when its row is all zero. */
  method MarkIsolated(m: Matrix) returns (visited: seq<bool>)
    requires Square(m)
    ensures |visited| == |m|
    ensures forall v :: 0 <= v < |m| ==> (visited[v] <==> IsolatedRow(m, v))
  {
    var n := |m|;
    visited := [];
    while |visited| < n
      invariant |visited| <= n
      invariant forall v :: 0 <= v < |visited| ==> (visited[v] <==> IsolatedRow(m, v))
    {
      var i := |visited|;
      var isolated := true;
      var j := 0;
      while j < n
        invariant 0 <= j <= n
        invariant forall k :: 0 <= k < j ==> m[i][k] == 0.0
      {
        if m[i][j] != 0.0 {
          isolated := false;
          break;
        }
        j := j + 1;
      }
      visited := visited + [isolated];
    }
  }

  /** The selection scan: the first unvisited vertex with the smallest finite label, or -1
      when there is none (the sentinel itself never counts as a candidate). */
  method ClosestUnvisited(dist: seq<Dist>, visited: seq<bool>) returns (minIndex: int)
    requires |dist| == |visited|
    ensures minIndex == -1 <==> NoCandidate(dist, visited)
    ensures minIndex != -1 ==> 0 <= minIndex < |dist| && !visited[minIndex] && dist[minIndex].Finite?
    ensures minIndex != -1 ==> forall v :: 0 <= v < |dist| && !visited[v] ==> AtMost(dist[minIndex], dist[v])
    ensures minIndex != -1 ==> forall v :: 0 <= v < minIndex && !visited[v] ==> Less(dist[minIndex], dist[v])
  {
    var minDistance := Infinite;
    minIndex := -1;
    var j := 0;
    while j < |dist|
      invariant 0 <= j <= |dist|
      invariant minIndex == -1 ==> minDistance == Infinite && forall v :: 0 <= v < j && !visited[v] ==> dist[v] == Infinite
      invariant minIndex != -1 ==> 0 <= minIndex < j && !visited[minIndex] && dist[minIndex] == minDistance
      invariant minIndex != -1 ==> minDistance.Finite?
      invariant minIndex != -1 ==> forall v :: 0 <= v < j && !visited[v] ==> AtMost(minDistance, dist[v])
      invariant minIndex != -1 ==> forall v :: 0 <= v < minIndex && !visited[v] ==> Less(minDistance, dist[v])
    {
      if !visited[j] && Less(dist[j], minDistance) {
        minDistance := dist[j];
        minIndex := j;
      }
      j := j + 1;
    }
  }

  /** One iteration of the relaxation loop: neighbour `k` of the selected vertex `c`. It is
      relaxed exactly when it is unvisited, joined to `c`, and strictly improved by going
      through `c`; then its label, its path and the notification stream change, and nothing else. */
  method RelaxOne(m: Matrix, source: Vertex, destination: int, dist0: seq<Dist>, paths0: seq<Path>,
                  visited: seq<bool>, trace0: seq<Path>, c: Vertex, k: Vertex)
    returns (dist: seq<Dist>, paths: seq<Path>, trace: seq<Path>, relaxed: bool)
    requires Consistent(m, source, dist0, paths0) && Notified(m, source, dist0, paths0, trace0)
    requires |visited| == |m| && c < |m| && k < |m| && visited[c] && dist0[c].Finite?
    requires Settled(paths0, visited)
    requires Awaited(|m|, source, destination) ==> dist0[destination] == Infinite
    ensures relaxed <==> !visited[k] && m[c][k] != 0.0 && Less(Plus(dist0[c], m[c][k]), dist0[k])
    ensures Consistent(m, source, dist, paths) && Notified(m, source, dist, paths, trace)
    ensures Settled(paths, visited)
    ensures !relaxed ==> dist == dist0 && paths == paths0 && trace == trace0
    ensures relaxed ==> && k != source
                        && dist == dist0[k := Plus(dist0[c], m[c][k])]
                        && paths == paths0[k := paths0[c] + [k]]
                        && trace == trace0 + [paths0[c] + [k]]
    ensures !visited[k] && m[c][k] != 0.0 ==> dist[k].Finite?
    ensures trace0 <= trace
    ensures forall v :: 0 <= v < |m| && visited[v] ==> dist[v] == dist0[v] && paths[v] == paths0[v]
    ensures forall v :: 0 <= v < |m| && dist0[v].Finite? ==> dist[v].Finite?
    ensures relaxed ==> |trace| > 0 && Walk(m, source, k, trace[|trace| - 1])
    ensures relaxed && k == destination ==> forall i :: 0 <= i < |trace| - 1 ==> !EndsAt(trace[i], destination)
    ensures !(relaxed && k == destination) ==> Awaited(|m|, source, destination) ==> dist[destination] == Infinite
  {
    if !visited[k] && m[c][k] != 0.0 && Less(Plus(dist0[c], m[c][k]), dist0[k]) {
      RelaxStep(m, source, destination, dist0, paths0, visited, trace0, c, k);
      var path := paths0[c] + [k];
      dist := dist0[k := Plus(dist0[c], m[c][k])];
      paths := paths0[k := path];
      trace := trace0 + [path];
      relaxed := true;
    } else {
      dist, paths, trace, relaxed := dist0, paths0, trace0, false;
    }
  }

  /** The relaxation loop over the neighbours of the selected vertex `c`. Only unvisited
      vertices change; each strict improvement rebuilds the path through `c` and is notified;
      the loop stops right after the destination's first improvement (`reached`). */
  method RelaxNeighbours(m: Matrix, source: Vertex, destination: int, dist0: seq<Dist>, paths0: seq<Path>,
                         visited: seq<bool>, trace0: seq<Path>, c: Vertex)
    returns (dist: seq<Dist>, paths: seq<Path>, trace: seq<Path>, reached: bool)
    requires Consistent(m, source, dist0, paths0) && Notified(m, source, dist0, paths0, trace0)
    requires |visited| == |m| && c < |m| && visited[c] && dist0[c].Finite?
    requires Settled(paths0, visited)
    requires Awaited(|m|, source, destination) ==> dist0[destination] == Infinite
    ensures Consistent(m, source, dist, paths) && Notified(m, source, dist, paths, trace)
    ensures Settled(paths, visited)
    ensures trace0 <= trace
    ensures forall v :: 0 <= v < |m| && visited[v] ==> dist[v] == dist0[v] && paths[v] == paths0[v]
    ensures forall v :: 0 <= v < |m| && dist0[v].Finite? ==> dist[v].Finite?
    ensures reached ==> Awaited(|m|, source, destination) && |trace| > 0 && Walk(m, source, destination, trace[|trace| - 1])
    ensures reached ==> forall i :: 0 <= i < |trace| - 1 ==> !EndsAt(trace[i], destination)
    ensures reached ==> paths[destination] != []
    ensures !reached ==> Awaited(|m|, source, destination) ==> dist[destination] == Infinite
    ensures !reached ==> forall v :: 0 <= v < |m| && !visited[v] && m[c][v] != 0.0 ==> dist[v].Finite?
  {
    dist, paths, trace, reached := dist0, paths0, trace0, false;
    var n := |m|;
    var k := 0;
    while k < n
      invariant 0 <= k <= n
      invariant Consistent(m, source, dist, paths) && Notified(m, source, dist, paths, trace)
      invariant Settled(paths, visited)
      invariant trace0 <= trace
      invariant forall v :: 0 <= v < n && visited[v] ==> dist[v] == dist0[v] && paths[v] == paths0[v]
      invariant forall v :: 0 <= v < n && dist0[v].Finite? ==> dist[v].Finite?
      invariant Awaited(n, source, destination) ==> dist[destination] == Infinite
      invariant forall v :: 0 <= v < k && !visited[v] && m[c][v] != 0.0 ==> dist[v].Finite?
    {
      ghost var distPrev, tracePrev := dist, trace;
      var relaxed;
      dist, paths, trace, relaxed := RelaxOne(m, source, destination, dist, paths, visited, trace, c, k);
      if relaxed && k == destination {
        reached := true;
        return;
      }
      forall v | 0 <= v <= k && !visited[v] && m[c][v] != 0.0
        ensures dist[v].Finite?
      {
        assert distPrev[v].Finite? || v == k;
      }
      k := k + 1;
    }
  }

  /** One selection round: pick the closest unvisited vertex, if any, and relax its
      neighbours; `reached` reports that the round ended at the destination's first improvement. */
  method Round(m: Matrix, source: Vertex, destination: int, dist0: seq<Dist>, paths0: seq<Path>,
               visited0: seq<bool>, trace0: seq<Path>, i: int)
    returns (dist: seq<Dist>, paths: seq<Path>, visited: seq<bool>, trace: seq<Path>, reached: bool)
    requires Invariant(m, source, destination, dist0, paths0, visited0, trace0, i)
    ensures Consistent(m, source, dist, paths) && Notified(m, source, dist, paths, trace)
    ensures !reached ==> Invariant(m, source, destination, dist, paths, visited, trace, i + 1)
    ensures reached ==> Outcome(m, source, destination, dist, paths, trace)
  {
    var c := ClosestUnvisited(dist0, visited0);
    if c == -1 {
      return dist0, paths0, visited0, trace0, false;
    }
    visited := visited0[c := true];
    dist, paths, trace, reached := RelaxNeighbours(m, source, destination, dist0, paths0, visited, trace0, c);
    if reached {
      Arrive(m, source, destination, dist0, paths0, visited0, trace0, i, c, dist, paths, trace);
    } else {
      Advance(m, source, destination, dist0, paths0, visited0, trace0, i, c, dist, paths, trace);
    }
  }

  /** The at most n-1 selection rounds (`for i in 0 .. n-2`), returning at the destination's
      first improvement. */
  method Rounds(m: Matrix, source: Vertex, destination: int, dist0: seq<Dist>, paths0: seq<Path>,
                visited0: seq<bool>, trace0: seq<Path>)
    returns (dist: seq<Dist>, paths: seq<Path>, trace: seq<Path>)
    requires Invariant(m, source, destination, dist0, paths0, visited0, trace0, 0)
    ensures Consistent(m, source, dist, paths) && Notified(m, source, dist, paths, trace)
    ensures Outcome(m, source, destination, dist, paths, trace)
  {
    dist, paths, trace := dist0, paths0, trace0;
    var visited := visited0;
    var i := 0;
    while i < |m| - 1
      invariant 0 <= i <= |m| - 1
      invariant Invariant(m, source, destination, dist, paths, visited, trace, i)
    {
      var reached;
      dist, paths, visited, trace, reached := Round(m, source, destination, dist, paths, visited, trace, i);
      if reached {
        return;
      }
      i := i + 1;
    }
    RoundsExhausted(m, source, destination, dist, paths, visited, trace);
  }

  /** The `Dejkstra` method. Returns the path table and the notifications raised, in order. */
  method Dijkstra(g: Graph, source: Vertex, destination: int) returns (paths: seq<Path>, trace: seq<Path>)
    requires Square(g.adjacency) && source < |g.adjacency|
    ensures |paths| == |g.adjacency| && paths[source] == [source]
    ensures forall v :: 0 <= v < |paths| && paths[v] != [] ==>
              Walk(g.adjacency, source, v, paths[v]) && Simple(paths[v])
    ensures forall j :: 0 <= j < |trace| ==>
              && IsPath(g.adjacency, trace[j]) && trace[j][0] == source && Simple(trace[j]) && Last(trace[j]) != source
              && (j < |trace| - 1 ==> Last(trace[j]) != destination)
    ensures Awaited(|g.adjacency|, source, destination) && paths[destination] != [] ==>
              |trace| > 0 && Walk(g.adjacency, source, destination, trace[|trace| - 1])
    ensures Cheaper(g.adjacency, trace)
    ensures forall v :: 0 <= v < |paths| && v != source ==> paths[v] == Latest(trace, v)
    ensures forall v :: 0 <= v < |paths| && v != source && IsolatedRow(g.adjacency, v) ==> paths[v] == []
    ensures Symmetric(g.adjacency) && 0 <= destination < |g.adjacency| ==>
              (paths[destination] != [] <==> Reachable(g.adjacency, source, destination))
    ensures Symmetric(g.adjacency) && !Awaited(|g.adjacency|, source, destination) ==>
              forall v :: 0 <= v < |paths| ==> (paths[v] != [] <==> Reachable(g.adjacency, source, v))
  {
    var m := g.adjacency;
    var n := |m|;
    paths := InitialPaths(n, source);
    var visited := MarkIsolated(m);
    var dist := InitialDist(n, source);
    trace := [];
    InitialInvariant(m, source, destination, visited);
    dist, paths, trace := Rounds(m, source, destination, dist, paths, visited, trace);
    Finish(m, source, destination, dist, paths, trace);
  }
}
