/** What the `Dejkstra` engine's selection rounds keep true of the visited, distance and
    path tables, and the lemmas that carry those facts from round to round and to the
    engine's final promises. */
module DijkstraInvariant {
  import opened Paths
  import opened Search

  /** The destination is a vertex other than the source. Only then can the early exit on the
      destination's first improvement fire: the source is never relaxed, and an index outside
      the graph is never compared equal to a neighbour. */
  predicate Awaited(n: nat, source: Vertex, destination: int) {
    0 <= destination < n && destination != source
  }

  /** No unvisited vertex has a finite label. */
  ghost predicate NoCandidate(dist: seq<Dist>, visited: seq<bool>)
    requires |dist| == |visited|
  {
    forall v :: 0 <= v < |dist| && !visited[v] ==> dist[v] == Infinite
  }

  /** Every vertex on a path other than its last one has been visited. */
  ghost predicate Settled(paths: seq<Path>, visited: seq<bool>) {
    forall v, j :: 0 <= v < |paths| && 0 <= j < |paths[v]| - 1 ==>
      paths[v][j] < |visited| && visited[paths[v][j]]
  }

  /** Isolated vertices are visited, and every other visited vertex has a finite label. */
  ghost predicate Labelled(m: Matrix, dist: seq<Dist>, visited: seq<bool>)
    requires Square(m) && |dist| == |m| && |visited| == |m|
  {
    && (forall v :: 0 <= v < |m| && IsolatedRow(m, v) ==> visited[v])
    && (forall v :: 0 <= v < |m| && visited[v] && !IsolatedRow(m, v) ==> dist[v].Finite?)
  }

  /** Every edge out of a visited, labelled vertex leads to a visited or a labelled vertex. */
  ghost predicate Closed(m: Matrix, dist: seq<Dist>, visited: seq<bool>)
    requires Square(m) && |dist| == |m| && |visited| == |m|
  {
    forall u, v :: 0 <= u < |m| && 0 <= v < |m| && visited[u] && dist[u].Finite? && m[u][v] != 0.0 ==>
      visited[v] || dist[v].Finite?
  }

  /** The vertices selected so far: visited ones that have an edge. */
  ghost function Picked(m: Matrix, visited: seq<bool>): set<Vertex>
    requires Square(m) && |visited| == |m|
  {
    set v: Vertex | v < |m| && visited[v] && !IsolatedRow(m, v)
  }

  /** Extending the selected vertex's path by an unvisited vertex keeps every non-final
      vertex visited, and the new vertex was not on the path yet. */
  lemma SettledExtend(paths: seq<Path>, visited: seq<bool>, c: Vertex, k: Vertex)
    requires Settled(paths, visited) && c < |paths| && k < |paths| && |visited| == |paths|
    requires |paths[c]| > 0 && Last(paths[c]) == c && visited[c] && !visited[k]
    ensures k !in paths[c]
    ensures Settled(paths[k := paths[c] + [k]], visited)
  {
    assert forall j :: 0 <= j < |paths[c]| ==> visited[paths[c][j]];
    var path := paths[c] + [k];
    assert forall j :: 0 <= j < |path| - 1 ==> path[j] == paths[c][j];
  }

  /** A vertex whose label is still the sentinel ends no notification. */
  lemma NoneEndsAt(m: Matrix, source: Vertex, dist: seq<Dist>, trace: seq<Path>, v: Vertex)
    requires Square(m) && |dist| == |m| && v < |m| && dist[v] == Infinite
    requires Notices(m, source, dist, trace)
    ensures forall i :: 0 <= i < |trace| ==> !EndsAt(trace[i], v)
  {
  }

  /** What a relaxation of c -> k does to the state of the relaxation loop. */
  lemma RelaxStep(m: Matrix, source: Vertex, destination: int, dist0: seq<Dist>, paths0: seq<Path>,
                  visited: seq<bool>, trace0: seq<Path>, c: Vertex, k: Vertex)
    requires Consistent(m, source, dist0, paths0) && Notified(m, source, dist0, paths0, trace0)
    requires |visited| == |m| && c < |m| && k < |m| && visited[c] && dist0[c].Finite?
    requires Settled(paths0, visited)
    requires Awaited(|m|, source, destination) ==> dist0[destination] == Infinite
    requires !visited[k] && m[c][k] != 0.0 && Less(Plus(dist0[c], m[c][k]), dist0[k])
    ensures var dist, paths, trace :=
              dist0[k := Plus(dist0[c], m[c][k])], paths0[k := paths0[c] + [k]], trace0 + [paths0[c] + [k]];
            && k != source
            && Consistent(m, source, dist, paths) && Notified(m, source, dist, paths, trace)
            && Settled(paths, visited)
            && dist[k].Finite?
            && trace0 <= trace
            && (forall v :: 0 <= v < |m| && visited[v] ==> dist[v] == dist0[v] && paths[v] == paths0[v])
            && (forall v :: 0 <= v < |m| && dist0[v].Finite? ==> dist[v].Finite?)
            && Walk(m, source, k, trace[|trace| - 1])
            && (k == destination ==> forall i :: 0 <= i < |trace| - 1 ==> !EndsAt(trace[i], destination))
            && (k != destination ==> Awaited(|m|, source, destination) ==> dist[destination] == Infinite)
  {
    SettledExtend(paths0, visited, c, k);
    Relax(m, source, dist0, paths0, trace0, c, k);
    if k == destination {
      NoneEndsAt(m, source, dist0, trace0, k);
    }
  }

  /** Selecting the unvisited, labelled vertex `c` adds it to the picked set. */
  lemma Select(m: Matrix, dist: seq<Dist>, visited: seq<bool>, c: Vertex)
    requires Square(m) && |dist| == |m| && |visited| == |m| && c < |m| && !visited[c] && dist[c].Finite?
    requires Labelled(m, dist, visited)
    ensures Labelled(m, dist, visited[c := true])
    ensures |Picked(m, visited[c := true])| == |Picked(m, visited)| + 1
  {
    assert Picked(m, visited[c := true]) == Picked(m, visited) + {c};
  }

  /** After the neighbours of the selected vertex `c` are relaxed, the visited, labelled
      vertices are again closed under edges. */
  lemma Reclose(m: Matrix, dist0: seq<Dist>, dist: seq<Dist>, visited0: seq<bool>, c: Vertex)
    requires Square(m) && |dist0| == |m| && |dist| == |m| && |visited0| == |m| && c < |m|
    requires Labelled(m, dist0, visited0[c := true]) && Closed(m, dist0, visited0)
    requires forall v :: 0 <= v < |m| && visited0[c := true][v] ==> dist[v] == dist0[v]
    requires forall v :: 0 <= v < |m| && dist0[v].Finite? ==> dist[v].Finite?
    requires forall v :: 0 <= v < |m| && !visited0[c := true][v] && m[c][v] != 0.0 ==> dist[v].Finite?
    ensures Labelled(m, dist, visited0[c := true]) && Closed(m, dist, visited0[c := true])
  {
    var visited := visited0[c := true];
    forall u, v | 0 <= u < |m| && 0 <= v < |m| && visited[u] && dist[u].Finite? && m[u][v] != 0.0
      ensures visited[v] || dist[v].Finite?
    {
      assert dist[u] == dist0[u];
    }
  }

  /** Once n-1 vertices have been selected while some vertex `d` is still unlabelled, no
      unvisited vertex is left with a finite label: there are not enough vertices for one. */
  lemma AllSelected(m: Matrix, d: Vertex, dist: seq<Dist>, visited: seq<bool>)
    requires Square(m) && |dist| == |m| && |visited| == |m| && d < |m|
    requires dist[d] == Infinite && Labelled(m, dist, visited)
    requires |Picked(m, visited)| == |m| - 1
    ensures NoCandidate(dist, visited)
  {
    var n := |m|;
    if !NoCandidate(dist, visited) {
      var u :| 0 <= u < n && !visited[u] && dist[u] != Infinite;
      var chosen := Picked(m, visited) + {u};
      assert chosen <= Range(n) - {d};
      SubsetSize(chosen, Range(n) - {d});
      assert false;
    }
  }

  /** When the rounds run out with vertex `d` unlabelled, and edges are undirected, there is
      no walk to `d` at all. */
  lemma Exhausted(m: Matrix, source: Vertex, d: Vertex, dist: seq<Dist>, visited: seq<bool>)
    requires Square(m) && Symmetric(m) && |dist| == |m| && |visited| == |m|
    requires source < |m| && d < |m| && d != source
    requires dist[source].Finite? && dist[d] == Infinite
    requires Labelled(m, dist, visited) && Closed(m, dist, visited)
    requires NoCandidate(dist, visited) || |Picked(m, visited)| == |m| - 1
    ensures !Reachable(m, source, d)
  {
    var n := |m|;
    if !NoCandidate(dist, visited) {
      AllSelected(m, d, dist, visited);
    }
    forall u, v | 0 <= u < n && 0 <= v < n && dist[u].Finite? && m[u][v] != 0.0
      ensures dist[v].Finite?
    {
      assert visited[u];
      assert m[v][u] == m[u][v];
    }
    if Reachable(m, source, d) {
      ReachedWhenClosed(m, source, dist, d);
    }
  }

  /** Everything the selection rounds keep true, `i` being the number of rounds done. */
  ghost predicate Invariant(m: Matrix, source: Vertex, destination: int, dist: seq<Dist>, paths: seq<Path>,
                            visited: seq<bool>, trace: seq<Path>, i: int)
  {
    && Consistent(m, source, dist, paths) && Notified(m, source, dist, paths, trace)
    && |visited| == |m| && Settled(paths, visited)
    && Labelled(m, dist, visited) && Closed(m, dist, visited)
    && (forall v :: 0 <= v < |m| && v != source && IsolatedRow(m, v) ==> dist[v] == Infinite)
    && (Awaited(|m|, source, destination) ==> dist[destination] == Infinite)
    && (NoCandidate(dist, visited) || |Picked(m, visited)| == i)
  }

  lemma InitialInvariant(m: Matrix, source: Vertex, destination: int, visited: seq<bool>)
    requires Square(m) && source < |m| && |visited| == |m|
    requires forall v :: 0 <= v < |m| ==> (visited[v] <==> IsolatedRow(m, v))
    ensures Invariant(m, source, destination, InitialDist(|m|, source), InitialPaths(|m|, source), visited, [], 0)
  {
    InitialState(m, source);
    assert Picked(m, visited) == {};
  }

  /** A round that selected `c` and relaxed its neighbours without reaching the destination
      leaves the round invariant true, with one more round done. */
  lemma Advance(m: Matrix, source: Vertex, destination: int, dist0: seq<Dist>, paths0: seq<Path>,
                visited0: seq<bool>, trace0: seq<Path>, i: int, c: Vertex,
                dist: seq<Dist>, paths: seq<Path>, trace: seq<Path>)
    requires Invariant(m, source, destination, dist0, paths0, visited0, trace0, i)
    requires c < |m| && !visited0[c] && dist0[c].Finite?
    requires Consistent(m, source, dist, paths) && Notified(m, source, dist, paths, trace)
    requires Settled(paths, visited0[c := true])
    requires forall v :: 0 <= v < |m| && visited0[c := true][v] ==> dist[v] == dist0[v] && paths[v] == paths0[v]
    requires forall v :: 0 <= v < |m| && dist0[v].Finite? ==> dist[v].Finite?
    requires Awaited(|m|, source, destination) ==> dist[destination] == Infinite
    requires forall v :: 0 <= v < |m| && !visited0[c := true][v] && m[c][v] != 0.0 ==> dist[v].Finite?
    ensures Invariant(m, source, destination, dist, paths, visited0[c := true], trace, i + 1)
  {
    Select(m, dist0, visited0, c);
    Reclose(m, dist0, dist, visited0, c);
    assert !NoCandidate(dist0, visited0);
  }

  /** A round that ended at the destination's first improvement meets the engine's outcome. */
  lemma Arrive(m: Matrix, source: Vertex, destination: int, dist0: seq<Dist>, paths0: seq<Path>,
               visited0: seq<bool>, trace0: seq<Path>, i: int, c: Vertex,
               dist: seq<Dist>, paths: seq<Path>, trace: seq<Path>)
    requires Invariant(m, source, destination, dist0, paths0, visited0, trace0, i)
    requires c < |m|
    requires Consistent(m, source, dist, paths) && Notified(m, source, dist, paths, trace)
    requires forall v :: 0 <= v < |m| && visited0[c := true][v] ==> dist[v] == dist0[v] && paths[v] == paths0[v]
    requires Awaited(|m|, source, destination) && |trace| > 0 && Walk(m, source, destination, trace[|trace| - 1])
    requires forall j :: 0 <= j < |trace| - 1 ==> !EndsAt(trace[j], destination)
    requires paths[destination] != []
    ensures Outcome(m, source, destination, dist, paths, trace)
  {
  }

  /** What holds when the rounds return, whichever way they stop. */
  ghost predicate Outcome(m: Matrix, source: Vertex, destination: int, dist: seq<Dist>, paths: seq<Path>,
                          trace: seq<Path>)
    requires Consistent(m, source, dist, paths)
  {
    && (forall v :: 0 <= v < |m| && v != source && IsolatedRow(m, v) ==> dist[v] == Infinite)
    && (forall j :: 0 <= j < |trace| - 1 ==> !EndsAt(trace[j], destination))
    && (Awaited(|m|, source, destination) && paths[destination] != [] ==>
          |trace| > 0 && EndsAt(trace[|trace| - 1], destination))
    && (Symmetric(m) && Awaited(|m|, source, destination) && paths[destination] == [] ==>
          !Reachable(m, source, destination))
    && (Symmetric(m) && !Awaited(|m|, source, destination) ==>
          forall v :: 0 <= v < |m| && paths[v] == [] ==> !Reachable(m, source, v))
  }

  /** The engine's promises, from what holds when it returns. */
  lemma Finish(m: Matrix, source: Vertex, destination: int, dist: seq<Dist>, paths: seq<Path>, trace: seq<Path>)
    requires Consistent(m, source, dist, paths) && Notified(m, source, dist, paths, trace)
    requires Outcome(m, source, destination, dist, paths, trace)
    ensures |paths| == |m| && paths[source] == [source]
    ensures forall v :: 0 <= v < |paths| && paths[v] != [] ==> Walk(m, source, v, paths[v]) && Simple(paths[v])
    ensures forall j :: 0 <= j < |trace| ==>
              && IsPath(m, trace[j]) && trace[j][0] == source && Simple(trace[j]) && Last(trace[j]) != source
              && (j < |trace| - 1 ==> Last(trace[j]) != destination)
    ensures Awaited(|m|, source, destination) && paths[destination] != [] ==>
              |trace| > 0 && Walk(m, source, destination, trace[|trace| - 1])
    ensures Cheaper(m, trace)
    ensures forall v :: 0 <= v < |paths| && v != source ==> paths[v] == Latest(trace, v)
    ensures forall v :: 0 <= v < |paths| && v != source && IsolatedRow(m, v) ==> paths[v] == []
    ensures Symmetric(m) && 0 <= destination < |m| ==>
              (paths[destination] != [] <==> Reachable(m, source, destination))
    ensures Symmetric(m) && !Awaited(|m|, source, destination) ==>
              forall v :: 0 <= v < |m| ==> (paths[v] != [] <==> Reachable(m, source, v))
  {
    forall v | 0 <= v < |m| && paths[v] != []
      ensures Reachable(m, source, v)
    {
      assert Walk(m, source, v, paths[v]);
    }
  }

  /** The engine's promises when all n-1 rounds ran without reaching the destination. */
  lemma RoundsExhausted(m: Matrix, source: Vertex, destination: int, dist: seq<Dist>, paths: seq<Path>,
                        visited: seq<bool>, trace: seq<Path>)
    requires |m| > 0 && Invariant(m, source, destination, dist, paths, visited, trace, |m| - 1)
    ensures Consistent(m, source, dist, paths) && Notified(m, source, dist, paths, trace)
    ensures Outcome(m, source, destination, dist, paths, trace)
  {
    if Awaited(|m|, source, destination) && Symmetric(m) {
      Exhausted(m, source, destination, dist, visited);
    }
    if Awaited(|m|, source, destination) {
      NoneEndsAt(m, source, dist, trace, destination);
    }
    if Symmetric(m) && !Awaited(|m|, source, destination) {
      forall v | 0 <= v < |m| && paths[v] == []
        ensures !Reachable(m, source, v)
      {
        Exhausted(m, source, v, dist, visited);
      }
    }
  }
}
