/** What the A* loop keeps true of its distance and path tables and its priority queue, the
    measure that makes the loop terminate, and the lemmas that carry those facts across one
    relaxation and one expansion. */
module AStarInvariant {
  import opened Paths
  import opened Search
  import opened PriorityQueue

  /** The vertex at position j of `p` is labelled no worse than the prefix leading to it. */
  ghost predicate PrefixBounded(m: Matrix, dist: seq<Dist>, p: Path, j: nat)
    requires |dist| == |m|
  {
    j < |p| && IsPath(m, p[..j + 1]) && p[j] < |m| ==> AtMost(dist[p[j]], Finite(Cost(m, p[..j + 1])))
  }

  /** Every vertex on a recorded path is labelled no worse than the prefix leading to it.
      Labels only fall and each path was built from a path then current, so this holds. */
  ghost predicate Prefixed(m: Matrix, dist: seq<Dist>, paths: seq<Path>)
    requires |dist| == |m| && |paths| == |m|
  {
    forall v, j {:trigger PrefixBounded(m, dist, paths[v], j)} ::
      0 <= v < |m| && 0 <= j < |paths[v]| ==> PrefixBounded(m, dist, paths[v], j)
  }

  /** Some queue entry holds vertex `u`. */
  ghost predicate Waiting(queue: Queue<Vertex>, u: Vertex) {
    exists j :: 0 <= j < |queue| && queue[j].item == u
  }

  /** Every queued vertex is a vertex with a finite label. */
  ghost predicate Queued(m: Matrix, dist: seq<Dist>, queue: Queue<Vertex>)
    requires |dist| == |m|
  {
    forall j :: 0 <= j < |queue| ==> queue[j].item < |m| && dist[queue[j].item].Finite?
  }

  /** Every labelled vertex other than `except` is still queued or has all its neighbours
      labelled (use -1 for no exception). */
  ghost predicate Frontier(m: Matrix, dist: seq<Dist>, queue: Queue<Vertex>, except: int)
    requires Square(m) && |dist| == |m|
  {
    forall u :: 0 <= u < |m| && u != except && dist[u].Finite? ==>
      Waiting(queue, u) || forall v :: 0 <= v < |m| && m[u][v] != 0.0 ==> dist[v].Finite?
  }

  /** Labels only fall. */
  predicate Lower(dist: seq<Dist>, dist0: seq<Dist>)
    requires |dist| == |dist0|
  {
    forall v :: 0 <= v < |dist| ==> AtMost(dist[v], dist0[v])
  }

  /** The termination measure: the simple walks from the source that are strictly cheaper
      than the current label of their end. Every relaxation removes at least one. */
  ghost function Pending(m: Matrix, source: Vertex, dist: seq<Dist>): set<Path>
    requires |dist| == |m|
  {
    set p | p in Words(|m|, |m|) && IsPath(m, p) && p[0] == source && Simple(p) && Last(p) < |m| &&
            Less(Finite(Cost(m, p)), dist[Last(p)])
  }

  /** `d` occurs on none of the paths except as the last vertex: no path was ever extended
      from `d`, because `d` was never expanded. */
  ghost predicate Unexpanded(ps: seq<Path>, d: Vertex) {
    forall j, i :: 0 <= j < |ps| && 0 <= i < |ps[j]| - 1 ==> ps[j][i] != d
  }

  /** Extending the path of an expanded vertex other than `d` keeps `d` off every path
      except as a last vertex. */
  lemma UnexpandedExtend(paths: seq<Path>, trace: seq<Path>, c: Vertex, k: Vertex, d: Vertex)
    requires Unexpanded(paths, d) && Unexpanded(trace, d)
    requires c < |paths| && k < |paths| && |paths[c]| > 0 && Last(paths[c]) == c && c != d
    ensures Unexpanded(paths[k := paths[c] + [k]], d)
    ensures Unexpanded(trace + [paths[c] + [k]], d)
  {
  }

  /** Everything the A* loop keeps true. */
  ghost predicate Invariant(m: Matrix, source: Vertex, dist: seq<Dist>, paths: seq<Path>, trace: seq<Path>,
                            queue: Queue<Vertex>)
  {
    && Consistent(m, source, dist, paths) && Notified(m, source, dist, paths, trace)
    && NonNegative(m) && Prefixed(m, dist, paths) && Queued(m, dist, queue)
    && Frontier(m, dist, queue, -1)
  }

  /** With non-negative weights an improving relaxation never leads back onto the path it
      extends, so the rebuilt path stays simple. */
  lemma Fresh(m: Matrix, source: Vertex, dist: seq<Dist>, paths: seq<Path>, c: Vertex, k: Vertex)
    requires Consistent(m, source, dist, paths) && NonNegative(m) && Prefixed(m, dist, paths)
    requires c < |m| && k < |m| && paths[c] != [] && m[c][k] != 0.0
    requires Less(Plus(dist[c], m[c][k]), dist[k])
    ensures k !in paths[c]
  {
    var p := paths[c];
    forall j | 0 <= j < |p|
      ensures p[j] != k
    {
      CostPrefix(m, p, j);
      assert p[j] < |m|;
      assert PrefixBounded(m, dist, paths[c], j);
    }
  }

  /** A relaxation keeps every recorded path's prefixes bounded by the labels. */
  lemma PrefixedRelax(m: Matrix, dist: seq<Dist>, paths: seq<Path>, c: Vertex, k: Vertex)
    requires |dist| == |m| && |paths| == |m| && Prefixed(m, dist, paths)
    requires c < |m| && k < |m| && k !in paths[c] && IsPath(m, paths[c] + [k])
    requires Less(Finite(Cost(m, paths[c] + [k])), dist[k])
    ensures Prefixed(m, dist[k := Finite(Cost(m, paths[c] + [k]))], paths[k := paths[c] + [k]])
  {
    var q := paths[c] + [k];
    var dist' := dist[k := Finite(Cost(m, q))];
    var paths' := paths[k := q];
    forall v, j | 0 <= v < |m| && 0 <= j < |paths'[v]|
      ensures PrefixBounded(m, dist', paths'[v], j)
    {
      if v == k {
        if j < |paths[c]| {
          assert PrefixBounded(m, dist, paths[c], j);
        }
        PrefixExtended(m, dist, paths[c], k, j);
      } else {
        assert PrefixBounded(m, dist, paths[v], j);
        PrefixLowered(m, dist, dist', paths[v], j);
      }
    }
  }

  /** Lowering labels keeps a prefix bound. */
  lemma PrefixLowered(m: Matrix, dist: seq<Dist>, dist': seq<Dist>, p: Path, j: nat)
    requires |dist| == |m| && |dist'| == |m| && Lower(dist', dist)
    requires PrefixBounded(m, dist, p, j)
    ensures PrefixBounded(m, dist', p, j)
  {
  }

  /** The rebuilt path p ++ [k] meets its prefix bounds: the earlier positions are p's own,
      the last is k's new label. */
  lemma PrefixExtended(m: Matrix, dist: seq<Dist>, p: Path, k: Vertex, j: nat)
    requires |dist| == |m| && k < |m| && k !in p && IsPath(m, p + [k])
    requires Less(Finite(Cost(m, p + [k])), dist[k])
    requires j < |p| ==> PrefixBounded(m, dist, p, j)
    requires j <= |p|
    ensures PrefixBounded(m, dist[k := Finite(Cost(m, p + [k]))], p + [k], j)
  {
    var q := p + [k];
    if j == |p| {
      assert q[..j + 1] == q;
    } else {
      assert q[..j + 1] == p[..j + 1];
      assert q[j] == p[j];
    }
  }

  /** Lowering one label to the cost of a pending walk ending there removes that walk from
      the measure and adds none. */
  lemma PendingShrinks(m: Matrix, source: Vertex, dist: seq<Dist>, q: Path)
    requires Square(m) && |dist| == |m|
    requires IsPath(m, q) && q[0] == source && Simple(q)
    requires Less(Finite(Cost(m, q)), dist[Last(q)])
    ensures Pending(m, source, dist[Last(q) := Finite(Cost(m, q))]) < Pending(m, source, dist)
  {
    var dist' := dist[Last(q) := Finite(Cost(m, q))];
    SimpleBound(q, |m|);
    InWords(|m|, |m|, q);
    assert q in Pending(m, source, dist);
    assert q !in Pending(m, source, dist');
  }

  lemma PendingMonotone(m: Matrix, source: Vertex, dist: seq<Dist>, dist0: seq<Dist>)
    requires |dist| == |m| && |dist0| == |m| && Lower(dist, dist0)
    ensures Pending(m, source, dist) <= Pending(m, source, dist0)
  {
  }

  /** Every fact one relaxation of c -> k establishes. */
  lemma RelaxStep(m: Matrix, source: Vertex, dist0: seq<Dist>, paths0: seq<Path>, trace0: seq<Path>,
                  queue0: Queue<Vertex>, c: Vertex, k: Vertex, priority: real)
    requires Consistent(m, source, dist0, paths0) && Notified(m, source, dist0, paths0, trace0)
    requires NonNegative(m) && Prefixed(m, dist0, paths0) && Queued(m, dist0, queue0)
    requires c < |m| && k < |m| && dist0[c].Finite? && m[c][k] != 0.0
    requires Less(Plus(dist0[c], m[c][k]), dist0[k])
    ensures var dist, paths, trace, queue := dist0[k := Plus(dist0[c], m[c][k])], paths0[k := paths0[c] + [k]],
                                             trace0 + [paths0[c] + [k]], Enqueue(queue0, k, priority);
            && Consistent(m, source, dist, paths) && Notified(m, source, dist, paths, trace)
            && Prefixed(m, dist, paths) && Queued(m, dist, queue)
            && Lower(dist, dist0) && Pending(m, source, dist) < Pending(m, source, dist0)
  {
    Fresh(m, source, dist0, paths0, c, k);
    Relax(m, source, dist0, paths0, trace0, c, k);
    var q := paths0[c] + [k];
    RelaxConsistent(m, source, dist0, paths0, c, k);
    PrefixedRelax(m, dist0, paths0, c, k);
    PendingShrinks(m, source, dist0, q);
  }

  /** What the neighbour loop of the expanded vertex `c` keeps true after `i` neighbours,
      relative to the state it started from. */
  ghost predicate Progress(m: Matrix, source: Vertex, c: Vertex, i: int,
                           dist0: seq<Dist>, paths0: seq<Path>, trace0: seq<Path>, queue0: Queue<Vertex>,
                           dist: seq<Dist>, paths: seq<Path>, trace: seq<Path>, queue: Queue<Vertex>)
  {
    && Consistent(m, source, dist, paths) && Notified(m, source, dist, paths, trace)
    && Prefixed(m, dist, paths) && Queued(m, dist, queue)
    && |dist0| == |m| && c < |m| && Lower(dist, dist0) && queue0 <= queue
    && ((dist == dist0 && paths == paths0 && trace == trace0 && queue == queue0) ||
        Pending(m, source, dist) < Pending(m, source, dist0))
    && (forall v :: 0 <= v < i && v < |m| && m[c][v] != 0.0 ==> dist[v].Finite?)
    && (forall u :: 0 <= u < |m| && dist[u].Finite? && !dist0[u].Finite? ==> Waiting(queue, u))
  }

  /** Appending to the queue keeps every waiting vertex waiting. */
  lemma StillWaiting(queue0: Queue<Vertex>, queue: Queue<Vertex>, u: Vertex)
    requires queue0 <= queue && Waiting(queue0, u)
    ensures Waiting(queue, u)
  {
    var j :| 0 <= j < |queue0| && queue0[j].item == u;
    assert queue[j] == queue0[j];
  }

  /** After the whole neighbour loop the frontier holds again for every vertex, `c` included. */
  lemma Reframe(m: Matrix, source: Vertex, c: Vertex,
                dist0: seq<Dist>, paths0: seq<Path>, trace0: seq<Path>, queue0: Queue<Vertex>,
                dist: seq<Dist>, paths: seq<Path>, trace: seq<Path>, queue: Queue<Vertex>)
    requires Progress(m, source, c, |m|, dist0, paths0, trace0, queue0, dist, paths, trace, queue)
    requires NonNegative(m) && Frontier(m, dist0, queue0, c)
    ensures Invariant(m, source, dist, paths, trace, queue)
  {
    forall u | 0 <= u < |m| && dist[u].Finite? && u != c && dist0[u].Finite? && Waiting(queue0, u)
      ensures Waiting(queue, u)
    {
      StillWaiting(queue0, queue, u);
    }
  }

  /** Removing the extracted entry keeps every other vertex waiting. */
  lemma Extracted(m: Matrix, dist: seq<Dist>, queue: Queue<Vertex>, b: int)
    requires Square(m) && |dist| == |m| && Queued(m, dist, queue) && Frontier(m, dist, queue, -1)
    requires 0 <= b < |queue|
    ensures Queued(m, dist, queue[..b] + queue[b + 1..])
    ensures Frontier(m, dist, queue[..b] + queue[b + 1..], queue[b].item)
  {
    var rest := queue[..b] + queue[b + 1..];
    RemovedEntry(queue, b);
    forall j | 0 <= j < |rest|
      ensures rest[j].item < |m| && dist[rest[j].item].Finite?
    {
      if j < b {
        assert rest[j] == queue[j];
      } else {
        assert rest[j] == queue[j + 1];
      }
    }
    forall u | 0 <= u < |m| && u != queue[b].item && dist[u].Finite? && Waiting(queue, u)
      ensures Waiting(rest, u)
    {
      var j :| 0 <= j < |queue| && queue[j].item == u;
      if j < b {
        assert rest[j] == queue[j];
      } else {
        assert rest[j - 1] == queue[j];
      }
    }
  }

  /** When the queue runs dry, the labelled vertices are closed under edges, so every
      vertex reachable from the source has a path. */
  lemma Drained(m: Matrix, source: Vertex, dist: seq<Dist>, paths: seq<Path>, trace: seq<Path>, d: Vertex)
    requires Invariant(m, source, dist, paths, trace, []) && d < |m|
    ensures paths[d] != [] <==> Reachable(m, source, d)
  {
    if paths[d] != [] {
      assert Walk(m, source, d, paths[d]);
    }
    if Reachable(m, source, d) {
      ReachedWhenClosed(m, source, dist, d);
    }
  }
}
