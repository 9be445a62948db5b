/** What both engines keep true of their distance table, their path table and the
    stream of path-update notifications they emit, and the one step that changes them:
    relaxing the edge from a vertex with a path to a neighbour. */
module Search {
  import opened Paths

  /** The path table both engines start from: [source] for the source, [] elsewhere. */
  function InitialPaths(n: nat, source: Vertex): (paths: seq<Path>)
    requires source < n
    ensures |paths| == n && paths[source] == [source]
    ensures forall v :: 0 <= v < n && v != source ==> paths[v] == []
  {
    seq(n, v => if v == source then [source] else [])
  }

  /** The distance table both engines start from: 0 for the source, the sentinel elsewhere. */
  function InitialDist(n: nat, source: Vertex): (dist: seq<Dist>)
    requires source < n
    ensures |dist| == n && dist[source] == Finite(0.0)
    ensures forall v :: 0 <= v < n && v != source ==> dist[v] == Infinite
  {
    seq(n, v => if v == source then Finite(0.0) else Infinite)
  }

  /** `p` is a non-empty path ending at `v`. */
  predicate EndsAt(p: Path, v: int) {
    |p| > 0 && Last(p) == v
  }

  /** The most recent notification whose path ends at `v`, or [] if `v` was never notified. */
  ghost function Latest(trace: seq<Path>, v: Vertex): Path {
    if |trace| == 0 then []
    else if |trace[|trace| - 1]| > 0 && Last(trace[|trace| - 1]) == v then trace[|trace| - 1]
    else Latest(trace[..|trace| - 1], v)
  }

  lemma LatestAppend(trace: seq<Path>, q: Path, v: Vertex)
    ensures Latest(trace + [q], v) == if |q| > 0 && Last(q) == v then q else Latest(trace, v)
  {
    assert (trace + [q])[..|trace|] == trace;
  }

  /** `Latest` is what its name says: empty exactly when no notification ends at `v`, and
      otherwise a notification ending at `v` that no later one ends at. */
  lemma {:induction false} LatestIsLast(trace: seq<Path>, v: Vertex)
    requires forall i :: 0 <= i < |trace| ==> |trace[i]| > 0
    ensures Latest(trace, v) == [] <==> forall i :: 0 <= i < |trace| ==> Last(trace[i]) != v
    ensures Latest(trace, v) != [] ==>
              exists i :: 0 <= i < |trace| && trace[i] == Latest(trace, v) && Last(trace[i]) == v &&
                forall j :: i < j < |trace| ==> Last(trace[j]) != v
    decreases |trace|
  {
    if |trace| > 0 {
      var t := trace[..|trace| - 1];
      LatestIsLast(t, v);
      if Last(trace[|trace| - 1]) != v && Latest(trace, v) != [] {
        var i :| 0 <= i < |t| && t[i] == Latest(t, v) && Last(t[i]) == v &&
                 forall j :: i < j < |t| ==> Last(t[j]) != v;
        assert trace[i] == t[i];
      }
    }
  }

  /** The path table agrees with the distance table: a vertex has a path exactly when its
      distance is finite, and that path is a simple walk from the source costing the distance. */
  ghost predicate Consistent(m: Matrix, source: Vertex, dist: seq<Dist>, paths: seq<Path>) {
    && Square(m) && source < |m| && |dist| == |m| && |paths| == |m|
    && paths[source] == [source] && dist[source] == Finite(0.0)
    && (forall v :: 0 <= v < |m| ==> (dist[v].Finite? <==> paths[v] != []))
    && (forall v :: 0 <= v < |m| && paths[v] != [] ==>
          Walk(m, source, v, paths[v]) && Simple(paths[v]) && dist[v] == Finite(Cost(m, paths[v])))
  }

  /** Every notification is a simple walk from the source to some other vertex, costing no
      less than that vertex's current distance. */
  ghost predicate Notices(m: Matrix, source: Vertex, dist: seq<Dist>, trace: seq<Path>)
    requires Square(m) && |dist| == |m|
  {
    forall i :: 0 <= i < |trace| ==>
      && IsPath(m, trace[i]) && trace[i][0] == source && Simple(trace[i]) && Last(trace[i]) != source
      && AtMost(dist[Last(trace[i])], Finite(Cost(m, trace[i])))
  }

  /** Notifications for one vertex get strictly cheaper. */
  ghost predicate Cheaper(m: Matrix, trace: seq<Path>) {
    forall i, j :: 0 <= i < j < |trace| && IsPath(m, trace[i]) && IsPath(m, trace[j]) &&
                   Last(trace[i]) == Last(trace[j]) ==>
      Cost(m, trace[j]) < Cost(m, trace[i])
  }

  /** Each non-source vertex's path is its latest notification. */
  ghost predicate Announced(source: Vertex, paths: seq<Path>, trace: seq<Path>) {
    forall v :: 0 <= v < |paths| && v != source ==> paths[v] == Latest(trace, v)
  }

  /** What the notification stream says about the tables. */
  ghost predicate Notified(m: Matrix, source: Vertex, dist: seq<Dist>, paths: seq<Path>, trace: seq<Path>)
    requires Consistent(m, source, dist, paths)
  {
    Notices(m, source, dist, trace) && Cheaper(m, trace) && Announced(source, paths, trace)
  }

  lemma InitialState(m: Matrix, source: Vertex)
    requires Square(m) && source < |m|
    ensures Consistent(m, source, InitialDist(|m|, source), InitialPaths(|m|, source))
    ensures Notified(m, source, InitialDist(|m|, source), InitialPaths(|m|, source), [])
  {
    assert Walk(m, source, source, [source]);
  }

  /** Extending a simple walk from the source by an edge to a vertex not yet on it gives a
      simple walk from the source to that vertex, costing the walk plus the edge. */
  lemma Extend(m: Matrix, source: Vertex, p: Path, k: Vertex)
    requires Square(m) && IsPath(m, p) && p[0] == source && Simple(p)
    requires k < |m| && m[Last(p)][k] != 0.0 && k !in p
    ensures Walk(m, source, k, p + [k]) && Simple(p + [k])
    ensures Cost(m, p + [k]) == Cost(m, p) + m[Last(p)][k]
  {
    var q := p + [k];
    CostAppend(m, p, k);
    forall i, j | 0 <= i < j < |q|
      ensures q[i] != q[j]
    {
      if j == |q| - 1 {
        assert q[i] == p[i];
      }
    }
  }

  /** The table half of a relaxation of c -> k. */
  lemma RelaxConsistent(m: Matrix, source: Vertex, dist: seq<Dist>, paths: seq<Path>, c: Vertex, k: Vertex)
    requires Consistent(m, source, dist, paths)
    requires c < |m| && k < |m| && paths[c] != [] && m[c][k] != 0.0 && k !in paths[c]
    ensures k != source
    ensures Consistent(m, source, dist[k := Plus(dist[c], m[c][k])], paths[k := paths[c] + [k]])
    ensures Plus(dist[c], m[c][k]) == Finite(Cost(m, paths[c] + [k]))
    ensures Walk(m, source, k, paths[c] + [k]) && Simple(paths[c] + [k])
  {
    assert paths[c][0] == source;
    Extend(m, source, paths[c], k);
  }

  /** The notification half of a relaxation of c -> k. */
  lemma RelaxNotified(m: Matrix, source: Vertex, dist: seq<Dist>, paths: seq<Path>, trace: seq<Path>,
                      c: Vertex, k: Vertex)
    requires Consistent(m, source, dist, paths) && Notified(m, source, dist, paths, trace)
    requires c < |m| && k < |m| && paths[c] != [] && m[c][k] != 0.0 && k !in paths[c]
    requires Less(Plus(dist[c], m[c][k]), dist[k])
    requires Consistent(m, source, dist[k := Plus(dist[c], m[c][k])], paths[k := paths[c] + [k]])
    requires k != source && Plus(dist[c], m[c][k]) == Finite(Cost(m, paths[c] + [k]))
    requires Walk(m, source, k, paths[c] + [k]) && Simple(paths[c] + [k])
    ensures Notified(m, source, dist[k := Plus(dist[c], m[c][k])], paths[k := paths[c] + [k]],
                     trace + [paths[c] + [k]])
  {
    var q := paths[c] + [k];
    NoticesAppend(m, source, dist, trace, k, q, Plus(dist[c], m[c][k]));
    CheaperAppend(m, source, dist, trace, q);
    AnnouncedAppend(source, paths, trace, k, q);
  }

  lemma AnnouncedAppend(source: Vertex, paths: seq<Path>, trace: seq<Path>, k: Vertex, q: Path)
    requires Announced(source, paths, trace) && k < |paths| && |q| > 0 && Last(q) == k
    ensures Announced(source, paths[k := q], trace + [q])
  {
    forall v | 0 <= v < |paths| && v != source
      ensures paths[k := q][v] == Latest(trace + [q], v)
    {
      LatestAppend(trace, q, v);
    }
  }

  lemma NoticesAppend(m: Matrix, source: Vertex, dist: seq<Dist>, trace: seq<Path>, k: Vertex, q: Path, d: Dist)
    requires Square(m) && |dist| == |m| && Notices(m, source, dist, trace)
    requires IsPath(m, q) && q[0] == source && Simple(q) && Last(q) == k && k != source
    requires d == Finite(Cost(m, q)) && Less(d, dist[k])
    ensures Notices(m, source, dist[k := d], trace + [q])
  {
    var trace' := trace + [q];
    var dist' := dist[k := d];
    forall i | 0 <= i < |trace'|
      ensures && IsPath(m, trace'[i]) && trace'[i][0] == source && Simple(trace'[i]) && Last(trace'[i]) != source
              && AtMost(dist'[Last(trace'[i])], Finite(Cost(m, trace'[i])))
    {
      if i < |trace| {
        assert trace'[i] == trace[i];
      }
    }
  }

  lemma CheaperAppend(m: Matrix, source: Vertex, dist: seq<Dist>, trace: seq<Path>, q: Path)
    requires Square(m) && |dist| == |m| && Notices(m, source, dist, trace) && Cheaper(m, trace)
    requires IsPath(m, q) && Less(Finite(Cost(m, q)), dist[Last(q)])
    ensures Cheaper(m, trace + [q])
  {
    var trace' := trace + [q];
    forall i, j | 0 <= i < j < |trace'| && IsPath(m, trace'[i]) && IsPath(m, trace'[j]) &&
                  Last(trace'[i]) == Last(trace'[j])
      ensures Cost(m, trace'[j]) < Cost(m, trace'[i])
    {
      assert trace'[i] == trace[i];
      if j < |trace| {
        assert trace'[j] == trace[j];
      }
    }
  }

  /** Relaxing edge c -> k: when going through c is strictly shorter, k's distance drops to
      the cost of paths[c] ++ [k], its path becomes that walk, and that walk is notified;
      both table invariants survive. */
  lemma Relax(m: Matrix, source: Vertex, dist: seq<Dist>, paths: seq<Path>, trace: seq<Path>, c: Vertex, k: Vertex)
    requires Consistent(m, source, dist, paths) && Notified(m, source, dist, paths, trace)
    requires c < |m| && k < |m| && paths[c] != [] && m[c][k] != 0.0 && k !in paths[c]
    requires Less(Plus(dist[c], m[c][k]), dist[k])
    ensures k != source
    ensures Consistent(m, source, dist[k := Plus(dist[c], m[c][k])], paths[k := paths[c] + [k]])
    ensures Notified(m, source, dist[k := Plus(dist[c], m[c][k])], paths[k := paths[c] + [k]],
                     trace + [paths[c] + [k]])
    ensures Plus(dist[c], m[c][k]) == Finite(Cost(m, paths[c] + [k]))
  {
    RelaxConsistent(m, source, dist, paths, c, k);
    RelaxNotified(m, source, dist, paths, trace, c, k);
  }

  /** A finite-distance set closed under edges holds every vertex reachable from the source. */
  lemma ReachedWhenClosed(m: Matrix, source: Vertex, dist: seq<Dist>, d: Vertex)
    requires Square(m) && |dist| == |m| && source < |m| && dist[source].Finite?
    requires forall u, v :: 0 <= u < |m| && 0 <= v < |m| && dist[u].Finite? && m[u][v] != 0.0 ==> dist[v].Finite?
    requires Reachable(m, source, d)
    ensures d < |m| && dist[d].Finite?
  {
    var p :| Walk(m, source, d, p);
    var inside := set v: Vertex | v < |m| && dist[v].Finite?;
    WalkStaysInside(m, inside, p);
  }
}
