/** The grid constructor `Graph(height, width)`: points on a 20-pixel grid with a
    5-pixel margin, each joined to its right and bottom neighbour. */
module GridGraph {
  import opened Paths
  import opened Graphs

  /** Number of horizontal lines laid out: y = 5, 25, 45, ... while y < height. */
  function Lines(height: int): nat {
    if height <= 5 then 0 else (height + 14) / 20
  }

  /** Number of points per line: x = 5, 25, 45, ... while x + 20 < width. */
  function PerLine(width: int): nat {
    if width <= 25 then 0 else (width - 6) / 20
  }

  /** The C# constructor's `rows` once both loops end: the points per line, or 0 if no line was laid out. */
  function Stride(height: int, width: int): nat {
    if Lines(height) == 0 then 0 else PerLine(width)
  }

  function GridPoint(line: nat, column: nat): Point {
    Point(5 + 20 * column, 5 + 20 * line)
  }

  function Min(a: nat, b: nat): nat { if a < b then a else b }
  function Max(a: nat, b: nat): nat { if a < b then b else a }

  /** Index-level neighbours in a grid of `stride` points per line: the next index on the
      same line, or the index one line further down. */
  ghost predicate GridNeighbours(a: nat, b: nat, stride: nat) {
    && stride > 0
    && ((b == a + 1 && a % stride != stride - 1) || (a == b + 1 && b % stride != stride - 1)
        || b == a + stride || a == b + stride)
  }

  /** Two points 20 pixels apart horizontally or vertically. */
  ghost predicate Adjacent(p: Point, q: Point) {
    || (p.y == q.y && (p.x - q.x == 20 || q.x - p.x == 20))
    || (p.x == q.x && (p.y - q.y == 20 || q.y - p.y == 20))
  }

  /** The weight `Graph.cs` stores for a grid edge: the distance from the lower index to the higher. */
  function GridWeight(vertices: seq<Point>, w: WeightFn, a: nat, b: nat): real
    requires a < |vertices| && b < |vertices|
  {
    w(vertices[Min(a, b)], vertices[Max(a, b)])
  }

  /** The shape the grid constructor produces. */
  ghost predicate GridLayout(g: Graph, lines: nat, stride: nat, w: WeightFn) {
    && |g.vertices| == lines * stride
    && (forall a :: 0 <= a < |g.vertices| ==> stride > 0 && g.vertices[a] == GridPoint(a / stride, a % stride))
    && |g.adjacency| == |g.vertices| && Square(g.adjacency)
    && (forall a, b :: 0 <= a < |g.vertices| && 0 <= b < |g.vertices| ==>
          g.adjacency[a][b] == if GridNeighbours(a, b, stride) then GridWeight(g.vertices, w, a, b) else 0.0)
  }

  // ---------------------------------------------------------------------------
  // Index arithmetic

  lemma MulAtLeast(k: int, s: int)
    requires s > 0
    ensures k >= 1 ==> k * s >= s
    ensures k <= -1 ==> k * s <= -s
  {
  }

  /** Splitting an index into (line, column) is unique. */
  lemma DivMod(i: int, j: int, s: int)
    requires 0 <= i && 0 <= j < s
    ensures (i * s + j) / s == i && (i * s + j) % s == j
  {
    var a := i * s + j;
    var q, r := a / s, a % s;
    assert a == q * s + r;
    assert (i - q) * s == r - j;
    MulAtLeast(i - q, s);
  }

  lemma Distribute(x: int, y: int, s: int)
    ensures (x + y) * s == x * s + y * s
  {
  }

  lemma CellBounds(i: nat, j: nat, s: nat, lines: nat)
    requires i < lines && j < s
    ensures (i + 1) * s == i * s + s
    ensures i * s + j < lines * s
    ensures i + 1 < lines <==> (i + 1) * s + j < lines * s
  {
    var k := lines - (i + 1);
    Distribute(i, 1, s);
    Distribute(i + 1, k, s);
    assert lines * s == (i + 1) * s + k * s;
    MulAtLeast(k, s);
    assert k * s >= 0 by {
      if k > 0 {
        assert k * s >= s;
      }
    }
  }

  /** The next index on the same line is one column further. */
  lemma RightStep(a: nat, s: nat)
    requires s > 0 && a % s != s - 1
    ensures (a + 1) / s == a / s && (a + 1) % s == a % s + 1
  {
    DivMod(a / s, a % s + 1, s);
  }

  /** The index one stride further is one line down in the same column. */
  lemma DownStep(a: nat, s: nat)
    requires s > 0
    ensures (a + s) / s == a / s + 1 && (a + s) % s == a % s
  {
    assert (a / s + 1) * s == (a / s) * s + s;
    DivMod(a / s + 1, a % s, s);
  }

  /** The grid edges whose lower end is cell (i, j) are exactly its right and bottom links. */
  lemma GridStep(i: nat, j: nat, s: nat, lines: nat, a: nat, b: nat)
    requires i < lines && j < s && a < lines * s && b < lines * s
    requires GridNeighbours(a, b, s) && Min(a, b) == i * s + j
    ensures || (j + 1 < s && ((a == i * s + j && b == a + 1) || (b == i * s + j && a == b + 1)))
            || (i + 1 < lines && ((a == i * s + j && b == a + s) || (b == i * s + j && a == b + s)))
  {
    DivMod(i, j, s);
    CellBounds(i, j, s, lines);
  }

  // ---------------------------------------------------------------------------
  // The constructor

  /** The matrix entry (a, b) after the cells below index `done` have been linked. */
  ghost function Partial(vertices: seq<Point>, w: WeightFn, s: nat, a: nat, b: nat, done: nat): real
    requires a < |vertices| && b < |vertices|
  {
    if GridNeighbours(a, b, s) && Min(a, b) < done then GridWeight(vertices, w, a, b) else 0.0
  }

  /** Lays the points out line by line (`Graph.cs`:92-110). */
  method LayPoints(height: int, width: int) returns (vertices: seq<Point>, lines: nat, stride: nat)
    ensures lines == Lines(height) && stride == Stride(height, width)
    ensures |vertices| == lines * stride
    ensures forall a :: 0 <= a < |vertices| ==> stride > 0 && vertices[a] == GridPoint(a / stride, a % stride)
  {
    vertices := [];
    var x := 5;
    var y := 5;
    var rows := 0;
    var cols := 0;
    ghost var perLine := PerLine(width);
    while y < height
      invariant x == 5 && y == 5 + 20 * cols
      invariant cols == 0 || 5 + 20 * (cols - 1) < height
      invariant rows == if cols == 0 then 0 else perLine
      invariant |vertices| == cols * perLine
      invariant forall a :: 0 <= a < |vertices| ==>
                  perLine > 0 && vertices[a] == GridPoint(a / perLine, a % perLine)
      decreases height - y
    {
      rows := 0;
      while x + 20 < width
        invariant x == 5 + 20 * rows && rows <= perLine
        invariant |vertices| == cols * perLine + rows
        invariant forall a :: 0 <= a < |vertices| ==>
                    perLine > 0 && vertices[a] == GridPoint(a / perLine, a % perLine)
        decreases width - x
      {
        DivMod(cols, rows, perLine);
        vertices := vertices + [Point(x, y)];
        x := x + 20;
        rows := rows + 1;
      }
      assert (cols + 1) * perLine == cols * perLine + perLine;
      x := 5;
      y := y + 20;
      cols := cols + 1;
    }
    lines, stride := cols, rows;
  }

  /** Links cell (i, j) to its right neighbour (`Graph.cs`:120-127) and its bottom neighbour (`Graph.cs`:129-136). */
  method LinkCell(m: Matrix, vertices: seq<Point>, w: WeightFn, rows: nat, cols: nat, i: nat, j: nat)
    returns (r: Matrix)
    requires i < cols && j < rows && |vertices| == cols * rows && |m| == |vertices| && Square(m)
    requires forall a, b :: 0 <= a < |m| && 0 <= b < |m| ==> m[a][b] == Partial(vertices, w, rows, a, b, i * rows + j)
    ensures |r| == |m| && Square(r)
    ensures forall a, b :: 0 <= a < |r| && 0 <= b < |r| ==> r[a][b] == Partial(vertices, w, rows, a, b, i * rows + j + 1)
  {
    var sourceIndex := i * rows + j;
    CellBounds(i, j, rows, cols);
    DivMod(i, j, rows);
    r := m;
    if j + 1 < rows {
      var destinationIndex := i * rows + (j + 1);
      var distance := w(vertices[sourceIndex], vertices[destinationIndex]);
      r := Link(r, sourceIndex, destinationIndex, distance);
    }
    ghost var r1 := r;
    if i + 1 < cols {
      var destinationIndex := (i + 1) * rows + j;
      var distance := w(vertices[sourceIndex], vertices[destinationIndex]);
      r := Link(r, sourceIndex, destinationIndex, distance);
    }
    forall a, b | 0 <= a < |r| && 0 <= b < |r|
      ensures r[a][b] == Partial(vertices, w, rows, a, b, sourceIndex + 1)
    {
      if GridNeighbours(a, b, rows) && Min(a, b) == sourceIndex {
        GridStep(i, j, rows, cols, a, b);
      }
    }
  }

  /** The grid constructor: vertex i*rows+j sits at (5+20j, 5+20i) and is joined to its
      right neighbour (same line) and its bottom neighbour (next line). */
  method BuildGridGraph(height: int, width: int, w: WeightFn) returns (g: Graph)
    ensures |g.vertices| == Lines(height) * Stride(height, width)
    ensures GridLayout(g, Lines(height), Stride(height, width), w)
  {
    var vertices, cols, rows := LayPoints(height, width);
    var n := cols * rows;
    var m := Zeros(n);
    var i := 0;
    while i < cols
      invariant i <= cols
      invariant |m| == n && Square(m)
      invariant forall a, b :: 0 <= a < n && 0 <= b < n ==> m[a][b] == Partial(vertices, w, rows, a, b, i * rows)
    {
      var j := 0;
      while j < rows
        invariant j <= rows
        invariant |m| == n && Square(m)
        invariant forall a, b :: 0 <= a < n && 0 <= b < n ==>
                    m[a][b] == Partial(vertices, w, rows, a, b, i * rows + j)
      {
        m := LinkCell(m, vertices, w, rows, cols, i, j);
        j := j + 1;
      }
      Distribute(i, 1, rows);
      i := i + 1;
    }
    g := Graph(vertices, m);
  }

  /** The grid graph is undirected, non-negative and loop-free, and its matrix is nonzero
      exactly between points 20 pixels apart horizontally or vertically. */
  lemma GridWellFormed(g: Graph, lines: nat, stride: nat, w: WeightFn)
    requires GridLayout(g, lines, stride, w) && IsEuclidean(w)
    ensures WellFormed(g)
    ensures forall a, b :: 0 <= a < |g.vertices| && 0 <= b < |g.vertices| ==>
              (g.adjacency[a][b] != 0.0 <==> Adjacent(g.vertices[a], g.vertices[b]))
  {
    var vs, m := g.vertices, g.adjacency;
    forall a, b | 0 <= a < |vs| && 0 <= b < |vs|
      ensures GridNeighbours(a, b, stride) <==> Adjacent(vs[a], vs[b])
      ensures m[a][b] == m[b][a] && m[a][b] >= 0.0
    {
      NeighboursAreAdjacent(a, b, stride);
    }
    forall a, b | 0 <= a < |vs| && 0 <= b < |vs|
      ensures m[a][b] != 0.0 <==> Adjacent(vs[a], vs[b])
    {
      if Adjacent(vs[a], vs[b]) {
        assert vs[Min(a, b)] != vs[Max(a, b)];
      }
    }
  }

  /** Index neighbours are exactly the pairs whose grid points are adjacent. */
  lemma NeighboursAreAdjacent(a: nat, b: nat, s: nat)
    requires s > 0
    ensures GridNeighbours(a, b, s) <==> Adjacent(GridPoint(a / s, a % s), GridPoint(b / s, b % s))
  {
    if GridNeighbours(a, b, s) {
      NeighboursToAdjacent(a, b, s);
    }
    if Adjacent(GridPoint(a / s, a % s), GridPoint(b / s, b % s)) {
      AdjacentToNeighbours(a, b, s);
    }
  }

  lemma NeighboursToAdjacent(a: nat, b: nat, s: nat)
    requires GridNeighbours(a, b, s)
    ensures Adjacent(GridPoint(a / s, a % s), GridPoint(b / s, b % s))
  {
    if b == a + 1 && a % s != s - 1 {
      RightStep(a, s);
    } else if a == b + 1 && b % s != s - 1 {
      RightStep(b, s);
    } else if b == a + s {
      DownStep(a, s);
    } else {
      DownStep(b, s);
    }
  }

  lemma AdjacentToNeighbours(a: nat, b: nat, s: nat)
    requires s > 0
    requires Adjacent(GridPoint(a / s, a % s), GridPoint(b / s, b % s))
    ensures GridNeighbours(a, b, s)
  {
    var ia, ja, ib, jb := a / s, a % s, b / s, b % s;
    assert a == ia * s + ja && b == ib * s + jb;
    if ia == ib {
      assert ja - jb == 1 || jb - ja == 1;
    } else if ia == ib + 1 {
      assert ia * s == ib * s + s;
    } else {
      assert ib == ia + 1;
      assert ib * s == ia * s + s;
    }
  }
}
