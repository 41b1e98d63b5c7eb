/**
 * Seam carving by shortest paths.  A picture becomes a graph whose vertices
 * are its cells plus a virtual source before the first column (or row) and
 * a virtual sink after the last one; a horizontal seam is the shortest path
 * from source to sink, found with the A* solver and a heuristic of zero.
 *
 * The colour arithmetic of the energy (the square root of the summed colour
 * differences) is abstract: a picture carries it as a non-negative function
 * of the cell and of its four wrapped neighbours.
 */
module SeamCarving {
  import opened Wrappers
  import opened AStar

  type NonNegReal = r: real | r >= 0.0

  /** The four neighbouring indices the energy reads: left and right columns, top and bottom rows. */
  datatype Wrapped = Wrapped(l: int, r: int, t: int, b: int)

  /**
   * A picture: its size and the colour-gradient part of the energy, given
   * the cell and its wrapped neighbours.
   */
  datatype Picture = Picture(width: nat, height: nat, gradient: (int, int, Wrapped) -> NonNegReal)

  /** The exceptions `energy` throws, one per coordinate. */
  datatype SeamError = XOutOfRange | YOutOfRange

  /**
   * A vertex of the seam graph: a cell, the source `(-1, -1)` or the sink
   * `(width, height)`; `d` is 0 for a horizontal seam and 1 for a vertical one.
   */
  datatype Point = Point(x: int, y: int, d: int)

  /**
   * Point equality compares the coordinates and not the direction.  Every
   * point of one search carries the same direction (`NeighborsKeepDirection`),
   * so there it agrees with equality of the whole point.
   */
  predicate SamePoint(a: Point, b: Point)
    ensures a.d == b.d ==> (SamePoint(a, b) <==> a == b)
  {
    a.x == b.x && a.y == b.y
  }

  // ---------------------------------------------------------------------
  // Energy
  // ---------------------------------------------------------------------

  /**
   * The neighbours of `(x, y)`, one step away in each direction, wrapping
   * around the picture's edges; each lies in the picture and is the
   * step taken modulo the picture's size.
   */
  function Wrap(x: int, y: int, width: int, height: int): (w: Wrapped)
    requires 0 <= x < width && 0 <= y < height
    ensures 0 <= w.l < width && 0 <= w.r < width && 0 <= w.t < height && 0 <= w.b < height
    ensures w.l == (x - 1) % width && w.r == (x + 1) % width
    ensures w.t == (y - 1) % height && w.b == (y + 1) % height
  {
    var l := if x - 1 < 0 then x - 1 + width else x - 1;
    var r := if x + 1 >= width then x + 1 - width else x + 1;
    var t := if y - 1 < 0 then y - 1 + height else y - 1;
    var b := if y + 1 >= height then y + 1 - height else y + 1;
    ModOfNearby(x - 1, width, l);
    ModOfNearby(x + 1, width, r);
    ModOfNearby(y - 1, height, t);
    ModOfNearby(y + 1, height, b);
    Wrapped(l, r, t, b)
  }

  /** An index at most one wrap away from `r` leaves remainder `r`. */
  lemma ModOfNearby(a: int, m: int, r: int)
    requires m > 0 && 0 <= r < m && (a == r || a == r - m || a == r + m)
    ensures a % m == r
  {
    var q := a / m;
    assert a == m * q + a % m;
    if a == r - m {
      assert m * (q + 1) == r - a % m;
    } else if a == r + m {
      assert m * (q - 1) == r - a % m;
    } else {
      assert m * q == r - a % m;
    }
  }

  /**
   * The energy of cell `(x, y)`: an exception for a column or a row outside
   * the picture, the column checked first; otherwise the gradient at the
   * cell's wrapped neighbours.
   */
  function Energy(pic: Picture, x: int, y: int): (r: Result<NonNegReal, SeamError>)
    ensures r.Success? <==> 0 <= x < pic.width && 0 <= y < pic.height
    ensures r == Failure(XOutOfRange) <==> !(0 <= x < pic.width)
    ensures r.Success? ==> r.value == pic.gradient(x, y, Wrap(x, y, pic.width, pic.height))
  {
    if x < 0 || x > pic.width - 1 then Failure(XOutOfRange)
    else if y < 0 || y > pic.height - 1 then Failure(YOutOfRange)
    else Success(pic.gradient(x, y, Wrap(x, y, pic.width, pic.height)))
  }

  // ---------------------------------------------------------------------
  // The seam graph
  // ---------------------------------------------------------------------

  function Source(d: int): Point
  {
    Point(-1, -1, d)
  }

  function Sink(pic: Picture, d: int): Point
  {
    Point(pic.width, pic.height, d)
  }

  /** The coordinate a seam advances along (the column of a horizontal seam) ... */
  function Along(p: Point, d: int): int
  {
    if d == 0 then p.x else p.y
  }

  /** ... and the one it records (the row of a horizontal seam). */
  function Across(p: Point, d: int): int
  {
    if d == 0 then p.y else p.x
  }

  /** How many cells a seam in direction `d` has ... */
  function Length(pic: Picture, d: int): nat
  {
    if d == 0 then pic.width else pic.height
  }

  /** ... and how many values each of them can take. */
  function Breadth(pic: Picture, d: int): nat
  {
    if d == 0 then pic.height else pic.width
  }

  /** The vertex one step past `b` in direction `b.d`, at line `i` across. */
  function Step(b: Point, i: int): Point
  {
    if b.d == 0 then Point(b.x + 1, i, b.d) else Point(i, b.y + 1, b.d)
  }

  /**
   * The edges from `b` to `Step(b, k)` for `lo <= k < i`, in increasing `k`,
   * weighted by the energy of their target; the first target outside the
   * picture turns the whole list into that target's exception.
   */
  function EdgesUpTo(pic: Picture, b: Point, lo: int, i: int): Result<seq<WeightedEdge<Point>>, SeamError>
    decreases i - lo
  {
    if i <= lo then Success([])
    else
      match EdgesUpTo(pic, b, lo, i - 1)
      case Failure(e) => Failure(e)
      case Success(s) =>
        var t := Step(b, i - 1);
        match Energy(pic, t.x, t.y)
        case Failure(e) => Failure(e)
        case Success(en) => Success(s + [WeightedEdge(b, t, en)])
  }

  /**
   * The edges leaving `b`: a point on the last column (horizontal) or the
   * last row (vertical) has one edge of weight 0 to the sink; the source
   * reaches every cell of the first column (row); any other point reaches
   * the up to three cells of the next column (row) next to its own row
   * (column), clamped to the picture.
   */
  function NeighborEdges(pic: Picture, b: Point): Result<seq<WeightedEdge<Point>>, SeamError>
  {
    var d := b.d;
    if (b.x == pic.width - 1 && d == 0) || (b.y == pic.height - 1 && d == 1) then
      Success([WeightedEdge(b, Sink(pic, d), 0.0)])
    else if d == 0 then
      if b.x == -1 && b.y == -1 then EdgesUpTo(pic, b, 0, pic.height)
      else
        var start := if b.y - 1 < 0 then 0 else b.y - 1;
        var end := if b.y + 1 > pic.height - 1 then pic.height - 1 else b.y + 1;
        EdgesUpTo(pic, b, start, end + 1)
    else
      if b.x == -1 && b.y == -1 then EdgesUpTo(pic, b, 0, pic.width)
      else
        var start := if b.x - 1 < 0 then 0 else b.x - 1;
        var end := if b.x + 1 > pic.width - 1 then pic.width - 1 else b.x + 1;
        EdgesUpTo(pic, b, start, end + 1)
  }

  /** `neighbors`, building the list one edge at a time and stopping at the first exception. */
  method Neighbors(pic: Picture, b: Point) returns (r: Result<seq<WeightedEdge<Point>>, SeamError>)
    ensures r == NeighborEdges(pic, b)
  {
    var d := b.d;
    if (b.x == pic.width - 1 && d == 0) || (b.y == pic.height - 1 && d == 1) {
      return Success([WeightedEdge(b, Point(pic.width, pic.height, d), 0.0)]);
    }
    var start, end;
    if b.x == -1 && b.y == -1 {
      start := 0;
      end := if d == 0 then pic.height - 1 else pic.width - 1;
    } else {
      start := if d == 0 then b.y - 1 else b.x - 1;
      end := if d == 0 then b.y + 1 else b.x + 1;
      if start < 0 {
        start := 0;
      }
      var last := if d == 0 then pic.height - 1 else pic.width - 1;
      if end > last {
        end := last;
      }
    }
    assert NeighborEdges(pic, b) == EdgesUpTo(pic, b, start, end + 1);
    r := AddEdges(pic, b, start, end);
  }

  /** The `for` loop of `neighbors`: the edges to lines `start..end`, or the first exception. */
  method AddEdges(pic: Picture, b: Point, start: int, end: int) returns (r: Result<seq<WeightedEdge<Point>>, SeamError>)
    ensures r == EdgesUpTo(pic, b, start, end + 1)
  {
    var edges := [];
    var i := start;
    while i <= end
      invariant i == start || start < i <= end + 1
      invariant EdgesUpTo(pic, b, start, i) == Success(edges)
      decreases end - i
    {
      var t := Step(b, i);
      var en := Energy(pic, t.x, t.y);
      if en.Failure? {
        FailureSticks(pic, b, start, i + 1, end + 1);
        return Failure(en.error);
      }
      edges := edges + [WeightedEdge(b, t, en.value)];
      i := i + 1;
    }
    if end + 1 < start {
      assert EdgesUpTo(pic, b, start, end + 1) == Success([]);
    } else {
      assert i == end + 1;
    }
    return Success(edges);
  }

  /** Once an edge's target is outside the picture, every longer list fails with its exception. */
  lemma {:induction false} FailureSticks(pic: Picture, b: Point, lo: int, i: int, j: int)
    requires lo < i <= j && EdgesUpTo(pic, b, lo, i).Failure?
    ensures EdgesUpTo(pic, b, lo, j) == EdgesUpTo(pic, b, lo, i)
    decreases j - i
  {
    if i < j {
      FailureSticks(pic, b, lo, i, j - 1);
    }
  }

  /**
   * The edges as the solver sees them.  An exception would end the search;
   * it never happens for the source or a cell of the picture
   * (`NeighborsOfCells`), and the only other vertex the search meets is the
   * sink, which it never expands, so the solver is given no edges there.
   */
  function SeamNeighbors(pic: Picture, b: Point): seq<WeightedEdge<Point>>
  {
    match NeighborEdges(pic, b)
    case Success(s) => s
    case Failure(_) => []
  }

  /**
   * The seam graph is one A* can search optimally: its weights are energies
   * or 0, so never negative, and its heuristic is zero towards any goal.
   */
  function SeamGraph(pic: Picture): (g: AStarGraph<Point>)
    ensures NonNegativeWeights(g)
    ensures forall goal :: ZeroHeuristic(g, goal)
    ensures forall b :: g.Neighbors(b) == SeamNeighbors(pic, b)
  {
    var g := AStarGraph((b: Point) => SeamNeighbors(pic, b), (s: Point, goal: Point) => 0.0);
    assert NonNegativeWeights(g) by {
      forall v, i | 0 <= i < |g.Neighbors(v)|
        ensures g.Neighbors(v)[i].weight >= 0.0
      {
        NeighborsKeepDirection(pic, v, g.Neighbors(v)[i]);
      }
    }
    g
  }

  // ---------------------------------------------------------------------
  // Properties of the edges
  // ---------------------------------------------------------------------

  /** A cell of the picture, in direction `d`. */
  predicate InCell(pic: Picture, d: int, p: Point)
  {
    p.d == d && 0 <= p.x < pic.width && 0 <= p.y < pic.height
  }

  /**
   * `EdgesUpTo` succeeds exactly when every target lies in the picture, and
   * then holds one edge per line, in order, from `b` to that line's cell,
   * weighted by its energy.
   */
  lemma {:induction false} EdgesUpToFacts(pic: Picture, b: Point, lo: int, i: int)
    requires lo <= i
    ensures var r := EdgesUpTo(pic, b, lo, i);
      (r.Success? <==> forall k :: lo <= k < i ==> Energy(pic, Step(b, k).x, Step(b, k).y).Success?) &&
      (r.Success? ==>
        |r.value| == i - lo &&
        forall k :: 0 <= k < |r.value| ==>
          r.value[k].from == b && r.value[k].to == Step(b, lo + k) &&
          r.value[k].weight == Energy(pic, Step(b, lo + k).x, Step(b, lo + k).y).value)
    decreases i - lo
  {
    if i > lo {
      EdgesUpToFacts(pic, b, lo, i - 1);
    }
  }

  /** Every edge stays in the direction of the point it leaves. */
  lemma NeighborsKeepDirection(pic: Picture, b: Point, e: WeightedEdge<Point>)
    requires e in SeamNeighbors(pic, b)
    ensures e.from == b && e.to.d == b.d && e.weight >= 0.0
  {
    var d := b.d;
    if !((b.x == pic.width - 1 && d == 0) || (b.y == pic.height - 1 && d == 1)) {
      var lo, hi := NeighborRange(pic, b);
      EdgesUpToFacts(pic, b, lo, hi);
    }
  }

  /** The lines `lo..hi-1` that a point not next to the sink reaches. */
  lemma NeighborRange(pic: Picture, b: Point) returns (lo: int, hi: int)
    requires !((b.x == pic.width - 1 && b.d == 0) || (b.y == pic.height - 1 && b.d == 1))
    ensures NeighborEdges(pic, b) == EdgesUpTo(pic, b, lo, hi)
    ensures lo <= hi
    ensures b == Source(b.d) ==> lo == 0 && hi == Breadth(pic, b.d)
    ensures b != Source(b.d) ==>
      var c := Across(b, b.d);
      lo == (if c - 1 < 0 then 0 else c - 1) &&
      var end := if c + 1 > Breadth(pic, b.d) - 1 then Breadth(pic, b.d) - 1 else c + 1;
      hi == (if end + 1 < lo then lo else end + 1)
  {
    var c := Across(b, b.d);
    if b == Source(b.d) {
      lo, hi := 0, Breadth(pic, b.d);
    } else {
      lo := if c - 1 < 0 then 0 else c - 1;
      var end := if c + 1 > Breadth(pic, b.d) - 1 then Breadth(pic, b.d) - 1 else c + 1;
      hi := end + 1;
      if hi < lo {
        // The clamped range is empty; so is a range with lo == hi.
        assert EdgesUpTo(pic, b, lo, hi) == Success([]);
        hi := lo;
      }
    }
  }

  /** A point on the last line of a seam has exactly one edge, of weight 0, to the sink. */
  lemma LastLineReachesSink(pic: Picture, d: int, b: Point)
    requires d == 0 || d == 1
    requires b.d == d && Along(b, d) == Length(pic, d) - 1
    ensures NeighborEdges(pic, b) == Success([WeightedEdge(b, Sink(pic, d), 0.0)])
  {
  }

  /**
   * The source reaches every cell of the first line, one edge per cell in
   * order, each weighted by the cell's energy (when the picture has more
   * than one line; with one line it is itself on the last one).
   */
  lemma SourceReachesFirstLine(pic: Picture, d: int)
    requires d == 0 || d == 1
    requires Length(pic, d) >= 2 || (Length(pic, d) == 1 && d == 0 && pic.height != 0) ||
      (Length(pic, d) == 1 && d == 1 && pic.width != 0)
    ensures var r := NeighborEdges(pic, Source(d));
      r.Success? && |r.value| == Breadth(pic, d) &&
      forall k :: 0 <= k < Breadth(pic, d) ==>
        var t := r.value[k].to;
        t.d == d && Along(t, d) == 0 && Across(t, d) == k &&
        r.value[k].weight == Energy(pic, t.x, t.y).value
  {
    EdgesUpToFacts(pic, Source(d), 0, Breadth(pic, d));
  }

  /**
   * A cell before the last line reaches the cells of the next line whose
   * row (column) differs from its own by at most one, in order: at most
   * three, and all inside the picture.
   */
  lemma InnerCellReachesNextLine(pic: Picture, d: int, b: Point)
    requires d == 0 || d == 1
    requires InCell(pic, d, b) && Along(b, d) < Length(pic, d) - 1
    ensures var r := NeighborEdges(pic, b);
      var c := Across(b, d);
      var first := if c - 1 < 0 then 0 else c - 1;
      var last := if c + 1 > Breadth(pic, d) - 1 then Breadth(pic, d) - 1 else c + 1;
      r.Success? && 1 <= |r.value| <= 3 && |r.value| == last - first + 1 &&
      forall k :: 0 <= k < |r.value| ==>
        var t := r.value[k].to;
        InCell(pic, d, t) && Along(t, d) == Along(b, d) + 1 && Across(t, d) == first + k &&
        r.value[k].weight == Energy(pic, t.x, t.y).value
  {
    var lo, hi := NeighborRange(pic, b);
    EdgesUpToFacts(pic, b, lo, hi);
  }

  /**
   * The solver never meets an exception: the source and the cells of the
   * picture all have their edges.
   */
  lemma NeighborsOfCells(pic: Picture, d: int, b: Point)
    requires d == 0 || d == 1
    requires b == Source(d) || InCell(pic, d, b)
    ensures NeighborEdges(pic, b).Success?
  {
    if Along(b, d) != Length(pic, d) - 1 {
      var lo, hi := NeighborRange(pic, b);
      EdgesUpToFacts(pic, b, lo, hi);
    }
  }

  /** The sink has no edges, so a path can only end there. */
  lemma SinkIsADeadEnd(pic: Picture, d: int)
    requires d == 0 || d == 1
    ensures SeamNeighbors(pic, Sink(pic, d)) == []
  {
    var lo, hi := NeighborRange(pic, Sink(pic, d));
    EdgesUpToFacts(pic, Sink(pic, d), lo, hi);
  }

  // ---------------------------------------------------------------------
  // Paths and seams
  // ---------------------------------------------------------------------

  /**
   * Along a path that leaves the source, the `k`-th vertex is the cell of
   * line `k - 1` while there are lines, then the sink, and nothing comes
   * after the sink; consecutive cells differ by at most one across.
   */
  lemma {:induction false} PathShape(pic: Picture, d: int, p: seq<Point>, k: int)
    requires d == 0 || d == 1
    requires IsPath(SeamGraph(pic), p) && |p| >= 1 && p[0] == Source(d)
    requires 1 <= k < |p|
    ensures k <= Length(pic, d) + 1
    ensures k <= Length(pic, d) ==> InCell(pic, d, p[k]) && Along(p[k], d) == k - 1
    ensures k == Length(pic, d) + 1 ==> p[k] == Sink(pic, d)
    ensures 2 <= k <= Length(pic, d) ==> -1 <= Across(p[k], d) - Across(p[k - 1], d) <= 1
    decreases k
  {
    var g := SeamGraph(pic);
    assert IsEdge(g, p[k - 1], p[k]);
    var i :| 0 <= i < |g.Neighbors(p[k - 1])| && g.Neighbors(p[k - 1])[i].to == p[k];
    if k == 1 {
      if Length(pic, d) == 0 {
        LastLineReachesSink(pic, d, p[0]);
      } else {
        var lo, hi := NeighborRange(pic, p[0]);
        EdgesUpToFacts(pic, p[0], lo, hi);
      }
    } else {
      PathShape(pic, d, p, k - 1);
      if k - 1 == Length(pic, d) + 1 {
        SinkIsADeadEnd(pic, d);
      } else if k - 1 == Length(pic, d) {
        LastLineReachesSink(pic, d, p[k - 1]);
      } else {
        InnerCellReachesNextLine(pic, d, p[k - 1]);
        assert g.Neighbors(p[k - 1])[i] in NeighborEdges(pic, p[k - 1]).value;
      }
    }
  }

  /** A path from the source to the sink has one vertex per line plus its two ends. */
  lemma SeamPathLength(pic: Picture, d: int, p: seq<Point>)
    requires d == 0 || d == 1
    requires IsPath(SeamGraph(pic), p) && |p| >= 1 && p[0] == Source(d) && p[|p| - 1] == Sink(pic, d)
    ensures |p| == Length(pic, d) + 2
  {
    assert p[0] != Sink(pic, d);
    PathShape(pic, d, p, |p| - 1);
  }

  /**
   * A seam: one value per line, each a row (column) of the picture, and
   * neighbouring values at most one apart.
   */
  predicate IsSeam(s: seq<int>, breadth: int)
  {
    (forall k :: 0 <= k < |s| ==> 0 <= s[k] < breadth) &&
    (forall k :: 0 <= k < |s| - 1 ==> -1 <= s[k + 1] - s[k] <= 1)
  }

  /** The vertices of a path from the source to the sink, read across, form a seam. */
  lemma PathGivesSeam(pic: Picture, d: int, p: seq<Point>, s: seq<int>)
    requires d == 0 || d == 1
    requires IsPath(SeamGraph(pic), p) && |p| >= 1 && p[0] == Source(d) && p[|p| - 1] == Sink(pic, d)
    requires |s| == Length(pic, d) && |p| == |s| + 2
    requires forall k :: 0 <= k < |s| ==> s[k] == Across(p[k + 1], d)
    ensures IsSeam(s, Breadth(pic, d))
  {
    forall k | 0 <= k < |s|
      ensures 0 <= s[k] < Breadth(pic, d)
      ensures k < |s| - 1 ==> -1 <= s[k + 1] - s[k] <= 1
    {
      PathShape(pic, d, p, k + 1);
      if k < |s| - 1 {
        PathShape(pic, d, p, k + 2);
      }
    }
  }

  // ---------------------------------------------------------------------
  // Seam energy
  // ---------------------------------------------------------------------

  /** The cell on line `line`, at row (column) `across`, of a seam in direction `d`. */
  function Cell(d: int, line: int, across: int): Point
  {
    if d == 0 then Point(line, across, d) else Point(across, line, d)
  }

  /** The energy of that cell, or 0 outside the picture. */
  function CellEnergy(pic: Picture, d: int, line: int, across: int): real
  {
    var c := Cell(d, line, across);
    match Energy(pic, c.x, c.y)
    case Success(e) => e
    case Failure(_) => 0.0
  }

  /** The energy of a seam: the sum of the energies of its cells, the `k`-th on line `k`. */
  function SeamEnergy(pic: Picture, d: int, s: seq<int>): real
  {
    if s == [] then 0.0 else SeamEnergy(pic, d, s[..|s| - 1]) + CellEnergy(pic, d, |s| - 1, s[|s| - 1])
  }

  /** The rows (columns) of the points of `p`. */
  function Crossings(p: seq<Point>, d: int): seq<int>
  {
    seq(|p|, k requires 0 <= k < |p| => Across(p[k], d))
  }

  /** The path through the cells of seam `s`, from the source to the sink. */
  function SeamPath(pic: Picture, d: int, s: seq<int>): seq<Point>
  {
    [Source(d)] + seq(|s|, k requires 0 <= k < |s| => Cell(d, k, s[k])) + [Sink(pic, d)]
  }

  /** An edge of the seam graph weighs the energy of the cell it enters, or 0 when it enters the sink. */
  lemma EdgeWeightIsEnergy(pic: Picture, b: Point, e: WeightedEdge<Point>)
    requires e in SeamNeighbors(pic, b)
    ensures e.to == Sink(pic, b.d) ==> e.weight == 0.0
    ensures e.to != Sink(pic, b.d) ==> e.weight == CellEnergy(pic, b.d, Along(e.to, b.d), Across(e.to, b.d))
  {
    var d := b.d;
    if !((b.x == pic.width - 1 && d == 0) || (b.y == pic.height - 1 && d == 1)) {
      var lo, hi := NeighborRange(pic, b);
      EdgesUpToFacts(pic, b, lo, hi);
      var es := NeighborEdges(pic, b).value;
      var k :| 0 <= k < |es| && es[k] == e;
      assert e.to == Step(b, lo + k);
    }
  }

  /** Between neighbouring vertices of the seam graph the path weight grows by the energy of the cell entered, or 0 at the sink. */
  lemma EdgeCostIsEnergy(pic: Picture, b: Point, t: Point)
    requires IsEdge(SeamGraph(pic), b, t)
    ensures t.d == b.d
    ensures t == Sink(pic, t.d) ==> EdgeCost(SeamGraph(pic), b, t) == 0.0
    ensures t != Sink(pic, t.d) ==> EdgeCost(SeamGraph(pic), b, t) == CellEnergy(pic, t.d, Along(t, t.d), Across(t, t.d))
  {
    var g := SeamGraph(pic);
    EdgeCostFacts(g, b, t);
    var i :| 0 <= i < |g.Neighbors(b)| && g.Neighbors(b)[i].to == t && g.Neighbors(b)[i].weight == EdgeCost(g, b, t);
    EdgeWeightIsEnergy(pic, b, g.Neighbors(b)[i]);
    NeighborsKeepDirection(pic, b, g.Neighbors(b)[i]);
  }

  /** Along a path from the source, the edge into line `k - 1` costs the energy of the cell it enters. */
  lemma EdgeIntoLine(pic: Picture, d: int, p: seq<Point>, k: nat)
    requires d == 0 || d == 1
    requires IsPath(SeamGraph(pic), p) && |p| >= 1 && p[0] == Source(d)
    requires 1 <= k < |p| && k <= Length(pic, d)
    ensures EdgeCost(SeamGraph(pic), p[k - 1], p[k]) == CellEnergy(pic, d, k - 1, Across(p[k], d))
  {
    PathShape(pic, d, p, k);
    assert IsEdge(SeamGraph(pic), p[k - 1], p[k]);
    EdgeCostIsEnergy(pic, p[k - 1], p[k]);
  }

  /** The crossings of a longer stretch of a path extend those of a shorter one. */
  lemma CrossingsPrefix(p: seq<Point>, d: int, k: nat)
    requires 1 <= k < |p|
    ensures var s := Crossings(p[1..k + 1], d);
      |s| == k && s[..k - 1] == Crossings(p[1..k], d) && s[k - 1] == Across(p[k], d)
  {
  }

  /**
   * A path whose `k` first edges each cost the energy of the cell they lead
   * into weighs, up to its vertex `k`, the energy of the seam those cells spell.
   */
  lemma {:induction false} WeightIsEnergy(g: AStarGraph<Point>, pic: Picture, d: int, p: seq<Point>, k: nat)
    requires k < |p|
    requires forall j :: 1 <= j <= k ==> EdgeCost(g, p[j - 1], p[j]) == CellEnergy(pic, d, j - 1, Across(p[j], d))
    ensures PathWeight(g, p[..k + 1]) == SeamEnergy(pic, d, Crossings(p[1..k + 1], d))
  {
    if k > 0 {
      WeightIsEnergy(g, pic, d, p, k - 1);
      WeightStep(g, p, k);
      EnergyStep(pic, d, p, k);
    }
  }

  /** Weighing a path one vertex further adds the cost of its last edge. */
  lemma WeightStep(g: AStarGraph<Point>, p: seq<Point>, k: nat)
    requires 1 <= k < |p|
    ensures PathWeight(g, p[..k + 1]) == PathWeight(g, p[..k]) + EdgeCost(g, p[k - 1], p[k])
  {
    assert p[..k + 1][..k] == p[..k];
  }

  /** Reading a path one vertex further adds the energy of that vertex's cell to its seam. */
  lemma EnergyStep(pic: Picture, d: int, p: seq<Point>, k: nat)
    requires 1 <= k < |p|
    ensures SeamEnergy(pic, d, Crossings(p[1..k + 1], d)) ==
      SeamEnergy(pic, d, Crossings(p[1..k], d)) + CellEnergy(pic, d, k - 1, Across(p[k], d))
  {
    CrossingsPrefix(p, d, k);
  }

  /**
   * Up to its vertex on line `k - 1`, a path from the source weighs the
   * energy of the seam its cells spell.
   */
  lemma PathPrefixWeight(pic: Picture, d: int, p: seq<Point>, k: nat)
    requires d == 0 || d == 1
    requires IsPath(SeamGraph(pic), p) && |p| >= 1 && p[0] == Source(d)
    requires k < |p| && k <= Length(pic, d)
    ensures PathWeight(SeamGraph(pic), p[..k + 1]) == SeamEnergy(pic, d, Crossings(p[1..k + 1], d))
  {
    forall j | 1 <= j <= k
      ensures EdgeCost(SeamGraph(pic), p[j - 1], p[j]) == CellEnergy(pic, d, j - 1, Across(p[j], d))
    {
      EdgeIntoLine(pic, d, p, j);
    }
    WeightIsEnergy(SeamGraph(pic), pic, d, p, k);
  }

  /** A path from the source to the sink weighs the energy of the seam its cells spell. */
  lemma SeamPathWeight(pic: Picture, d: int, p: seq<Point>)
    requires d == 0 || d == 1
    requires IsPath(SeamGraph(pic), p) && |p| >= 1 && p[0] == Source(d) && p[|p| - 1] == Sink(pic, d)
    ensures |p| == Length(pic, d) + 2
    ensures PathWeight(SeamGraph(pic), p) == SeamEnergy(pic, d, Crossings(p[1..|p| - 1], d))
  {
    SeamPathLength(pic, d, p);
    var n := |p|;
    PathPrefixWeight(pic, d, p, n - 2);
    EdgeIntoSink(pic, d, p);
    assert p[..n - 1] == p[..(n - 2) + 1];
    assert PathWeight(SeamGraph(pic), p) == PathWeight(SeamGraph(pic), p[..n - 1]) + EdgeCost(SeamGraph(pic), p[n - 2], p[n - 1]);
  }

  /** The edge into the sink at the end of a path from the source costs nothing. */
  lemma EdgeIntoSink(pic: Picture, d: int, p: seq<Point>)
    requires d == 0 || d == 1
    requires IsPath(SeamGraph(pic), p) && |p| >= 2 && p[0] == Source(d) && p[|p| - 1] == Sink(pic, d)
    ensures EdgeCost(SeamGraph(pic), p[|p| - 2], p[|p| - 1]) == 0.0
  {
    var n := |p|;
    assert IsEdge(SeamGraph(pic), p[n - 2], p[n - 1]);
    EdgeCostIsEnergy(pic, p[n - 2], p[n - 1]);
  }

  /** Every seam of the picture is spelled by a path from the source to the sink. */
  lemma SeamPathIsPath(pic: Picture, d: int, s: seq<int>)
    requires d == 0 || d == 1
    requires IsSeam(s, Breadth(pic, d)) && |s| == Length(pic, d)
    ensures var p := SeamPath(pic, d, s);
      IsPath(SeamGraph(pic), p) && |p| >= 1 && p[0] == Source(d) && p[|p| - 1] == Sink(pic, d) &&
      Crossings(p[1..|p| - 1], d) == s
  {
    var g := SeamGraph(pic);
    var p := SeamPath(pic, d, s);
    var n := |s|;
    forall k | 0 <= k < |p| - 1
      ensures IsEdge(g, p[k], p[k + 1])
    {
      if k == n {
        LastLineReachesSink(pic, d, p[k]);
        assert g.Neighbors(p[k])[0].to == p[k + 1];
      } else if k == 0 {
        SourceReachesFirstLine(pic, d);
        assert g.Neighbors(p[0])[s[0]].to == p[1];
      } else {
        SeamStep(pic, d, s, k);
      }
    }
    assert Crossings(p[1..|p| - 1], d) == s;
  }

  /** The cell of a seam on line `k - 1` is joined by an edge to the cell on line `k`. */
  lemma SeamStep(pic: Picture, d: int, s: seq<int>, k: int)
    requires d == 0 || d == 1
    requires IsSeam(s, Breadth(pic, d)) && |s| == Length(pic, d) && 0 < k < |s|
    ensures IsEdge(SeamGraph(pic), Cell(d, k - 1, s[k - 1]), Cell(d, k, s[k]))
  {
    var b := Cell(d, k - 1, s[k - 1]);
    InnerCellReachesNextLine(pic, d, b);
    var c := s[k - 1];
    var first := if c - 1 < 0 then 0 else c - 1;
    var es := SeamGraph(pic).Neighbors(b);
    var t := es[s[k] - first].to;
    assert Along(t, d) == k && Across(t, d) == s[k] && t.d == d;
  }

  /**
   * A path from the source to the sink that no other such path undercuts
   * spells a seam of least energy.
   */
  lemma ShortestPathIsLeastEnergySeam(pic: Picture, d: int, p: seq<Point>, w: real)
    requires d == 0 || d == 1
    requires IsPath(SeamGraph(pic), p) && |p| >= 1 && p[0] == Source(d) && p[|p| - 1] == Sink(pic, d)
    requires PathWeight(SeamGraph(pic), p) == w && NoShorterPath(SeamGraph(pic), Source(d), Sink(pic, d), w)
    ensures forall s :: IsSeam(s, Breadth(pic, d)) && |s| == Length(pic, d) ==>
      SeamEnergy(pic, d, Crossings(p[1..|p| - 1], d)) <= SeamEnergy(pic, d, s)
  {
    SeamPathWeight(pic, d, p);
    forall s | IsSeam(s, Breadth(pic, d)) && |s| == Length(pic, d)
      ensures SeamEnergy(pic, d, Crossings(p[1..|p| - 1], d)) <= SeamEnergy(pic, d, s)
    {
      SeamPathIsPath(pic, d, s);
      SeamPathWeight(pic, d, SeamPath(pic, d, s));
    }
  }

  /** When the picture has a row (column) to cross, a path leads from the source to the sink. */
  lemma SinkReachable(pic: Picture, d: int)
    requires d == 0 || d == 1
    requires Breadth(pic, d) >= 1
    ensures exists p :: IsPath(SeamGraph(pic), p) && |p| > 0 && p[0] == Source(d) && p[|p| - 1] == Sink(pic, d)
  {
    var s := seq(Length(pic, d), k => 0);
    SeamPathIsPath(pic, d, s);
    var p := SeamPath(pic, d, s);
    assert IsPath(SeamGraph(pic), p) && |p| > 0 && p[0] == Source(d) && p[|p| - 1] == Sink(pic, d);
  }

  /**
   * The rows (columns) `s` read off a shortest path from the source to the
   * sink form a seam of least energy.
   */
  lemma SolutionSpellsSeam(pic: Picture, d: int, p: seq<Point>, w: real, s: seq<int>)
    requires d == 0 || d == 1
    requires IsPath(SeamGraph(pic), p) && |p| >= 1 && p[0] == Source(d) && p[|p| - 1] == Sink(pic, d)
    requires PathWeight(SeamGraph(pic), p) == w && NoShorterPath(SeamGraph(pic), Source(d), Sink(pic, d), w)
    requires |s| == Length(pic, d) && |p| == |s| + 2 && forall k :: 0 <= k < |s| ==> s[k] == Across(p[k + 1], d)
    ensures s == Crossings(p[1..|s| + 1], d) && IsSeam(s, Breadth(pic, d))
    ensures forall o :: IsSeam(o, Breadth(pic, d)) && |o| == Length(pic, d) ==> SeamEnergy(pic, d, s) <= SeamEnergy(pic, d, o)
  {
    PathGivesSeam(pic, d, p, s);
    ShortestPathIsLeastEnergySeam(pic, d, p, w);
    assert s == Crossings(p[1..|p| - 1], d);
  }

  // ---------------------------------------------------------------------
  // Finding seams
  // ---------------------------------------------------------------------

  /**
   * Finds a seam in direction `d`: searches the seam graph from the source
   * to the sink with at most `budget` removals, and reads the seam off the
   * solution, one row (column) per line; `null` when the search did not
   * solve, which happens only on a timeout when there is a row (column) to
   * cross.  A returned seam is a seam of the picture of least energy.
   * `solver` is the solver the search ran in.
   */
  method FindSeam(pic: Picture, hash: Point -> nat, budget: nat, d: int)
    returns (seam: array?<int>, ghost solver: AStarSolver<Point>)
    requires d == 0 || d == 1
    ensures fresh(solver) && solver.Valid()
    ensures solver.graph == SeamGraph(pic) && solver.start == Source(d) && solver.end == Sink(pic, d) && solver.budget == budget
    ensures (seam == null) == (solver.outcome != SOLVED)
    ensures seam == null && Breadth(pic, d) >= 1 ==> solver.outcome == TIMEOUT
    ensures seam != null ==>
      fresh(seam) && seam.Length == Length(pic, d) && IsSeam(seam[..], Breadth(pic, d)) &&
      |solver.solution| == seam.Length + 2 && seam[..] == Crossings(solver.solution[1..seam.Length + 1], d)
    ensures seam != null ==>
      forall s :: IsSeam(s, Breadth(pic, d)) && |s| == Length(pic, d) ==> SeamEnergy(pic, d, seam[..]) <= SeamEnergy(pic, d, s)
  {
    var start := Point(-1, -1, d);
    var goal := Point(pic.width, pic.height, d);
    var g := SeamGraph(pic);
    var search := new AStarSolver(g, hash, start, goal, budget);
    solver := search;
    var solved := search.Outcome() == SOLVED;
    if solved {
      var p := search.Solution();
      var w := search.SolutionWeight();
      seam := SeamOfPath(pic, d, p, w);
    } else {
      seam := null;
      if Breadth(pic, d) >= 1 {
        SinkReachable(pic, d);
      }
    }
  }

  /**
   * Reads the seam off a path of least weight from the source to the sink:
   * one row (column) per line, a seam of least energy.
   */
  method SeamOfPath(pic: Picture, d: int, p: seq<Point>, w: real) returns (seam: array<int>)
    requires d == 0 || d == 1
    requires IsPath(SeamGraph(pic), p) && |p| >= 1 && p[0] == Source(d) && p[|p| - 1] == Sink(pic, d)
    requires PathWeight(SeamGraph(pic), p) == w && NoShorterPath(SeamGraph(pic), Source(d), Sink(pic, d), w)
    ensures fresh(seam) && seam.Length == Length(pic, d) && IsSeam(seam[..], Breadth(pic, d))
    ensures |p| == seam.Length + 2 && seam[..] == Crossings(p[1..seam.Length + 1], d)
    ensures forall s :: IsSeam(s, Breadth(pic, d)) && |s| == Length(pic, d) ==> SeamEnergy(pic, d, seam[..]) <= SeamEnergy(pic, d, s)
  {
    SeamPathLength(pic, d, p);
    seam := CopyAcross(p, d, Length(pic, d));
    SolutionSpellsSeam(pic, d, p, w, seam[..]);
  }

  /** Fills a new array with the cross coordinates of the path's inner points. */
  method CopyAcross(p: seq<Point>, d: int, n: nat) returns (seam: array<int>)
    requires n + 1 < |p|
    ensures fresh(seam) && seam.Length == n
    ensures forall k :: 0 <= k < n ==> seam[k] == Across(p[k + 1], d)
  {
    seam := new int[n];
    var i := 0;
    while i < n
      invariant 0 <= i <= n
      invariant forall k :: 0 <= k < i ==> seam[k] == Across(p[k + 1], d)
    {
      seam[i] := if d == 0 then p[i + 1].y else p[i + 1].x;
      i := i + 1;
    }
  }

  /**
   * `findHorizontalSeam`: one row per column, of least energy, or `null`,
   * which happens only on a timeout when the picture has a row.
   */
  method FindHorizontalSeam(pic: Picture, hash: Point -> nat, budget: nat)
    returns (seam: array?<int>, ghost solver: AStarSolver<Point>)
    ensures fresh(solver) && solver.Valid()
    ensures solver.graph == SeamGraph(pic) && solver.start == Source(0) && solver.end == Sink(pic, 0) && solver.budget == budget
    ensures (seam == null) == (solver.outcome != SOLVED)
    ensures seam == null && pic.height >= 1 ==> solver.outcome == TIMEOUT
    ensures seam != null ==> fresh(seam) && seam.Length == pic.width && IsSeam(seam[..], pic.height)
    ensures seam != null ==>
      forall s :: IsSeam(s, pic.height) && |s| == pic.width ==> SeamEnergy(pic, 0, seam[..]) <= SeamEnergy(pic, 0, s)
  {
    seam, solver := FindSeam(pic, hash, budget, 0);
  }

  /**
   * `findVerticalSeam`: one column per row, of least energy, or `null`,
   * which happens only on a timeout when the picture has a column.
   */
  method FindVerticalSeam(pic: Picture, hash: Point -> nat, budget: nat)
    returns (seam: array?<int>, ghost solver: AStarSolver<Point>)
    ensures fresh(solver) && solver.Valid()
    ensures solver.graph == SeamGraph(pic) && solver.start == Source(1) && solver.end == Sink(pic, 1) && solver.budget == budget
    ensures (seam == null) == (solver.outcome != SOLVED)
    ensures seam == null && pic.width >= 1 ==> solver.outcome == TIMEOUT
    ensures seam != null ==> fresh(seam) && seam.Length == pic.height && IsSeam(seam[..], pic.width)
    ensures seam != null ==>
      forall s :: IsSeam(s, pic.width) && |s| == pic.height ==> SeamEnergy(pic, 1, seam[..]) <= SeamEnergy(pic, 1, s)
  {
    seam, solver := FindSeam(pic, hash, budget, 1);
  }
}
