/**
 * A 2-d tree over points of the plane.  Each node splits on one coordinate:
 * split 1 compares `y`, any other split compares `x`.  Points strictly above
 * the node on its coordinate go right ("right" for x, "top" for y), the
 * others go left.  The splits alternate x, y, x, ... with the depth.
 */
module KDTrees {
  import opened Wrappers
  import opened KDPoints

  datatype Tree = Leaf | Node(data: Point, k: int, left: Tree, right: Tree)

  /**
   * The `KDNode` constructor: an ordered one-point tree, splitting on x or y;
   * it fits at every depth of the parity of `k`, and a split above 1 is
   * reset to 0 (x).
   */
  function NewNode(d: Point, k: int): (t: Tree)
    ensures t.Node? && t.data == d && t.left == Leaf && t.right == Leaf
    ensures Points(t) == multiset{d} && Ordered(t)
    ensures k >= 0 ==> 0 <= t.k <= 1
    ensures forall n: nat :: n % 2 == k ==> Alternates(t, n)
    ensures k > 1 ==> forall n: nat :: n % 2 == 0 ==> Alternates(t, n)
  {
    Node(d, if k > 1 then 0 else k, Leaf, Leaf)
  }

  /** The coordinate a split compares: `y` for split 1, `x` otherwise. */
  function Coord(x: real, y: real, k: int): real
  {
    if k == 1 then y else x
  }

  /** `rightTop`: `(x, y)` lies strictly beyond `d` on the split coordinate. */
  predicate RightTop(d: Point, k: int, x: real, y: real)
  {
    if k == 1 then y > d.y else x > d.x
  }

  /** `minPossibleDis`: the squared distance from `(x, y)` to the splitting line. */
  function MinPossibleDis(d: Point, k: int, x: real, y: real): (m: real)
    ensures m >= 0.0
  {
    if k == 1 then Square(d.y - y) else Square(d.x - x)
  }

  /**
   * Every point on the other side of the splitting line from `(x, y)` is at
   * least `minPossibleDis` away from it.
   */
  lemma MinPossibleDisBound(d: Point, k: int, x: real, y: real, p: Point)
    requires RightTop(d, k, p.x, p.y) != RightTop(d, k, x, y)
    ensures MinPossibleDis(d, k, x, y) <= DistanceSquaredTo(p, x, y)
  {
    SquareGrowsAway(Coord(d.x, d.y, k) - Coord(x, y, k), Coord(p.x, p.y, k) - Coord(x, y, k));
  }

  /** The points stored in a tree. */
  function Points(t: Tree): multiset<Point>
  {
    match t
    case Leaf => multiset{}
    case Node(d, _, l, r) => multiset{d} + Points(l) + Points(r)
  }

  /** Every point of `ps` is on the near side of the split at `d`, or on it. */
  ghost predicate AllLeft(d: Point, k: int, ps: multiset<Point>)
  {
    forall p :: p in ps ==> !RightTop(d, k, p.x, p.y)
  }

  /** Every point of `ps` is strictly beyond the split at `d`. */
  ghost predicate AllRight(d: Point, k: int, ps: multiset<Point>)
  {
    forall p :: p in ps ==> RightTop(d, k, p.x, p.y)
  }

  /**
   * Search-tree order: below every node, the left points are not beyond the
   * node on its split coordinate and the right points are strictly beyond.
   */
  ghost predicate Ordered(t: Tree)
  {
    match t
    case Leaf => true
    case Node(d, k, l, r) =>
      Ordered(l) && Ordered(r) && AllLeft(d, k, Points(l)) && AllRight(d, k, Points(r))
  }

  /** Every node at depth `n` below the root splits on coordinate `n % 2`. */
  ghost predicate Alternates(t: Tree, n: nat)
  {
    match t
    case Leaf => true
    case Node(_, k, l, r) => k == n % 2 && Alternates(l, n + 1) && Alternates(r, n + 1)
  }

  /**
   * `addNode`: walks down from a node as `rightTop` directs and hangs a new
   * node for `pp` where the walk leaves the tree; its split is the parent's
   * plus one.
   */
  function AddNode(t: Tree, pp: Point): (r: Tree)
    requires t.Node?
    ensures r.Node? && r.data == t.data && r.k == t.k
    ensures Points(r) == Points(t) + multiset{pp}
  {
    if RightTop(t.data, t.k, pp.x, pp.y) then
      if t.right.Leaf? then t.(right := NewNode(pp, t.k + 1))
      else t.(right := AddNode(t.right, pp))
    else
      if t.left.Leaf? then t.(left := NewNode(pp, t.k + 1))
      else t.(left := AddNode(t.left, pp))
  }

  /** A right subtree grown by a point beyond the split keeps the node in order. */
  lemma GrowRightOrdered(t: Tree, r: Tree, pp: Point)
    requires t.Node? && Ordered(t) && Ordered(r) && RightTop(t.data, t.k, pp.x, pp.y)
    requires Points(r) == Points(t.right) + multiset{pp}
    ensures Ordered(Node(t.data, t.k, t.left, r))
  {
    assert AllRight(t.data, t.k, Points(r));
  }

  /** A left subtree grown by a point not beyond the split keeps the node in order. */
  lemma GrowLeftOrdered(t: Tree, l: Tree, pp: Point)
    requires t.Node? && Ordered(t) && Ordered(l) && !RightTop(t.data, t.k, pp.x, pp.y)
    requires Points(l) == Points(t.left) + multiset{pp}
    ensures Ordered(Node(t.data, t.k, l, t.right))
  {
    assert AllLeft(t.data, t.k, Points(l));
  }

  /** Adding a point keeps the search-tree order. */
  lemma {:induction false} AddNodeOrdered(t: Tree, pp: Point)
    requires t.Node? && Ordered(t)
    ensures Ordered(AddNode(t, pp))
  {
    if RightTop(t.data, t.k, pp.x, pp.y) {
      if t.right.Node? {
        AddNodeOrdered(t.right, pp);
        GrowRightOrdered(t, AddNode(t.right, pp), pp);
      } else {
        GrowRightOrdered(t, NewNode(pp, t.k + 1), pp);
      }
    } else {
      if t.left.Node? {
        AddNodeOrdered(t.left, pp);
        GrowLeftOrdered(t, AddNode(t.left, pp), pp);
      } else {
        GrowLeftOrdered(t, NewNode(pp, t.k + 1), pp);
      }
    }
  }

  /** Adding a point keeps the splits alternating with the depth. */
  lemma {:induction false} AddNodeAlternates(t: Tree, pp: Point, n: nat)
    requires t.Node? && Alternates(t, n)
    ensures Alternates(AddNode(t, pp), n)
  {
    assert NewNode(pp, t.k + 1).k == (n + 1) % 2;
    if RightTop(t.data, t.k, pp.x, pp.y) {
      if t.right.Node? {
        AddNodeAlternates(t.right, pp, n + 1);
      }
    } else {
      if t.left.Node? {
        AddNodeAlternates(t.left, pp, n + 1);
      }
    }
  }

  /** The tree the constructor builds: the first point at the root, the rest added in order. */
  function FromPoints(points: seq<Point>): (t: Tree)
    requires |points| > 0
    ensures t.Node? && t.data == points[0] && t.k == 0
    ensures Points(t) == multiset(points)
  {
    if |points| == 1 then NewNode(points[0], 0)
    else
      assert points == points[..|points| - 1] + [points[|points| - 1]];
      AddNode(FromPoints(points[..|points| - 1]), points[|points| - 1])
  }

  /** The built tree is ordered and its splits alternate from x at the root. */
  lemma {:induction false} FromPointsValid(points: seq<Point>)
    requires |points| > 0
    ensures Ordered(FromPoints(points)) && Alternates(FromPoints(points), 0)
  {
    if |points| > 1 {
      var init := points[..|points| - 1];
      FromPointsValid(init);
      AddNodeOrdered(FromPoints(init), points[|points| - 1]);
      AddNodeAlternates(FromPoints(init), points[|points| - 1], 0);
    }
  }

  /** The subtree on the query's side of the split: right when `rightTop` holds. */
  function NearSide(t: Tree, x: real, y: real): (n: Tree)
    requires t.Node?
    ensures n == t.left || n == t.right
  {
    if RightTop(t.data, t.k, x, y) then t.right else t.left
  }

  /** The subtree on the other side of the split from the query. */
  function FarSide(t: Tree, x: real, y: real): (f: Tree)
    requires t.Node?
    ensures f == t.left || f == t.right
    ensures f != NearSide(t, x, y) || t.left == t.right
  {
    if RightTop(t.data, t.k, x, y) then t.left else t.right
  }

  /** No point of `ps` is closer to `(x, y)` than `m`. */
  ghost predicate Covers(m: real, ps: multiset<Point>, x: real, y: real)
  {
    forall p :: p in ps ==> m <= DistanceSquaredTo(p, x, y)
  }

  /** In an ordered tree no point of the far side is closer than the splitting line. */
  lemma FarSideBound(t: Tree, x: real, y: real)
    requires t.Node? && Ordered(t)
    ensures Covers(MinPossibleDis(t.data, t.k, x, y), Points(FarSide(t, x, y)), x, y)
  {
    forall p | p in Points(FarSide(t, x, y))
      ensures MinPossibleDis(t.data, t.k, x, y) <= DistanceSquaredTo(p, x, y)
    {
      MinPossibleDisBound(t.data, t.k, x, y, p);
    }
  }

  lemma CoversLess(m: real, n: real, ps: multiset<Point>, x: real, y: real)
    requires n <= m && Covers(m, ps, x, y)
    ensures Covers(n, ps, x, y)
  {
  }

  lemma CoversZero(ps: multiset<Point>, x: real, y: real)
    ensures Covers(0.0, ps, x, y)
  {
  }

  /** A bound that covers a node's point and both its subtrees covers the whole tree. */
  lemma CoversNode(t: Tree, m: real, x: real, y: real)
    requires t.Node? && m <= DistanceSquaredTo(t.data, x, y)
    requires Covers(m, Points(t.left), x, y) && Covers(m, Points(t.right), x, y)
    ensures Covers(m, Points(t), x, y)
  {
    forall p | p in Points(t)
      ensures m <= DistanceSquaredTo(p, x, y)
    {
      if p !in Points(t.left) && p !in Points(t.right) {
        assert p == t.data;
      }
    }
  }

  /** The best point found so far and its squared distance to the query. */
  datatype Candidate = Candidate(result: Point, minDis: real)

  /**
   * `findNearest`: improves the candidate with the node's point, stops at
   * distance 0, searches the query's side first and the other side only
   * while the candidate is farther than the splitting line.
   */
  function FindNearest(t: Tree, best: Point, minDis: real, x: real, y: real): (c: Candidate)
    ensures c.minDis <= minDis
    ensures c == Candidate(best, minDis) ||
      (c.result in Points(t) && c.minDis == DistanceSquaredTo(c.result, x, y))
  {
    if t.Leaf? then Candidate(best, minDis)
    else
      var dis := DistanceSquaredTo(t.data, x, y);
      var c0 := if dis < minDis then Candidate(t.data, dis) else Candidate(best, minDis);
      if dis < minDis && dis == 0.0 then c0
      else
        var c1 := FindNearest(NearSide(t, x, y), c0.result, c0.minDis, x, y);
        if c1.minDis != 0.0 && c1.minDis > MinPossibleDis(t.data, t.k, x, y) then
          FindNearest(FarSide(t, x, y), c1.result, c1.minDis, x, y)
        else c1
  }

  /**
   * In an ordered tree the search misses no closer point: no point of the
   * tree is nearer to the query than the candidate it returns.
   */
  lemma {:induction false} FindNearestMinimal(t: Tree, best: Point, minDis: real, x: real, y: real)
    requires Ordered(t)
    ensures Covers(FindNearest(t, best, minDis, x, y).minDis, Points(t), x, y)
  {
    if t.Node? {
      var c := FindNearest(t, best, minDis, x, y);
      var dis := DistanceSquaredTo(t.data, x, y);
      if dis < minDis && dis == 0.0 {
        CoversZero(Points(t), x, y);
      } else {
        var c0 := if dis < minDis then Candidate(t.data, dis) else Candidate(best, minDis);
        var near, far := NearSide(t, x, y), FarSide(t, x, y);
        var c1 := FindNearest(near, c0.result, c0.minDis, x, y);
        FindNearestMinimal(near, c0.result, c0.minDis, x, y);
        if c1.minDis != 0.0 && c1.minDis > MinPossibleDis(t.data, t.k, x, y) {
          assert c == FindNearest(far, c1.result, c1.minDis, x, y);
          FindNearestMinimal(far, c1.result, c1.minDis, x, y);
          CoversLess(c1.minDis, c.minDis, Points(near), x, y);
        } else {
          assert c == c1;
          FarSideBound(t, x, y);
          if c1.minDis == 0.0 {
            CoversZero(Points(far), x, y);
          } else {
            CoversLess(MinPossibleDis(t.data, t.k, x, y), c1.minDis, Points(far), x, y);
          }
        }
        assert (near == t.left && far == t.right) || (near == t.right && far == t.left);
        CoversNode(t, c.minDis, x, y);
      }
    }
  }

  /** `nearest` on a tree: the search starts with the root as the candidate. */
  function NearestOf(t: Tree, x: real, y: real): (p: Point)
    requires t.Node?
    ensures p in Points(t)
  {
    FindNearest(t, t.data, DistanceSquaredTo(t.data, x, y), x, y).result
  }

  /** In an ordered tree `nearest` answers a stored point of least squared distance. */
  lemma NearestIsNearest(t: Tree, x: real, y: real)
    requires t.Node? && Ordered(t)
    ensures forall p :: p in Points(t) ==>
      DistanceSquaredTo(NearestOf(t, x, y), x, y) <= DistanceSquaredTo(p, x, y)
  {
    FindNearestMinimal(t, t.data, DistanceSquaredTo(t.data, x, y), x, y);
  }

  /** The constructor's loop: the first point becomes the root, the others are added in order. */
  method Build(points: seq<Point>) returns (t: Tree)
    requires |points| > 0
    ensures t == FromPoints(points)
  {
    t := NewNode(points[0], 0);
    var i := 1;
    while i < |points|
      invariant 1 <= i <= |points|
      invariant t == FromPoints(points[..i])
    {
      ghost var next := points[..i + 1];
      assert next[..|next| - 1] == points[..i] && next[|next| - 1] == points[i];
      t := AddNode(t, points[i]);
      i := i + 1;
    }
    assert points[..i] == points;
  }

  class KDTreePointSet {
    var root: Tree
    /** The answer of the last `nearest`, `null` before the first. */
    var result: Option<Point>

    ghost predicate Valid()
      reads this
    {
      root.Node? && Ordered(root) && Alternates(root, 0)
    }

    /** Builds the tree of `points`; the source demands a non-empty list. */
    constructor (points: seq<Point>)
      requires |points| > 0
      ensures Valid() && root == FromPoints(points) && result == None
    {
      var t := Build(points);
      root := t;
      result := None;
      FromPointsValid(points);
    }

    /** `nearest`: records and answers a stored point closest to `(x, y)`. */
    method Nearest(x: real, y: real) returns (p: Point)
      requires Valid()
      modifies this
      ensures Valid() && root == old(root) && result == Some(p)
      ensures p == NearestOf(root, x, y) && p in Points(root)
      ensures forall q :: q in Points(root) ==> DistanceSquaredTo(p, x, y) <= DistanceSquaredTo(q, x, y)
    {
      NearestIsNearest(root, x, y);
      var minDis := DistanceSquaredTo(root.data, x, y);
      var c := FindNearest(root, root.data, minDis, x, y);
      result := Some(c.result);
      p := c.result;
    }
  }
}
