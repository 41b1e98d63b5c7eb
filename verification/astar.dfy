/**
 * A* search over a graph whose edges are produced on demand.  The solver
 * runs the whole search when it is built and keeps, for every vertex it has
 * seen, the best known distance from the start and the vertex it was reached
 * from; the fringe is an `ArrayHeapMinPQ` ordered by distance plus heuristic.
 * The stopwatch is replaced by a budget of loop iterations.
 */
module AStar {
  import opened Wrappers
  import opened MinPQ

  datatype SolverOutcome = SOLVED | TIMEOUT | UNSOLVABLE

  /** An edge of the graph, as the graph hands it out. */
  datatype WeightedEdge<V> = WeightedEdge(from: V, to: V, weight: real)

  /**
   * The graph the solver searches: the weighted edges leaving each vertex,
   * listed in the order the graph produces them, and the heuristic estimate
   * of the distance between two vertices.
   */
  datatype AStarGraph<!V> = AStarGraph(neighborsOf: V -> seq<WeightedEdge<V>>, heuristic: (V, V) -> real)
  {
    function Neighbors(v: V): seq<WeightedEdge<V>>
    {
      neighborsOf(v)
    }

    function EstimatedDistanceToGoal(s: V, goal: V): real
    {
      heuristic(s, goal)
    }
  }

  /** A* needs edge weights that are not negative. */
  ghost predicate NonNegativeWeights<V(!new)>(g: AStarGraph<V>)
  {
    forall v, i :: 0 <= i < |g.Neighbors(v)| ==> g.Neighbors(v)[i].weight >= 0.0
  }

  ghost predicate IsEdge<V(!new)>(g: AStarGraph<V>, u: V, v: V)
  {
    exists i :: 0 <= i < |g.Neighbors(u)| && g.Neighbors(u)[i].to == v
  }

  /** Each vertex of `p` is joined to the next by an edge of the graph. */
  ghost predicate IsPath<V(!new)>(g: AStarGraph<V>, p: seq<V>)
  {
    forall i :: 0 <= i < |p| - 1 ==> IsEdge(g, p[i], p[i + 1])
  }

  /** A path's prefixes are paths. */
  lemma PathPrefix<V(!new)>(g: AStarGraph<V>, p: seq<V>, k: nat)
    requires IsPath(g, p) && k <= |p|
    ensures IsPath(g, p[..k])
  {
    forall i | 0 <= i < k - 1
      ensures IsEdge(g, p[..k][i], p[..k][i + 1])
    {
      assert p[..k][i] == p[i] && p[..k][i + 1] == p[i + 1];
    }
  }

  /** The weight of the lightest edge of `es` that ends at `v`, if any edge of `es` does. */
  ghost function Cheapest<V>(es: seq<WeightedEdge<V>>, v: V): (r: Option<real>)
    ensures r.None? <==> forall i :: 0 <= i < |es| ==> es[i].to != v
    ensures r.Some? ==> exists i :: 0 <= i < |es| && es[i].to == v && es[i].weight == r.value
    ensures r.Some? ==> forall i :: 0 <= i < |es| && es[i].to == v ==> r.value <= es[i].weight
  {
    if es == [] then None
    else
      var rest := Cheapest(es[1..], v);
      assert forall i :: 0 < i < |es| ==> es[i] == es[1..][i - 1];
      if es[0].to != v || (rest.Some? && rest.value <= es[0].weight) then rest else Some(es[0].weight)
  }

  /** The weight of the lightest edge from `u` to `v`, or 0 when there is none. */
  ghost function EdgeCost<V(!new)>(g: AStarGraph<V>, u: V, v: V): real
  {
    match Cheapest(g.Neighbors(u), v)
    case None => 0.0
    case Some(w) => w
  }

  /**
   * When there is an edge from `u` to `v`, `EdgeCost` is the weight of one of
   * those edges and of no more than any of them; with non-negative weights
   * it is not negative.
   */
  lemma EdgeCostFacts<V(!new)>(g: AStarGraph<V>, u: V, v: V)
    ensures var c := EdgeCost(g, u, v);
      && (IsEdge(g, u, v) ==> exists i :: 0 <= i < |g.Neighbors(u)| && g.Neighbors(u)[i].to == v && g.Neighbors(u)[i].weight == c)
      && (forall i :: 0 <= i < |g.Neighbors(u)| && g.Neighbors(u)[i].to == v ==> c <= g.Neighbors(u)[i].weight)
      && (NonNegativeWeights(g) ==> c >= 0.0)
  {
    var es := g.Neighbors(u);
    if IsEdge(g, u, v) {
      var i :| 0 <= i < |es| && es[i].to == v;
      assert Cheapest(es, v).Some?;
    }
  }

  /** The weight of `p`: the sum, along it, of the lightest edge from each vertex to the next. */
  ghost function PathWeight<V(!new)>(g: AStarGraph<V>, p: seq<V>): real
    decreases |p|
  {
    if |p| <= 1 then 0.0 else PathWeight(g, p[..|p| - 1]) + EdgeCost(g, p[|p| - 2], p[|p| - 1])
  }

  /** With non-negative weights no prefix of a path weighs more than the path, and none weighs less than 0. */
  lemma {:induction false} PathWeightPrefix<V(!new)>(g: AStarGraph<V>, p: seq<V>, k: nat)
    requires NonNegativeWeights(g) && 1 <= k <= |p|
    ensures 0.0 <= PathWeight(g, p[..k]) <= PathWeight(g, p)
    decreases |p|, k
  {
    if k < |p| {
      var q := p[..|p| - 1];
      PathWeightPrefix(g, q, k);
      assert q[..k] == p[..k];
      PathWeightPrefix(g, q, |q|);
      assert q[..|q|] == q;
      EdgeCostFacts(g, p[|p| - 2], p[|p| - 1]);
    } else if |p| > 1 {
      assert p[..k] == p;
      PathWeightPrefix(g, p, k - 1);
      EdgeCostFacts(g, p[|p| - 2], p[|p| - 1]);
      assert p[..k - 1] == p[..|p| - 1];
    } else {
      assert p[..k] == p;
    }
  }

  /** The heuristic estimates 0 for every vertex, so that A* is Dijkstra's algorithm. */
  ghost predicate ZeroHeuristic<V(!new)>(g: AStarGraph<V>, end: V)
  {
    forall v :: g.EstimatedDistanceToGoal(v, end) == 0.0
  }

  /** No path from `start` to `v` weighs less than `d`. */
  ghost predicate NoShorterPath<V(!new)>(g: AStarGraph<V>, start: V, v: V, d: real)
  {
    forall p :: IsPath(g, p) && |p| > 0 && p[0] == start && p[|p| - 1] == v ==> d <= PathWeight(g, p)
  }

  /** Every edge leaving `v` ends at a vertex of `s`. */
  ghost predicate Expanded<V(!new)>(g: AStarGraph<V>, s: set<V>, v: V)
  {
    forall i :: 0 <= i < |g.Neighbors(v)| ==> g.Neighbors(v)[i].to in s
  }

  /** What the solver knows about a seen vertex: its best distance so far and its predecessor. */
  datatype VInfo<V> = VInfo(distTo: real, edgeTo: Option<V>)

  // ---------------------------------------------------------------------
  // Relaxation
  // ---------------------------------------------------------------------

  /** The relaxation rule: a path of length `weight` to `v` is recorded when `v` is unseen or the path is strictly shorter. */
  predicate Improves<V(!new)>(visited: map<V, VInfo<V>>, v: V, weight: real)
  {
    v !in visited || weight < visited[v].distTo
  }

  /** The records after relaxing a path of length `weight` to `v` that arrives from `from`. */
  function RelaxRecord<V(!new)>(visited: map<V, VInfo<V>>, v: V, weight: real, from: Option<V>): map<V, VInfo<V>>
  {
    if Improves(visited, v, weight) then visited[v := VInfo(weight, from)] else visited
  }

  /**
   * After relaxing, `v` is seen with a distance of at most `weight`; it holds
   * the new record exactly when the rule fires; a recorded distance never
   * increases; no other record changes.
   */
  lemma RelaxRecordFacts<V(!new)>(visited: map<V, VInfo<V>>, v: V, weight: real, from: Option<V>)
    ensures var r := RelaxRecord(visited, v, weight, from);
      && r.Keys == visited.Keys + {v}
      && r[v].distTo <= weight
      && (Improves(visited, v, weight) ==> r[v] == VInfo(weight, from))
      && (!Improves(visited, v, weight) ==> r == visited)
      && (forall x :: x in visited ==> r[x].distTo <= visited[x].distTo)
      && (forall x :: x in visited && x != v ==> r[x] == visited[x])
  {
  }

  /**
   * Why weights must not be negative: a vertex `s` already removed from the
   * fringe is still relinked when a negative edge from `a` back to `s` makes
   * it nearer. If `a` was reached from `s`, the two now point at each other,
   * and a walk back along `edgeTo` from `a` alternates between them forever.
   */
  lemma NegativeEdgeMakesCycle<V(!new)>(visited: map<V, VInfo<V>>, s: V, a: V, w: real)
    requires s != a && s in visited && a in visited && visited[a].edgeTo == Some(s)
    requires w < 0.0 && visited[a].distTo + w < visited[s].distTo
    ensures var r := RelaxRecord(visited, s, visited[a].distTo + w, Some(a));
      && r[s].edgeTo == Some(a) && r[a].edgeTo == Some(s)
      && r[r[a].edgeTo.value].edgeTo == Some(a)
  {
  }

  /**
   * The fringe after relaxing a path of length `weight` to `v` with priority
   * `p`: an unseen vertex joins it, a vertex still in it reached by a strictly
   * shorter path gets the new priority, and any other fringe stays as it was.
   */
  function RelaxFringe<V(!new)>(contents: map<V, real>, visited: map<V, VInfo<V>>, v: V, weight: real, p: real): map<V, real>
  {
    if v !in visited || (weight < visited[v].distTo && v in contents) then contents[v := p] else contents
  }

  /**
   * Relaxing adds only unseen vertices to the fringe, so a vertex already
   * removed is never re-inserted; a seen vertex still in the fringe gets the
   * new priority exactly when the path improves; no other entry changes.
   */
  lemma RelaxFringeFacts<V(!new)>(contents: map<V, real>, visited: map<V, VInfo<V>>, v: V, weight: real, p: real)
    ensures var r := RelaxFringe(contents, visited, v, weight, p);
      && (v !in visited ==> r.Keys == contents.Keys + {v} && r[v] == p)
      && (v in visited ==> r.Keys == contents.Keys)
      && (v in visited && v in contents && Improves(visited, v, weight) ==> r[v] == p)
      && (v in visited && v in contents && !Improves(visited, v, weight) ==> r[v] == contents[v])
      && (forall x :: x in contents && x != v ==> r[x] == contents[x])
  {
  }

  /** Gives `v` priority `p` if it is still in the fringe, and leaves the fringe alone otherwise. */
  method ChangeIfQueued<V(==,!new)>(fringe: ArrayHeapMinPQ<V>, v: V, p: real)
    requires fringe.Valid()
    modifies fringe
    ensures fringe.Valid()
    ensures v in old(fringe.Contents) ==> fringe.Contents == old(fringe.Contents)[v := p]
    ensures v !in old(fringe.Contents) ==> fringe.Contents == old(fringe.Contents)
  {
    var present := fringe.Contains(v);
    if present {
      var thrown := fringe.ChangePriority(v, p);
    }
  }

  /**
   * Relaxes a path of length `weight` to `v` whose heuristic is `h`: an
   * unseen vertex gets a record and joins the fringe with priority
   * `weight + h`; a seen vertex reached by a strictly shorter path gets the
   * new record, and its priority changes only if it is still in the fringe.
   */
  method Relax<V(==,!new)>(fringe: ArrayHeapMinPQ<V>, visited: map<V, VInfo<V>>, v: V, weight: real, from: Option<V>, h: real)
    returns (visited': map<V, VInfo<V>>)
    requires fringe.Valid() && (v !in visited ==> v !in fringe.Contents)
    modifies fringe
    ensures fringe.Valid()
    ensures visited' == RelaxRecord(visited, v, weight, from)
    ensures fringe.Contents == RelaxFringe(old(fringe.Contents), visited, v, weight, weight + h)
  {
    if v in visited {
      if weight < visited[v].distTo {
        visited' := visited[v := VInfo(weight, from)];
        ChangeIfQueued(fringe, v, weight + h);
      } else {
        visited' := visited;
      }
    } else {
      visited' := visited[v := VInfo(weight, from)];
      var thrown := fringe.Add(v, weight + h);
    }
  }

  /** The records and the fringe contents. */
  datatype Relaxed<V> = Relaxed(visited: map<V, VInfo<V>>, contents: map<V, real>)

  /**
   * The records and the fringe after relaxing, in order, the first `j` edges
   * leaving `cur`, whose record is `info`.
   */
  function RelaxEdges<V(!new)>(g: AStarGraph<V>, visited: map<V, VInfo<V>>, contents: map<V, real>, cur: V, info: VInfo<V>, end: V, j: nat): Relaxed<V>
    requires j <= |g.Neighbors(cur)|
  {
    if j == 0 then Relaxed(visited, contents)
    else
      var r := RelaxEdges(g, visited, contents, cur, info, end, j - 1);
      var e := g.Neighbors(cur)[j - 1];
      var w := info.distTo + e.weight;
      Relaxed(RelaxRecord(r.visited, e.to, w, Some(cur)), RelaxFringe(r.contents, r.visited, e.to, w, w + g.EstimatedDistanceToGoal(e.to, end)))
  }

  /** The fold over the first `j` edges relaxes edge `j - 1` after the fold over the first `j - 1`. */
  lemma RelaxEdgesUnfold<V(!new)>(g: AStarGraph<V>, visited: map<V, VInfo<V>>, contents: map<V, real>, cur: V, info: VInfo<V>, end: V,
                                  j: nat, e: WeightedEdge<V>, w: real)
    requires 0 < j <= |g.Neighbors(cur)| && e == g.Neighbors(cur)[j - 1] && w == info.distTo + e.weight
    ensures var r0 := RelaxEdges(g, visited, contents, cur, info, end, j - 1);
      var r := RelaxEdges(g, visited, contents, cur, info, end, j);
      && r.visited == RelaxRecord(r0.visited, e.to, w, Some(cur))
      && r.contents == RelaxFringe(r0.contents, r0.visited, e.to, w, w + g.EstimatedDistanceToGoal(e.to, end))
  {
  }

  /**
   * Relaxing the first `j` edges never drops a record, leaves every fringe
   * vertex seen, and makes the targets of those edges seen.
   */
  lemma {:induction false} RelaxEdgesKeys<V(!new)>(g: AStarGraph<V>, visited: map<V, VInfo<V>>, contents: map<V, real>, cur: V, info: VInfo<V>, end: V, j: nat)
    requires contents.Keys <= visited.Keys && j <= |g.Neighbors(cur)|
    ensures var r := RelaxEdges(g, visited, contents, cur, info, end, j);
      && r.contents.Keys <= r.visited.Keys
      && visited.Keys <= r.visited.Keys
      && (forall i :: 0 <= i < j ==> g.Neighbors(cur)[i].to in r.visited)
  {
    if j > 0 {
      RelaxEdgesKeys(g, visited, contents, cur, info, end, j - 1);
      var r0 := RelaxEdges(g, visited, contents, cur, info, end, j - 1);
      var e := g.Neighbors(cur)[j - 1];
      var w := info.distTo + e.weight;
      RelaxEdgesUnfold(g, visited, contents, cur, info, end, j, e, w);
      RelaxRecordFacts(r0.visited, e.to, w, Some(cur));
      RelaxFringeFacts(r0.contents, r0.visited, e.to, w, w + g.EstimatedDistanceToGoal(e.to, end));
    }
  }

  /**
   * A vertex that is seen but out of the fringe after relaxing the first `j`
   * edges was seen and out of it before: relaxing never removes a vertex
   * from the fringe.
   */
  lemma {:induction false} RelaxEdgesSettled<V(!new)>(g: AStarGraph<V>, visited: map<V, VInfo<V>>, contents: map<V, real>, cur: V, info: VInfo<V>, end: V, j: nat)
    requires contents.Keys <= visited.Keys && j <= |g.Neighbors(cur)|
    ensures var r := RelaxEdges(g, visited, contents, cur, info, end, j);
      forall v :: v in r.visited && v !in r.contents ==> v in visited && v !in contents
  {
    if j > 0 {
      RelaxEdgesSettled(g, visited, contents, cur, info, end, j - 1);
      var r0 := RelaxEdges(g, visited, contents, cur, info, end, j - 1);
      var e := g.Neighbors(cur)[j - 1];
      var w := info.distTo + e.weight;
      RelaxEdgesUnfold(g, visited, contents, cur, info, end, j, e, w);
      RelaxRecordFacts(r0.visited, e.to, w, Some(cur));
      RelaxFringeFacts(r0.contents, r0.visited, e.to, w, w + g.EstimatedDistanceToGoal(e.to, end));
    }
  }

  /** Before each relaxation the vertex relaxed, if unseen, is not in the fringe. */
  lemma RelaxEdgesSeen<V(!new)>(g: AStarGraph<V>, visited: map<V, VInfo<V>>, contents: map<V, real>, cur: V, info: VInfo<V>, end: V, j: nat,
                                visited': map<V, VInfo<V>>, contents': map<V, real>, v: V)
    requires contents.Keys <= visited.Keys && j <= |g.Neighbors(cur)|
    requires Relaxed(visited', contents') == RelaxEdges(g, visited, contents, cur, info, end, j)
    ensures v !in visited' ==> v !in contents'
  {
    RelaxEdgesKeys(g, visited, contents, cur, info, end, j);
  }

  /** The fold over `j + 1` edges is the fold over `j` edges followed by relaxing edge `j`. */
  lemma RelaxEdgesNext<V(!new)>(g: AStarGraph<V>, visited0: map<V, VInfo<V>>, contents0: map<V, real>, end: V, cur: V, info: VInfo<V>,
                                j: nat, e: WeightedEdge<V>, w: real,
                                visited: map<V, VInfo<V>>, contents: map<V, real>, visited': map<V, VInfo<V>>, contents': map<V, real>)
    requires j < |g.Neighbors(cur)| && e == g.Neighbors(cur)[j] && w == info.distTo + e.weight
    requires Relaxed(visited, contents) == RelaxEdges(g, visited0, contents0, cur, info, end, j)
    requires visited' == RelaxRecord(visited, e.to, w, Some(cur))
    requires contents' == RelaxFringe(contents, visited, e.to, w, w + g.EstimatedDistanceToGoal(e.to, end))
    ensures Relaxed(visited', contents') == RelaxEdges(g, visited0, contents0, cur, info, end, j + 1)
  {
  }

  /** Relaxes every edge leaving `cur`, in the order the graph lists them. */
  method RelaxNeighbors<V(==,!new)>(g: AStarGraph<V>, fringe: ArrayHeapMinPQ<V>, visited: map<V, VInfo<V>>, end: V, cur: V)
    returns (visited': map<V, VInfo<V>>)
    requires fringe.Valid() && fringe.Contents.Keys <= visited.Keys && cur in visited
    modifies fringe
    ensures fringe.Valid()
    ensures Relaxed(visited', fringe.Contents) == RelaxEdges(g, visited, old(fringe.Contents), cur, visited[cur], end, |g.Neighbors(cur)|)
  {
    var info := visited[cur];
    var edges := g.Neighbors(cur);
    ghost var contents0 := fringe.Contents;
    visited' := visited;
    var j := 0;
    while j < |edges|
      invariant 0 <= j <= |edges| && fringe.Valid()
      invariant Relaxed(visited', fringe.Contents) == RelaxEdges(g, visited, contents0, cur, info, end, j)
    {
      var e := edges[j];
      var w := info.distTo + e.weight;
      var h := g.EstimatedDistanceToGoal(e.to, end);
      RelaxEdgesSeen(g, visited, contents0, cur, info, end, j, visited', fringe.Contents, e.to);
      ghost var before, queued := visited', fringe.Contents;
      visited' := Relax(fringe, visited', e.to, w, Some(cur), h);
      assert fringe.Contents == RelaxFringe(queued, before, e.to, w, w + g.EstimatedDistanceToGoal(e.to, end));
      RelaxEdgesNext(g, visited, contents0, end, cur, info, j, e, w, before, queued, visited', fringe.Contents);
      j := j + 1;
    }
  }

  // ---------------------------------------------------------------------
  // Predecessor links
  // ---------------------------------------------------------------------

  /**
   * `u` comes strictly before `v`: a smaller distance, or the same distance
   * and an earlier last update.  Following `edgeTo` always moves to an earlier
   * vertex, so predecessor chains cannot cycle.
   */
  ghost predicate Before<V(!new)>(visited: map<V, VInfo<V>>, stamp: map<V, nat>, u: V, v: V)
  {
    u in visited && v in visited && u in stamp && v in stamp &&
    (visited[u].distTo < visited[v].distTo || (visited[u].distTo == visited[v].distTo && stamp[u] < stamp[v]))
  }

  /**
   * The predecessor of `v`, if any, is a seen vertex earlier than `v` and
   * joined to it by an edge, and the distance of `v` is at least that of the
   * predecessor plus the edge.
   */
  ghost predicate LinkOk<V(!new)>(g: AStarGraph<V>, visited: map<V, VInfo<V>>, stamp: map<V, nat>, start: V, v: V)
    requires v in visited
  {
    match visited[v].edgeTo
    case None => v == start
    case Some(u) =>
      u in visited && Before(visited, stamp, u, v) && IsEdge(g, u, v) &&
      visited[v].distTo >= visited[u].distTo + EdgeCost(g, u, v)
  }

  /**
   * The records form a tree rooted at `start`: the start has distance 0 and
   * no predecessor, every distance is non-negative, and every other record
   * links to an earlier seen vertex.  `stamp` is when each record was last
   * written, `clock` the next time.
   */
  ghost predicate Links<V(!new)>(g: AStarGraph<V>, visited: map<V, VInfo<V>>, stamp: map<V, nat>, clock: nat, start: V)
  {
    stamp.Keys == visited.Keys &&
    start in visited && visited[start] == VInfo(0.0, None) &&
    forall v :: v in visited ==> visited[v].distTo >= 0.0 && stamp[v] < clock && LinkOk(g, visited, stamp, start, v)
  }

  /** The stamps after a relaxation at time `clock`. */
  ghost function Restamp<V(!new)>(stamp: map<V, nat>, visited: map<V, VInfo<V>>, v: V, weight: real, clock: nat): map<V, nat>
  {
    if Improves(visited, v, weight) then stamp[v := clock] else stamp
  }

  /**
   * Relaxing edge `e`, the `i`-th out of the seen vertex `cur`, at time
   * `clock` keeps the records a tree rooted at `start` (`visited'` and
   * `stamp'` are the records and stamps afterwards), and leaves the record
   * of `cur` alone.
   */
  lemma RelaxKeepsLinks<V(!new)>(g: AStarGraph<V>, visited: map<V, VInfo<V>>, stamp: map<V, nat>, clock: nat, start: V, cur: V, i: int,
                                 e: WeightedEdge<V>, w: real, visited': map<V, VInfo<V>>, stamp': map<V, nat>, clock': nat)
    requires NonNegativeWeights(g)
    requires Links(g, visited, stamp, clock, start)
    requires cur in visited && 0 <= i < |g.Neighbors(cur)| && e == g.Neighbors(cur)[i] && w == visited[cur].distTo + e.weight
    requires visited' == RelaxRecord(visited, e.to, w, Some(cur))
    requires stamp' == Restamp(stamp, visited, e.to, w, clock) && clock' == clock + 1
    ensures Links(g, visited', stamp', clock', start)
    ensures cur in visited' && visited'[cur] == visited[cur]
  {
    assert e.weight >= 0.0;
    RelaxRecordFacts(visited, e.to, w, Some(cur));
    if Improves(visited, e.to, w) {
      assert e.to != start && e.to != cur;
      assert IsEdge(g, cur, e.to);
      EdgeCostFacts(g, cur, e.to);
      assert EdgeCost(g, cur, e.to) <= e.weight;
      forall x | x in visited'
        ensures visited'[x].distTo >= 0.0 && stamp'[x] < clock' && LinkOk(g, visited', stamp', start, x)
      {
        if x != e.to {
          assert LinkOk(g, visited, stamp, start, x);
          match visited[x].edgeTo {
            case None =>
            case Some(u) =>
              assert Before(visited, stamp, u, x);
          }
        }
      }
    }
  }

  /**
   * `path` leads from `start` to `end` along edges of the graph, every vertex
   * on it is seen, and each vertex is the recorded predecessor of the next.
   */
  ghost predicate PredecessorPath<V(!new)>(g: AStarGraph<V>, visited: map<V, VInfo<V>>, start: V, end: V, path: seq<V>)
  {
    |path| >= 1 && path[0] == start && path[|path| - 1] == end && IsPath(g, path) &&
    (forall i :: 0 <= i < |path| ==> path[i] in visited) &&
    (forall i :: 0 <= i < |path| - 1 ==> visited[path[i + 1]].edgeTo == Some(path[i]))
  }

  /** A predecessor path weighs no more than the distance recorded for its last vertex. */
  lemma {:induction false} PredecessorPathWeight<V(!new)>(g: AStarGraph<V>, visited: map<V, VInfo<V>>, stamp: map<V, nat>, clock: nat,
                                                          start: V, end: V, path: seq<V>)
    requires Links(g, visited, stamp, clock, start) && PredecessorPath(g, visited, start, end, path)
    ensures PathWeight(g, path) <= visited[end].distTo
    decreases |path|
  {
    var n := |path|;
    if n > 1 {
      var prev := path[n - 2];
      var q := path[..n - 1];
      PathPrefix(g, path, n - 1);
      assert PredecessorPath(g, visited, start, prev, q) by {
        assert forall i :: 0 <= i < n - 1 ==> q[i] == path[i];
      }
      PredecessorPathWeight(g, visited, stamp, clock, start, prev, q);
      assert visited[end].edgeTo == Some(prev);
      assert LinkOk(g, visited, stamp, start, end);
    }
  }

  /**
   * Partway through walking back from `end`: `path` leads from `cur` to
   * `end`, and `cur` comes before every other vertex walked so far.
   */
  ghost predicate WalkingBack<V(!new)>(g: AStarGraph<V>, visited: map<V, VInfo<V>>, stamp: map<V, nat>, end: V,
                                       cur: V, path: seq<V>, walked: set<V>)
  {
    cur in visited && PredecessorPath(g, visited, cur, end, path) &&
    walked <= visited.Keys && cur in walked &&
    forall x :: x in walked && x != cur ==> Before(visited, stamp, cur, x)
  }

  /** A predecessor path from `cur` extends to one from the predecessor of `cur`. */
  lemma PrependPredecessor<V(!new)>(g: AStarGraph<V>, visited: map<V, VInfo<V>>, end: V, cur: V, prev: V, path: seq<V>)
    requires PredecessorPath(g, visited, cur, end, path)
    requires prev in visited && cur in visited && visited[cur].edgeTo == Some(prev) && IsEdge(g, prev, cur)
    ensures PredecessorPath(g, visited, prev, end, [prev] + path)
  {
    var path' := [prev] + path;
    forall i | 0 <= i < |path'| - 1
      ensures IsEdge(g, path'[i], path'[i + 1])
    {
      if i > 0 {
        assert path'[i] == path[i - 1] && path'[i + 1] == path[i];
      }
    }
  }

  /**
   * One step back along a predecessor link, to `prev`, which is earlier than
   * `cur` and joined to it by an edge, reaches a vertex not walked yet and
   * keeps the walk going.
   */
  lemma WalkBackStep<V(!new)>(g: AStarGraph<V>, visited: map<V, VInfo<V>>, stamp: map<V, nat>, end: V,
                              cur: V, prev: V, path: seq<V>, walked: set<V>)
    requires WalkingBack(g, visited, stamp, end, cur, path, walked) && visited[cur].edgeTo == Some(prev)
    requires prev in visited && Before(visited, stamp, prev, cur) && IsEdge(g, prev, cur)
    ensures |visited.Keys - (walked + {prev})| < |visited.Keys - walked|
    ensures WalkingBack(g, visited, stamp, end, prev, [prev] + path, walked + {prev})
  {
    assert prev !in walked;
    assert visited.Keys - (walked + {prev}) < visited.Keys - walked;
    PrependPredecessor(g, visited, end, cur, prev, path);
  }

  /**
   * The path back from `end` along the recorded predecessors: the start,
   * then each vertex's successor, up to `end`.
   */
  method WalkBack<V(!new)>(ghost g: AStarGraph<V>, visited: map<V, VInfo<V>>, ghost stamp: map<V, nat>, ghost clock: nat,
                           ghost start: V, end: V) returns (path: seq<V>)
    requires Links(g, visited, stamp, clock, start) && end in visited
    ensures PredecessorPath(g, visited, start, end, path)
  {
    var cur := end;
    path := [end];
    ghost var walked := {end};
    while visited[cur].edgeTo.Some?
      invariant WalkingBack(g, visited, stamp, end, cur, path, walked)
      decreases |visited.Keys - walked|
    {
      var prev := visited[cur].edgeTo.value;
      assert LinkOk(g, visited, stamp, start, cur);
      WalkBackStep(g, visited, stamp, end, cur, prev, path, walked);
      path := [prev] + path;
      walked := walked + {prev};
      cur := prev;
    }
    assert LinkOk(g, visited, stamp, start, cur);
  }

  // ---------------------------------------------------------------------
  // Search invariants
  // ---------------------------------------------------------------------

  /**
   * The search between two removals: the records form a tree rooted at
   * `start`, every fringe vertex has a record, every vertex already taken
   * from the fringe has had all its edges relaxed, and the goal has not been
   * taken from the fringe.
   */
  ghost predicate Searching<V(!new)>(g: AStarGraph<V>, visited: map<V, VInfo<V>>, stamp: map<V, nat>, clock: nat, frontier: set<V>,
                                     start: V, end: V)
  {
    Links(g, visited, stamp, clock, start) &&
    frontier <= visited.Keys &&
    (forall v :: v in visited && v !in frontier ==> Expanded(g, visited.Keys, v)) &&
    (end in visited ==> end in frontier)
  }

  /**
   * Relaxing the first `j` edges of `cur` one by one keeps the records a tree
   * rooted at `start` and leaves the record of `cur` alone; `stamp'` are the
   * stamps written along the way.
   */
  lemma {:induction false} RelaxEdgesLinks<V(!new)>(g: AStarGraph<V>, visited: map<V, VInfo<V>>, contents: map<V, real>, stamp: map<V, nat>, clock: nat,
                                                    start: V, end: V, cur: V, j: nat)
    returns (stamp': map<V, nat>)
    requires NonNegativeWeights(g) && Links(g, visited, stamp, clock, start) && cur in visited && j <= |g.Neighbors(cur)|
    ensures var r := RelaxEdges(g, visited, contents, cur, visited[cur], end, j);
      Links(g, r.visited, stamp', clock + j, start) && cur in r.visited && r.visited[cur] == visited[cur]
  {
    if j == 0 {
      stamp' := stamp;
      assert RelaxEdges(g, visited, contents, cur, visited[cur], end, 0).visited == visited;
    } else {
      var stamp0 := RelaxEdgesLinks(g, visited, contents, stamp, clock, start, end, cur, j - 1);
      var r0 := RelaxEdges(g, visited, contents, cur, visited[cur], end, j - 1);
      var r := RelaxEdges(g, visited, contents, cur, visited[cur], end, j);
      var e := g.Neighbors(cur)[j - 1];
      var w := visited[cur].distTo + e.weight;
      RelaxEdgesUnfold(g, visited, contents, cur, visited[cur], end, j, e, w);
      stamp' := Restamp(stamp0, r0.visited, e.to, w, clock + (j - 1));
      assert cur in r0.visited && r0.visited[cur] == visited[cur];
      assert Links(g, r0.visited, stamp0, clock + (j - 1), start);
      assert r.visited == RelaxRecord(r0.visited, e.to, w, Some(cur));
      assert w == r0.visited[cur].distTo + e.weight;
      RelaxKeepsLinks(g, r0.visited, stamp0, clock + (j - 1), start, cur, j - 1, e, w, r.visited, stamp', clock + j);
    }
  }

  lemma ExpandedGrows<V(!new)>(g: AStarGraph<V>, s: set<V>, t: set<V>, v: V)
    requires s <= t && Expanded(g, s, v)
    ensures Expanded(g, t, v)
  {
  }

  /**
   * Taking `cur` from the fringe, which leaves `contents`, and relaxing all
   * its edges keeps the search invariant; `stamp'` are the new stamps.
   */
  lemma ExpandKeepsSearching<V(!new)>(g: AStarGraph<V>, visited: map<V, VInfo<V>>, stamp: map<V, nat>, clock: nat, frontier: set<V>,
                                      contents: map<V, real>, start: V, end: V, cur: V)
    returns (stamp': map<V, nat>)
    requires NonNegativeWeights(g) && Searching(g, visited, stamp, clock, frontier, start, end)
    requires cur in frontier && cur != end && contents.Keys == frontier - {cur}
    ensures var r := RelaxEdges(g, visited, contents, cur, visited[cur], end, |g.Neighbors(cur)|);
      Searching(g, r.visited, stamp', clock + |g.Neighbors(cur)|, r.contents.Keys, start, end)
  {
    var n := |g.Neighbors(cur)|;
    stamp' := RelaxEdgesLinks(g, visited, contents, stamp, clock, start, end, cur, n);
    RelaxEdgesKeys(g, visited, contents, cur, visited[cur], end, n);
    RelaxEdgesSettled(g, visited, contents, cur, visited[cur], end, n);
    var r := RelaxEdges(g, visited, contents, cur, visited[cur], end, n);
    forall v | v in r.visited && v !in r.contents
      ensures Expanded(g, r.visited.Keys, v)
    {
      if v != cur {
        ExpandedGrows(g, visited.Keys, r.visited.Keys, v);
      }
    }
  }

  // ---------------------------------------------------------------------
  // Distances
  // ---------------------------------------------------------------------

  /** Every fringe vertex is seen, and its priority is its distance plus its heuristic. */
  ghost predicate Prioritised<V(!new)>(g: AStarGraph<V>, visited: map<V, VInfo<V>>, contents: map<V, real>, end: V)
  {
    forall v :: v in contents ==> v in visited && contents[v] == visited[v].distTo + g.EstimatedDistanceToGoal(v, end)
  }

  /** Relaxing the first `j` edges of `cur` keeps every fringe priority the distance plus the heuristic. */
  lemma {:induction false} RelaxEdgesPriorities<V(!new)>(g: AStarGraph<V>, visited: map<V, VInfo<V>>, contents: map<V, real>, cur: V, info: VInfo<V>,
                                                         end: V, j: nat)
    requires Prioritised(g, visited, contents, end) && j <= |g.Neighbors(cur)|
    ensures var r := RelaxEdges(g, visited, contents, cur, info, end, j);
      Prioritised(g, r.visited, r.contents, end)
  {
    if j > 0 {
      RelaxEdgesPriorities(g, visited, contents, cur, info, end, j - 1);
      var r0 := RelaxEdges(g, visited, contents, cur, info, end, j - 1);
      var e := g.Neighbors(cur)[j - 1];
      var w := info.distTo + e.weight;
      RelaxEdgesUnfold(g, visited, contents, cur, info, end, j, e, w);
      RelaxRecordFacts(r0.visited, e.to, w, Some(cur));
      RelaxFringeFacts(r0.contents, r0.visited, e.to, w, w + g.EstimatedDistanceToGoal(e.to, end));
    }
  }

  /**
   * Relaxing the first `j` edges of `cur`, whose distance is that of `info`,
   * never raises a recorded distance and leaves the target of each of those
   * edges no farther than `cur` plus the edge.
   */
  lemma {:induction false} RelaxEdgesBounds<V(!new)>(g: AStarGraph<V>, visited: map<V, VInfo<V>>, contents: map<V, real>, cur: V, info: VInfo<V>,
                                                     end: V, j: nat)
    requires j <= |g.Neighbors(cur)|
    ensures var r := RelaxEdges(g, visited, contents, cur, info, end, j);
      && (forall x :: x in visited ==> x in r.visited && r.visited[x].distTo <= visited[x].distTo)
      && forall i :: 0 <= i < j ==>
           g.Neighbors(cur)[i].to in r.visited && r.visited[g.Neighbors(cur)[i].to].distTo <= info.distTo + g.Neighbors(cur)[i].weight
  {
    if j > 0 {
      RelaxEdgesBounds(g, visited, contents, cur, info, end, j - 1);
      var r0 := RelaxEdges(g, visited, contents, cur, info, end, j - 1);
      var e := g.Neighbors(cur)[j - 1];
      var w := info.distTo + e.weight;
      RelaxEdgesUnfold(g, visited, contents, cur, info, end, j, e, w);
      var v' := RelaxRecord(r0.visited, e.to, w, Some(cur));
      RelaxRecordFacts(r0.visited, e.to, w, Some(cur));
      forall i | 0 <= i < j
        ensures g.Neighbors(cur)[i].to in v' && v'[g.Neighbors(cur)[i].to].distTo <= info.distTo + g.Neighbors(cur)[i].weight
      {
        if i < j - 1 {
          var t := g.Neighbors(cur)[i].to;
          assert t in r0.visited && r0.visited[t].distTo <= info.distTo + g.Neighbors(cur)[i].weight;
        }
      }
    }
  }

  /**
   * Relaxing the first `j` edges of `cur` leaves alone every record of `t`
   * whose distance is at most that of `cur`: the edges have non-negative
   * weights, so no path through `cur` improves it.
   */
  lemma {:induction false} RelaxEdgesKeepsNearer<V(!new)>(g: AStarGraph<V>, visited: map<V, VInfo<V>>, contents: map<V, real>, cur: V, info: VInfo<V>,
                                                          end: V, j: nat, t: set<V>)
    requires NonNegativeWeights(g) && j <= |g.Neighbors(cur)|
    requires forall x :: x in t ==> x in visited && visited[x].distTo <= info.distTo
    ensures var r := RelaxEdges(g, visited, contents, cur, info, end, j);
      forall x :: x in t ==> x in r.visited && r.visited[x] == visited[x]
  {
    if j > 0 {
      RelaxEdgesKeepsNearer(g, visited, contents, cur, info, end, j - 1, t);
      var r0 := RelaxEdges(g, visited, contents, cur, info, end, j - 1);
      var e := g.Neighbors(cur)[j - 1];
      var w := info.distTo + e.weight;
      assert e.weight >= 0.0;
      RelaxEdgesUnfold(g, visited, contents, cur, info, end, j, e, w);
      RelaxRecordFacts(r0.visited, e.to, w, Some(cur));
    }
  }

  /**
   * Relaxing the first `j` edges of `cur` keeps every fringe vertex at least
   * as far as `cur` when it was so before.
   */
  lemma {:induction false} RelaxEdgesFringeFarther<V(!new)>(g: AStarGraph<V>, visited: map<V, VInfo<V>>, contents: map<V, real>, cur: V, info: VInfo<V>,
                                                            end: V, j: nat)
    requires NonNegativeWeights(g) && j <= |g.Neighbors(cur)|
    requires forall x :: x in contents ==> x in visited && visited[x].distTo >= info.distTo
    ensures var r := RelaxEdges(g, visited, contents, cur, info, end, j);
      forall x :: x in r.contents ==> x in r.visited && r.visited[x].distTo >= info.distTo
  {
    if j > 0 {
      RelaxEdgesFringeFarther(g, visited, contents, cur, info, end, j - 1);
      var r0 := RelaxEdges(g, visited, contents, cur, info, end, j - 1);
      var e := g.Neighbors(cur)[j - 1];
      var w := info.distTo + e.weight;
      assert e.weight >= 0.0;
      RelaxEdgesUnfold(g, visited, contents, cur, info, end, j, e, w);
      RelaxRecordFacts(r0.visited, e.to, w, Some(cur));
      RelaxFringeFacts(r0.contents, r0.visited, e.to, w, w + g.EstimatedDistanceToGoal(e.to, end));
    }
  }

  /** Every settled vertex, seen and no longer in the fringe, is at the distance of a shortest path from `start`. */
  ghost predicate SettledShortest<V(!new)>(g: AStarGraph<V>, visited: map<V, VInfo<V>>, frontier: set<V>, start: V)
  {
    forall s :: s in visited && s !in frontier ==> NoShorterPath(g, start, s, visited[s].distTo)
  }

  /** Every edge leaving a settled vertex has been relaxed: its target is seen and no farther than the vertex plus the edge. */
  ghost predicate SettledRelaxed<V(!new)>(g: AStarGraph<V>, visited: map<V, VInfo<V>>, frontier: set<V>)
  {
    forall s, i :: s in visited && s !in frontier && 0 <= i < |g.Neighbors(s)| ==>
      g.Neighbors(s)[i].to in visited && visited[g.Neighbors(s)[i].to].distTo <= visited[s].distTo + g.Neighbors(s)[i].weight
  }

  /** No settled vertex is farther than a fringe vertex. */
  ghost predicate SettledNearer<V(!new)>(visited: map<V, VInfo<V>>, frontier: set<V>)
  {
    forall s, f :: s in visited && s !in frontier && f in visited && f in frontier ==> visited[s].distTo <= visited[f].distTo
  }

  /** Dijkstra's invariant over the settled vertices. */
  ghost predicate Settled<V(!new)>(g: AStarGraph<V>, visited: map<V, VInfo<V>>, frontier: set<V>, start: V)
  {
    SettledShortest(g, visited, frontier, start) && SettledRelaxed(g, visited, frontier) && SettledNearer(visited, frontier)
  }

  /**
   * Settling `cur` at the distance of a shortest path, while every settled
   * record stays as it was, keeps every settled distance a shortest one.
   */
  lemma SettleShortest<V(!new)>(g: AStarGraph<V>, visited: map<V, VInfo<V>>, frontier: set<V>, visited': map<V, VInfo<V>>, frontier': set<V>,
                                start: V, cur: V)
    requires SettledShortest(g, visited, frontier, start) && cur in visited && NoShorterPath(g, start, cur, visited[cur].distTo)
    requires forall s :: s in visited' && s !in frontier' ==> s in visited && (s !in frontier || s == cur) && visited'[s] == visited[s]
    ensures SettledShortest(g, visited', frontier', start)
  {
  }

  /**
   * Settling `cur` after relaxing its edges, when no distance rises and every
   * settled record stays as it was, keeps every settled vertex's edges relaxed.
   */
  lemma SettleRelaxed<V(!new)>(g: AStarGraph<V>, visited: map<V, VInfo<V>>, frontier: set<V>, visited': map<V, VInfo<V>>, frontier': set<V>, cur: V)
    requires SettledRelaxed(g, visited, frontier) && cur in visited
    requires forall s :: s in visited' && s !in frontier' ==> s in visited && (s !in frontier || s == cur) && visited'[s] == visited[s]
    requires forall x :: x in visited ==> x in visited' && visited'[x].distTo <= visited[x].distTo
    requires forall i :: 0 <= i < |g.Neighbors(cur)| ==>
      g.Neighbors(cur)[i].to in visited' && visited'[g.Neighbors(cur)[i].to].distTo <= visited[cur].distTo + g.Neighbors(cur)[i].weight
    ensures SettledRelaxed(g, visited', frontier')
  {
    forall s, i | s in visited' && s !in frontier' && 0 <= i < |g.Neighbors(s)|
      ensures g.Neighbors(s)[i].to in visited' && visited'[g.Neighbors(s)[i].to].distTo <= visited'[s].distTo + g.Neighbors(s)[i].weight
    {
      if s != cur {
        assert g.Neighbors(s)[i].to in visited;
      }
    }
  }

  /**
   * Settling the fringe vertex `cur`, when every settled record stays as it
   * was and the fringe afterwards is no nearer than `cur`, keeps every
   * settled vertex no farther than a fringe vertex.
   */
  lemma SettleNearer<V(!new)>(visited: map<V, VInfo<V>>, frontier: set<V>, visited': map<V, VInfo<V>>, frontier': set<V>, cur: V)
    requires SettledNearer(visited, frontier) && cur in visited && cur in frontier
    requires forall s :: s in visited' && s !in frontier' ==> s in visited && (s !in frontier || s == cur) && visited'[s] == visited[s]
    requires forall f :: f in frontier' ==> f in visited' && visited'[f].distTo >= visited[cur].distTo
    ensures SettledNearer(visited', frontier')
  {
  }

  /**
   * A path from `start` to a vertex that is not settled leaves the settled
   * vertices at a fringe vertex `x`, whose distance is at most the weight of
   * the path.
   */
  lemma {:induction false} PathMeetsFringe<V(!new)>(g: AStarGraph<V>, visited: map<V, VInfo<V>>, stamp: map<V, nat>, clock: nat,
                                                    contents: map<V, real>, start: V, end: V, p: seq<V>)
    returns (x: V)
    requires NonNegativeWeights(g) && Links(g, visited, stamp, clock, start)
    requires Prioritised(g, visited, contents, end) && Settled(g, visited, contents.Keys, start)
    requires IsPath(g, p) && |p| > 0 && p[0] == start && (p[|p| - 1] !in visited || p[|p| - 1] in contents)
    ensures x in contents && x in visited && visited[x].distTo <= PathWeight(g, p)
    decreases |p|
  {
    var n := |p|;
    if n == 1 {
      x := start;
    } else {
      var q := p[..n - 1];
      var y, z := p[n - 2], p[n - 1];
      PathPrefix(g, p, n - 1);
      assert q[0] == start && q[|q| - 1] == y;
      var c := EdgeCost(g, y, z);
      EdgeCostFacts(g, y, z);
      assert PathWeight(g, p) == PathWeight(g, q) + c;
      if y !in visited || y in contents {
        x := PathMeetsFringe(g, visited, stamp, clock, contents, start, end, q);
        assert c >= 0.0;
      } else {
        assert IsEdge(g, y, z);
        var i :| 0 <= i < |g.Neighbors(y)| && g.Neighbors(y)[i].to == z && g.Neighbors(y)[i].weight == c;
        assert visited[y].distTo <= PathWeight(g, q) by {
          assert NoShorterPath(g, start, y, visited[y].distTo);
        }
        assert z in visited && visited[z].distTo <= visited[y].distTo + c;
        x := z;
      }
    }
  }

  /**
   * With a zero heuristic, the fringe vertex `cur` of least priority is at
   * the distance of a shortest path from `start`.
   */
  lemma SmallestIsShortest<V(!new)>(g: AStarGraph<V>, visited: map<V, VInfo<V>>, stamp: map<V, nat>, clock: nat,
                                    contents: map<V, real>, start: V, end: V, cur: V)
    requires NonNegativeWeights(g) && ZeroHeuristic(g, end) && Links(g, visited, stamp, clock, start)
    requires Prioritised(g, visited, contents, end) && Settled(g, visited, contents.Keys, start)
    requires cur in contents && forall v :: v in contents ==> contents[cur] <= contents[v]
    ensures cur in visited && NoShorterPath(g, start, cur, visited[cur].distTo)
  {
    forall p | IsPath(g, p) && |p| > 0 && p[0] == start && p[|p| - 1] == cur
      ensures visited[cur].distTo <= PathWeight(g, p)
    {
      var x := PathMeetsFringe(g, visited, stamp, clock, contents, start, end, p);
      assert contents[cur] <= contents[x];
    }
  }

  /**
   * With a zero heuristic, taking the fringe vertex `cur` of least priority
   * out of `contents0`, which leaves `contents`, and relaxing all its edges
   * keeps Dijkstra's invariant.
   */
  lemma ExpandKeepsSettled<V(!new)>(g: AStarGraph<V>, visited: map<V, VInfo<V>>, stamp: map<V, nat>, clock: nat,
                                    contents0: map<V, real>, contents: map<V, real>, start: V, end: V, cur: V)
    requires NonNegativeWeights(g) && ZeroHeuristic(g, end) && Links(g, visited, stamp, clock, start)
    requires Prioritised(g, visited, contents0, end) && Settled(g, visited, contents0.Keys, start)
    requires cur in contents0 && (forall v :: v in contents0 ==> contents0[cur] <= contents0[v]) && contents == contents0 - {cur}
    ensures var r := RelaxEdges(g, visited, contents, cur, visited[cur], end, |g.Neighbors(cur)|);
      Settled(g, r.visited, r.contents.Keys, start)
  {
    var n := |g.Neighbors(cur)|;
    var info := visited[cur];
    var r := RelaxEdges(g, visited, contents, cur, info, end, n);
    SmallestIsShortest(g, visited, stamp, clock, contents0, start, end, cur);
    var t := set x | x in visited && x !in contents;
    assert forall x :: x in t ==> visited[x].distTo <= info.distTo by {
      forall x | x in t
        ensures visited[x].distTo <= info.distTo
      {
        if x != cur {
          assert x !in contents0.Keys;
        }
      }
    }
    RelaxEdgesKeepsNearer(g, visited, contents, cur, info, end, n, t);
    RelaxEdgesSettled(g, visited, contents, cur, info, end, n);
    assert forall s :: s in r.visited && s !in r.contents.Keys ==> s in visited && (s !in contents0.Keys || s == cur) && r.visited[s] == visited[s] by {
      forall s | s in r.visited && s !in r.contents.Keys
        ensures s in visited && (s !in contents0.Keys || s == cur) && r.visited[s] == visited[s]
      {
        assert s in t;
      }
    }
    SettleShortest(g, visited, contents0.Keys, r.visited, r.contents.Keys, start, cur);
    RelaxEdgesBounds(g, visited, contents, cur, info, end, n);
    SettleRelaxed(g, visited, contents0.Keys, r.visited, r.contents.Keys, cur);
    assert forall x :: x in contents ==> x in visited && visited[x].distTo >= info.distTo by {
      forall x | x in contents
        ensures x in visited && visited[x].distTo >= info.distTo
      {
        assert contents0[cur] <= contents0[x];
      }
    }
    RelaxEdgesFringeFarther(g, visited, contents, cur, info, end, n);
    SettleNearer(visited, contents0.Keys, r.visited, r.contents.Keys, cur);
  }

  /**
   * One pass of the search loop that does not reach the goal: taking the
   * smallest vertex from the fringe and relaxing its edges keeps the records
   * a search state, the fringe priorities distance plus heuristic, and, under
   * a zero heuristic, every settled distance a shortest one.
   */
  lemma ExpandStep<V(!new)>(g: AStarGraph<V>, visited: map<V, VInfo<V>>, stamp: map<V, nat>, clock: nat,
                            contents0: map<V, real>, contents: map<V, real>, visited': map<V, VInfo<V>>, contents': map<V, real>,
                            start: V, end: V, cur: V)
    returns (stamp': map<V, nat>)
    requires NonNegativeWeights(g) && Searching(g, visited, stamp, clock, contents0.Keys, start, end)
    requires Prioritised(g, visited, contents0, end) && (ZeroHeuristic(g, end) ==> Settled(g, visited, contents0.Keys, start))
    requires cur in contents0 && cur != end && (forall v :: v in contents0 ==> contents0[cur] <= contents0[v])
    requires contents == contents0 - {cur}
    requires Relaxed(visited', contents') == RelaxEdges(g, visited, contents, cur, visited[cur], end, |g.Neighbors(cur)|)
    ensures Searching(g, visited', stamp', clock + |g.Neighbors(cur)|, contents'.Keys, start, end)
    ensures Prioritised(g, visited', contents', end)
    ensures ZeroHeuristic(g, end) ==> Settled(g, visited', contents'.Keys, start)
  {
    if ZeroHeuristic(g, end) {
      ExpandKeepsSettled(g, visited, stamp, clock, contents0, contents, start, end, cur);
    }
    RelaxEdgesPriorities(g, visited, contents, cur, visited[cur], end, |g.Neighbors(cur)|);
    stamp' := ExpandKeepsSearching(g, visited, stamp, clock, contents0.Keys, contents, start, end, cur);
  }

  // ---------------------------------------------------------------------
  // Unreachability
  // ---------------------------------------------------------------------

  lemma {:induction false} PathStaysInside<V(!new)>(g: AStarGraph<V>, s: set<V>, p: seq<V>, k: int)
    requires IsPath(g, p) && 0 <= k < |p| && p[0] in s
    requires forall v :: v in s ==> Expanded(g, s, v)
    ensures p[k] in s
    decreases k
  {
    if k > 0 {
      PathStaysInside(g, s, p, k - 1);
      assert IsEdge(g, p[k - 1], p[k]);
      assert Expanded(g, s, p[k - 1]);
    }
  }

  /** A set holding `start` but not `end` whose every edge stays inside it shows that no path leads from `start` to `end`. */
  lemma ClosedSetBlocksPaths<V(!new)>(g: AStarGraph<V>, s: set<V>, start: V, end: V)
    requires start in s && end !in s
    requires forall v :: v in s ==> Expanded(g, s, v)
    ensures forall p :: IsPath(g, p) && |p| > 0 && p[0] == start ==> p[|p| - 1] != end
  {
    forall p | IsPath(g, p) && |p| > 0 && p[0] == start
      ensures p[|p| - 1] != end
    {
      PathStaysInside(g, s, p, |p| - 1);
    }
  }

  // ---------------------------------------------------------------------
  // The solver
  // ---------------------------------------------------------------------

  /**
   * What a finished search guarantees.  `removals` counts the vertices taken
   * from the fringe and `frontier` is the set of vertices left in it.
   */
  ghost predicate SolverOk<V(!new)>(g: AStarGraph<V>, start: V, end: V, budget: nat,
                                    outcome: SolverOutcome, solutionWeight: real, solution: seq<V>, numState: int, removals: nat,
                                    visited: map<V, VInfo<V>>, frontier: set<V>)
  {
    start in visited && frontier <= visited.Keys && removals <= budget &&
    numState == (if outcome == SOLVED then removals - 1 else removals) &&
    (outcome == SOLVED ==>
       removals >= 1 &&
       end in visited && visited[end].distTo >= 0.0 && solutionWeight == visited[end].distTo &&
       PredecessorPath(g, visited, start, end, solution) && PathWeight(g, solution) <= solutionWeight &&
       (ZeroHeuristic(g, end) ==> NoShorterPath(g, start, end, solutionWeight) && PathWeight(g, solution) == solutionWeight)) &&
    (outcome != SOLVED ==> solution == [] && solutionWeight == 0.0 && (end in visited ==> end in frontier)) &&
    (outcome == UNSOLVABLE ==> frontier == {} && forall v :: v in visited ==> Expanded(g, visited.Keys, v)) &&
    (outcome == TIMEOUT ==> frontier != {} && removals == budget)
  }

  /**
   * How the search ends.  `frontier0` is the fringe before the last removal
   * when the goal was taken from it, and the final fringe otherwise.
   */
  lemma SearchOk<V(!new)>(g: AStarGraph<V>, start: V, end: V, budget: nat, outcome: SolverOutcome, solutionWeight: real,
                          solution: seq<V>, numState: int, removals: nat, visited: map<V, VInfo<V>>, stamp: map<V, nat>, clock: nat,
                          frontier0: set<V>, frontier: set<V>)
    requires Searching(g, visited, stamp, clock, frontier0, start, end) && removals <= budget
    requires outcome == SOLVED ==>
      && removals >= 1 && numState == removals - 1 && end in frontier0 && frontier == frontier0 - {end}
      && solutionWeight == visited[end].distTo && PredecessorPath(g, visited, start, end, solution)
      && (ZeroHeuristic(g, end) ==> NoShorterPath(g, start, end, solutionWeight))
    requires outcome != SOLVED ==> numState == removals && frontier == frontier0 && solution == [] && solutionWeight == 0.0
    requires outcome == UNSOLVABLE ==> frontier == {}
    requires outcome == TIMEOUT ==> frontier != {} && removals == budget
    ensures SolverOk(g, start, end, budget, outcome, solutionWeight, solution, numState, removals, visited, frontier)
  {
    if outcome == SOLVED {
      PredecessorPathWeight(g, visited, stamp, clock, start, end, solution);
    }
  }

  /**
   * The search the solver runs when it is built: the start is relaxed with
   * distance 0, then vertices are taken from the fringe until it is empty,
   * the goal is taken or the budget of removals is spent.
   */
  method Search<V(==,!new)>(input: AStarGraph<V>, hash: V -> nat, start: V, end: V, budget: nat)
    returns (result: SolverOutcome, weight: real, sol: seq<V>, count: int, vis: map<V, VInfo<V>>, fr: ArrayHeapMinPQ<V>, ticks: nat)
    requires NonNegativeWeights(input)
    ensures fresh(fr) && fr.Valid()
    ensures SolverOk(input, start, end, budget, result, weight, sol, count, ticks, vis, fr.Contents.Keys)
  {
    fr := new ArrayHeapMinPQ<V>(hash);
    vis := map[];
    vis := Relax(fr, vis, start, 0.0, None, input.EstimatedDistanceToGoal(start, end));
    ghost var stamp: map<V, nat> := map[start := 0];
    ghost var clock: nat := 1;
    ticks := 0;
    count := 0;
    var solved := false;
    sol := [];
    weight := 0.0;
    ghost var frontier0: set<V> := {};
    while fr.Size() != 0 && ticks < budget
      invariant fr.Valid() && fresh(fr)
      invariant Searching(input, vis, stamp, clock, fr.Contents.Keys, start, end)
      invariant Prioritised(input, vis, fr.Contents, end)
      invariant ZeroHeuristic(input, end) ==> Settled(input, vis, fr.Contents.Keys, start)
      invariant ticks <= budget && count == ticks && !solved
      decreases budget - ticks
    {
      frontier0 := fr.Contents.Keys;
      ghost var contents0 := fr.Contents;
      var r := fr.RemoveSmallest();
      var cur := r.value;
      ticks := ticks + 1;
      var info := vis[cur];
      if cur == end {
        if ZeroHeuristic(input, end) {
          SmallestIsShortest(input, vis, stamp, clock, contents0, start, end, cur);
        }
        weight := info.distTo;
        sol := WalkBack(input, vis, stamp, clock, start, end);
        solved := true;
        break;
      }
      count := count + 1;
      ghost var contents1 := fr.Contents;
      var relaxed := RelaxNeighbors(input, fr, vis, end, cur);
      stamp := ExpandStep(input, vis, stamp, clock, contents0, contents1, relaxed, fr.Contents, start, end, cur);
      clock := clock + |input.Neighbors(cur)|;
      vis := relaxed;
    }
    result := SOLVED;
    if !solved {
      frontier0 := fr.Contents.Keys;
      result := if fr.Size() == 0 then UNSOLVABLE else TIMEOUT;
    }
    SearchOk(input, start, end, budget, result, weight, sol, count, ticks, vis, stamp, clock, frontier0, fr.Contents.Keys);
  }

  class AStarSolver<V(==,!new)> {
    var outcome: SolverOutcome
    var solutionWeight: real
    var solution: seq<V>
    var numState: int
    var visited: map<V, VInfo<V>>
    var fringe: ArrayHeapMinPQ<V>

    ghost const graph: AStarGraph<V>
    ghost const start: V
    ghost const end: V
    ghost const budget: nat
    /** How many vertices the search took from the fringe. */
    ghost var removals: nat

    ghost predicate Valid()
      reads this, fringe
    {
      fringe.Valid() &&
      SolverOk(graph, start, end, budget, outcome, solutionWeight, solution, numState, removals, visited, fringe.Contents.Keys)
    }

    /**
     * Runs the search from `start` to `end`, taking at most `budget` vertices
     * from the fringe.
     */
    constructor (input: AStarGraph<V>, hash: V -> nat, start: V, end: V, budget: nat)
      requires NonNegativeWeights(input)
      ensures Valid()
      ensures graph == input && this.start == start && this.end == end && this.budget == budget
      ensures outcome == SOLVED ==> PredecessorPath(input, visited, start, end, solution) && PathWeight(input, solution) <= solutionWeight
      ensures outcome == SOLVED && ZeroHeuristic(input, end) ==>
        PathWeight(input, solution) == solutionWeight && NoShorterPath(input, start, end, solutionWeight)
      ensures outcome == UNSOLVABLE ==> forall p :: IsPath(input, p) && |p| > 0 && p[0] == start ==> p[|p| - 1] != end
    {
      var result, weight, sol, count, vis, fr, ticks := Search(input, hash, start, end, budget);
      graph, this.start, this.end, this.budget := input, start, end, budget;
      outcome, solutionWeight, solution, numState := result, weight, sol, count;
      visited, fringe, removals := vis, fr, ticks;
      if result == UNSOLVABLE {
        ClosedSetBlocksPaths(input, vis.Keys, start, end);
      }
    }

    function Outcome(): (r: SolverOutcome)
      reads this, fringe
      requires Valid()
      ensures r == UNSOLVABLE ==> forall p :: IsPath(graph, p) && |p| > 0 && p[0] == start ==> p[|p| - 1] != end
      ensures r == UNSOLVABLE ==> fringe.Contents == map[]
      ensures r == TIMEOUT ==> fringe.Contents != map[] && removals == budget
    {
      if outcome == UNSOLVABLE then
        ClosedSetBlocksPaths(graph, visited.Keys, start, end);
        outcome
      else
        outcome
    }

    function Solution(): (s: seq<V>)
      reads this, fringe
      requires Valid()
      ensures outcome == SOLVED ==> PredecessorPath(graph, visited, start, end, s)
      ensures outcome != SOLVED ==> s == []
    {
      solution
    }

    function SolutionWeight(): (w: real)
      reads this, fringe
      requires Valid()
      ensures outcome == SOLVED ==> end in visited && w >= 0.0 && w == visited[end].distTo
      ensures outcome == SOLVED ==> PathWeight(graph, solution) <= w
      ensures outcome == SOLVED && ZeroHeuristic(graph, end) ==> w == PathWeight(graph, solution) && NoShorterPath(graph, start, end, w)
      ensures outcome != SOLVED ==> w == 0.0
    {
      solutionWeight
    }

    /** The number of vertices taken from the fringe that were not the goal. */
    function NumStatesExplored(): (n: int)
      reads this, fringe
      requires Valid()
      ensures 0 <= n <= budget
      ensures n == (if outcome == SOLVED then removals - 1 else removals)
    {
      numState
    }
  }
}
