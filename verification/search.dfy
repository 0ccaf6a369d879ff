/**
 * The two path searches of the game model and the reachability check:
 * breadth-first search with a FIFO queue, and A* with a Manhattan heuristic,
 * a min-priority open set and lazy deletion.  Both rebuild their path from a
 * map of predecessors.
 */
module Search {
  import opened Cells
  import opened Grids
  import opened Walks
  import opened Options

  /**
   * Predecessor links recorded by a search: every linked cell is a legal step
   * from its predecessor, and its recorded cost exceeds the predecessor's, so
   * following links always ends at `start`.
   */
  ghost predicate ParentsSound(g: Grid, rule: WalkRule, start: Point, parent: map<Point, Point>, cost: map<Point, nat>) {
    && start in cost && cost[start] == 0
    && start !in parent
    && parent.Keys == cost.Keys - {start}
    && forall v :: v in parent ==>
         && parent[v] in cost
         && Adjacent(parent[v], v)
         && InBounds(v)
         && Walkable(rule, Get(g, v))
         && cost[parent[v]] < cost[v]
  }

  /** A finished cell has recorded every legal step out of it, each at most one dearer. */
  ghost predicate Expanded(g: Grid, rule: WalkRule, done: set<Point>, cost: map<Point, nat>) {
    forall u, v :: u in done && Adjacent(u, v) && InBounds(v) && Walkable(rule, Get(g, v)) ==>
      u in cost && v in cost && cost[v] <= cost[u] + 1
  }

  /** Following the links from a recorded cell gives a walk from `start` no longer than its cost. */
  lemma {:induction false} ParentWalk(g: Grid, rule: WalkRule, start: Point, parent: map<Point, Point>, cost: map<Point, nat>, v: Point)
    returns (w: seq<Point>)
    requires ParentsSound(g, rule, start, parent, cost)
    requires v in cost
    ensures IsWalk(g, rule, start, w) && EndOf(start, w) == v && |w| <= cost[v]
    decreases cost[v]
  {
    if v == start {
      w := [];
    } else {
      var w0 := ParentWalk(g, rule, start, parent, cost, parent[v]);
      WalkAppend(g, rule, start, w0, v);
      w := w0 + [v];
    }
  }

  /**
   * The cells listed between `start` (excluded) and `end` (included) by following
   * predecessor links back from `end`.  `reconstructPath` collects them
   * end-first and reverses the list; prepending gives the same list.
   */
  method ReconstructPath(ghost g: Grid, ghost rule: WalkRule, parent: map<Point, Point>, start: Point, end: Point, ghost cost: map<Point, nat>)
    returns (path: seq<Point>)
    requires ParentsSound(g, rule, start, parent, cost)
    requires end in cost
    ensures IsWalk(g, rule, start, path) && EndOf(start, path) == end
    ensures |path| <= cost[end]
    ensures forall i :: 0 <= i < |path| ==> path[i] in cost && 0 < cost[path[i]]
    ensures forall i, j :: 0 <= i < j < |path| ==> cost[path[i]] < cost[path[j]]
  {
    path := [];
    var current := end;
    while current != start
      invariant current in cost
      invariant IsWalk(g, rule, current, path) && EndOf(current, path) == end
      invariant |path| + cost[current] <= cost[end]
      invariant forall i :: 0 <= i < |path| ==> path[i] in cost && cost[current] < cost[path[i]]
      invariant forall i, j :: 0 <= i < j < |path| ==> cost[path[i]] < cost[path[j]]
      decreases cost[current]
    {
      WalkPrepend(g, rule, parent[current], current, path);
      path := [current] + path;
      current := parent[current];
    }
  }

  /** A path whose cells have rising positive costs lists, with the start, that many distinct recorded cells. */
  lemma PathCellsCounted(start: Point, path: seq<Point>, cost: map<Point, nat>)
    requires start in cost && cost[start] == 0
    requires forall i :: 0 <= i < |path| ==> path[i] in cost && 0 < cost[path[i]]
    requires forall i, j :: 0 <= i < j < |path| ==> cost[path[i]] < cost[path[j]]
    ensures |path| + 1 <= |cost.Keys|
  {
    var cells := [start] + path;
    assert Distinct(cells) by {
      forall i, j | 0 <= i < |cells| && 0 <= j < |cells| && i != j
        ensures cells[i] != cells[j]
      {
        assert cells[i] in cost && cells[j] in cost && cost[cells[i]] != cost[cells[j]];
      }
    }
    DistinctElements(cells);
    assert |cells| == |path| + 1;
    assert (set p | p in cells) <= cost.Keys;
    SubsetCardinality((set p | p in cells), cost.Keys);
  }

  lemma {:induction false} SubsetCardinality<T>(a: set<T>, b: set<T>)
    requires a <= b
    ensures |a| <= |b|
    decreases a
  {
    if a != {} {
      var x :| x in a;
      SubsetCardinality(a - {x}, b - {x});
    }
  }

  /** Every cell a search has recorded is reachable, so there are no more of them than reachable cells. */
  lemma VisitedWithinReach(g: Grid, rule: WalkRule, start: Point, parent: map<Point, Point>, dist: map<Point, nat>, visited: set<Point>)
    requires ParentsSound(g, rule, start, parent, dist)
    requires visited == dist.Keys
    requires forall v :: v in visited ==> InBounds(v)
    ensures visited <= ReachSet(g, rule, start)
    ensures |visited| <= |ReachSet(g, rule, start)|
  {
    forall v | v in visited
      ensures v in ReachSet(g, rule, start)
    {
      var w := ParentWalk(g, rule, start, parent, dist, v);
    }
    SubsetCardinality(visited, ReachSet(g, rule, start));
  }

  /** When every cell reachable in one step from a closed set is in it, no walk leaves it. */
  lemma {:induction false} ClosedSetHoldsWalks(g: Grid, rule: WalkRule, start: Point, done: set<Point>, w: seq<Point>)
    requires start in done
    requires forall u, v :: u in done && Adjacent(u, v) && InBounds(v) && Walkable(rule, Get(g, v)) ==> v in done
    requires IsWalk(g, rule, start, w)
    ensures EndOf(start, w) in done
  {
    var i := 0;
    while i < |w|
      invariant 0 <= i <= |w|
      invariant At(start, w, i) in done
    {
      WalkStep(g, rule, start, w, i);
      i := i + 1;
    }
  }

  /**
   * Walking from `start` while the cells stood on are finished, each cell reached
   * has a recorded cost no more than the steps taken: returns the first step at
   * which the walk stands on an unfinished cell, or its length.
   */
  lemma {:induction false} FinishedPrefix(g: Grid, rule: WalkRule, start: Point, done: set<Point>, cost: map<Point, nat>, w: seq<Point>)
    returns (i: int)
    requires start in cost && cost[start] == 0
    requires Expanded(g, rule, done, cost)
    requires IsWalk(g, rule, start, w)
    ensures 0 <= i <= |w|
    ensures At(start, w, i) in cost && cost[At(start, w, i)] <= i
    ensures i < |w| ==> At(start, w, i) !in done
  {
    i := 0;
    while i < |w| && At(start, w, i) in done
      invariant 0 <= i <= |w|
      invariant At(start, w, i) in cost && cost[At(start, w, i)] <= i
    {
      WalkStep(g, rule, start, w, i);
      i := i + 1;
    }
  }

  /**
   * The breadth-first lower bound: with the queue's costs ascending and spanning
   * at most one level, every finished cell no dearer than the queue's head, and
   * every finished cell expanded, no walk reaches a recorded cell in fewer steps
   * than its recorded cost.
   */
  lemma BfsNoShorterWalk(g: Grid, rule: WalkRule, start: Point, done: set<Point>, queue: seq<Point>,
                         dist: map<Point, nat>, w: seq<Point>)
    requires start in dist && dist[start] == 0
    requires forall v :: v in dist ==> v in done || v in queue
    requires |queue| > 0 && forall i :: 0 <= i < |queue| ==> queue[i] in dist
    requires forall i :: 0 <= i < |queue| ==> dist[queue[0]] <= dist[queue[i]] <= dist[queue[0]] + 1
    requires forall u :: u in done ==> u in dist && dist[u] <= dist[queue[0]]
    requires Expanded(g, rule, done, dist)
    requires IsWalk(g, rule, start, w)
    requires EndOf(start, w) in dist
    ensures dist[EndOf(start, w)] <= |w|
  {
    var i := FinishedPrefix(g, rule, start, done, dist, w);
    var e := EndOf(start, w);
    if i < |w| {
      // the walk stands on a queued cell after i steps, so the head's level is at most i
      var q := At(start, w, i);
      var k :| 0 <= k < |queue| && queue[k] == q;
      if e !in done {
        var m :| 0 <= m < |queue| && queue[m] == e;
      }
    }
  }

  /** The queue's costs ascend and span at most one level. */
  ghost predicate Layered(queue: seq<Point>, dist: map<Point, nat>) {
    && (forall i :: 0 <= i < |queue| ==> queue[i] in dist)
    && (forall i, j :: 0 <= i <= j < |queue| ==> dist[queue[i]] <= dist[queue[j]])
    && (queue != [] ==> dist[queue[|queue| - 1]] <= dist[queue[0]] + 1)
  }

  /**
   * The breadth-first search state between two dequeues: `visited` are the cells
   * ever queued, `done` those already dequeued and expanded, `dist` their levels.
   */
  ghost predicate BfsInv(g: Grid, rule: WalkRule, start: Point, goal: Point, visited: set<Point>, queue: seq<Point>,
                         parent: map<Point, Point>, dist: map<Point, nat>, done: set<Point>) {
    && visited == dist.Keys
    && ParentsSound(g, rule, start, parent, dist)
    && done <= visited
    && (forall v :: v in visited ==> v in done || v in queue)
    && (forall i :: 0 <= i < |queue| ==> queue[i] in visited)
    && (forall v :: v in visited ==> InBounds(v))
    && Layered(queue, dist)
    && (queue != [] ==> forall u :: u in done ==> dist[u] <= dist[queue[0]])
    && Expanded(g, rule, done, dist)
    && goal !in done
  }

  /**
   * What the inner loop of the breadth-first search keeps between the state
   * before it (`queue` … `explored`) and the state so far (`queue'` … `explored'`):
   * every newly visited cell is queued once, one level below `current`, with
   * `current` as its predecessor, and counted as explored.
   */
  ghost predicate EnqueueInv(g: Grid, rule: WalkRule, current: Point, start: Point,
                             queue: seq<Point>, visited: set<Point>, dist: map<Point, nat>, explored: nat,
                             queue': seq<Point>, visited': set<Point>, parent': map<Point, Point>, dist': map<Point, nat>, explored': nat)
    requires visited == dist.Keys && current in visited
  {
    && visited' == dist'.Keys && visited <= visited'
    && ParentsSound(g, rule, start, parent', dist')
    && (forall v :: v in visited ==> dist'[v] == dist[v])
    && (forall v :: v in visited' && v !in visited ==> InBounds(v) && dist'[v] == dist[current] + 1 && v in queue')
    && (forall v :: v in visited' && v !in visited ==> v in parent' && parent'[v] == current)
    && |queue| <= |queue'| && queue'[..|queue|] == queue
    && (forall i :: |queue| <= i < |queue'| ==> queue'[i] in visited' && queue'[i] !in visited)
    && (forall i, j :: |queue| <= i < j < |queue'| ==> queue'[i] != queue'[j])
    && |queue'| - |queue| == |visited'| - |visited|
    && explored' + |visited| == explored + |visited'|
    && (visited' != visited ==> |visited'| > |visited|)
  }

  /** One step of the inner loop: queue `next` when it is on the board, not yet visited and walkable. */
  method EnqueueOne(g: Grid, rule: WalkRule, current: Point, ghost start: Point, next: Point,
                    ghost queue: seq<Point>, ghost visited: set<Point>, ghost dist: map<Point, nat>, ghost explored: nat,
                    q: seq<Point>, v: set<Point>, p: map<Point, Point>, ghost d: map<Point, nat>, e: nat)
    returns (q': seq<Point>, v': set<Point>, p': map<Point, Point>, ghost d': map<Point, nat>, e': nat)
    requires visited == dist.Keys && current in visited
    requires Adjacent(current, next)
    requires EnqueueInv(g, rule, current, start, queue, visited, dist, explored, q, v, p, d, e)
    ensures EnqueueInv(g, rule, current, start, queue, visited, dist, explored, q', v', p', d', e')
    ensures v <= v' && (InBounds(next) && Walkable(rule, Get(g, next)) ==> next in v')
  {
    q', v', p', d', e' := q, v, p, d, e;
    if InBounds(next) && next !in v && Walkable(rule, Get(g, next)) {
      q' := q + [next];
      v' := v + {next};
      p' := p[next := current];
      d' := d[next := d[current] + 1];
      e' := e + 1;
      assert q'[..|queue|] == q[..|queue|];
    }
  }

  /**
   * The inner loop of the breadth-first search: queue, in the order down, right,
   * up, left, every neighbour of `current` that is on the board, not yet visited
   * and walkable, recording `current` as its predecessor.
   */
  method EnqueueNeighbours(g: Grid, rule: WalkRule, current: Point, queue: seq<Point>, visited: set<Point>,
                           parent: map<Point, Point>, ghost dist: map<Point, nat>, ghost start: Point, explored: nat)
    returns (queue': seq<Point>, visited': set<Point>, parent': map<Point, Point>, ghost dist': map<Point, nat>, explored': nat)
    requires visited == dist.Keys && current in visited
    requires ParentsSound(g, rule, start, parent, dist)
    ensures visited' == dist'.Keys && visited <= visited'
    ensures ParentsSound(g, rule, start, parent', dist')
    ensures forall v :: v in visited ==> dist'[v] == dist[v]
    ensures forall v :: v in visited' && v !in visited ==> InBounds(v) && dist'[v] == dist[current] + 1 && v in queue'
    ensures forall v :: v in visited' && v !in visited ==> v in parent' && parent'[v] == current
    ensures |queue| <= |queue'| && queue'[..|queue|] == queue
    ensures forall i :: |queue| <= i < |queue'| ==> queue'[i] in visited' && queue'[i] !in visited
    ensures forall i, j :: |queue| <= i < j < |queue'| ==> queue'[i] != queue'[j]
    ensures |queue'| - |queue| == |visited'| - |visited|
    ensures forall v :: Adjacent(current, v) && InBounds(v) && Walkable(rule, Get(g, v)) ==> v in visited'
    ensures explored' + |visited| == explored + |visited'|
    ensures visited' == visited ==> queue' == queue
    ensures visited' != visited ==> |visited'| > |visited|
  {
    queue', visited', parent', dist', explored' := queue, visited, parent, dist, explored;
    var k := 0;
    while k < 4
      invariant 0 <= k <= 4
      invariant EnqueueInv(g, rule, current, start, queue, visited, dist, explored, queue', visited', parent', dist', explored')
      invariant forall j :: 0 <= j < k && InBounds(Neighbours(current)[j]) && Walkable(rule, Get(g, Neighbours(current)[j])) ==>
                  Neighbours(current)[j] in visited'
    {
      NeighboursAreAdjacent(current, Neighbours(current)[k]);
      queue', visited', parent', dist', explored' :=
        EnqueueOne(g, rule, current, start, Neighbours(current)[k], queue, visited, dist, explored,
                   queue', visited', parent', dist', explored');
      k := k + 1;
    }
    forall v | Adjacent(current, v) && InBounds(v) && Walkable(rule, Get(g, v))
      ensures v in visited'
    {
      NeighboursAreAdjacent(current, v);
    }
  }

  /** The queue after dequeuing its head and appending cells one level below the head stays layered. */
  lemma LayeredStep(queue: seq<Point>, dist: map<Point, nat>, queue': seq<Point>, dist': map<Point, nat>)
    requires Layered(queue, dist) && queue != []
    requires forall v :: v in dist ==> v in dist' && dist'[v] == dist[v]
    requires |queue| - 1 <= |queue'| && queue'[..|queue| - 1] == queue[1..]
    requires forall i :: |queue| - 1 <= i < |queue'| ==> queue'[i] in dist' && dist'[queue'[i]] == dist[queue[0]] + 1
    ensures Layered(queue', dist')
    ensures forall i :: 0 <= i < |queue'| ==> dist[queue[0]] <= dist'[queue'[i]] <= dist[queue[0]] + 1
  {
    var n := |queue| - 1;
    forall i | 0 <= i < |queue'|
      ensures queue'[i] in dist' && dist[queue[0]] <= dist'[queue'[i]] <= dist[queue[0]] + 1
    {
      if i < n {
        assert queue'[i] == queue[i + 1];
      }
    }
    forall i, j | 0 <= i <= j < |queue'|
      ensures dist'[queue'[i]] <= dist'[queue'[j]]
    {
      if j < n {
        assert queue'[i] == queue[i + 1] && queue'[j] == queue[j + 1];
      }
    }
  }

  /** Finishing the head of the queue, once its neighbours are recorded, keeps every finished cell expanded. */
  lemma ExpandedStep(g: Grid, rule: WalkRule, done: set<Point>, queue: seq<Point>, dist: map<Point, nat>,
                     visited': set<Point>, dist': map<Point, nat>)
    requires Expanded(g, rule, done, dist) && Layered(queue, dist) && queue != []
    requires forall v :: v in dist ==> v in done || v in queue
    requires forall u :: u in done ==> u in dist && dist[u] <= dist[queue[0]]
    requires visited' == dist'.Keys
    requires forall v :: v in dist ==> v in dist' && dist'[v] == dist[v]
    requires forall v :: v in visited' && v !in dist ==> dist'[v] == dist[queue[0]] + 1
    requires forall v :: Adjacent(queue[0], v) && InBounds(v) && Walkable(rule, Get(g, v)) ==> v in visited'
    ensures Expanded(g, rule, done + {queue[0]}, dist')
  {
    var current := queue[0];
    forall u, v | u in done + {current} && Adjacent(u, v) && InBounds(v) && Walkable(rule, Get(g, v))
      ensures u in dist' && v in dist' && dist'[v] <= dist'[u] + 1
    {
      if u == current && v in dist && v !in done {
        var m :| 0 <= m < |queue| && queue[m] == v;
      }
    }
  }

  /** Dequeuing a cell that is not the goal and queueing its new neighbours keeps the search state. */
  lemma BfsStep(g: Grid, rule: WalkRule, start: Point, goal: Point, visited: set<Point>, queue: seq<Point>,
                parent: map<Point, Point>, dist: map<Point, nat>, done: set<Point>,
                visited': set<Point>, queue': seq<Point>, parent': map<Point, Point>, dist': map<Point, nat>)
    requires BfsInv(g, rule, start, goal, visited, queue, parent, dist, done)
    requires queue != [] && queue[0] != goal
    requires visited' == dist'.Keys && visited <= visited'
    requires ParentsSound(g, rule, start, parent', dist')
    requires forall v :: v in visited ==> dist'[v] == dist[v]
    requires forall v :: v in visited' && v !in visited ==> InBounds(v) && dist'[v] == dist[queue[0]] + 1 && v in queue'
    requires |queue| - 1 <= |queue'| && queue'[..|queue| - 1] == queue[1..]
    requires forall i :: |queue| - 1 <= i < |queue'| ==> queue'[i] in visited' && queue'[i] !in visited
    requires forall v :: Adjacent(queue[0], v) && InBounds(v) && Walkable(rule, Get(g, v)) ==> v in visited'
    ensures BfsInv(g, rule, start, goal, visited', queue', parent', dist', done + {queue[0]})
  {
    var current := queue[0];
    LayeredStep(queue, dist, queue', dist');
    ExpandedStep(g, rule, done, queue, dist, visited', dist');
    forall v | v in visited'
      ensures v in done + {current} || v in queue'
    {
      if v in visited && v !in done && v != current {
        var m :| 0 <= m < |queue| && queue[m] == v;
        assert queue'[m - 1] == queue[1..][m - 1];
      }
    }
    forall i | 0 <= i < |queue'|
      ensures queue'[i] in visited'
    {
      if i < |queue| - 1 {
        assert queue'[i] == queue[i + 1];
      }
    }
  }

  /** When the goal reaches the head of the queue, no walk reaches it in fewer steps than its level. */
  lemma BfsGoalIsNearest(g: Grid, rule: WalkRule, start: Point, goal: Point, visited: set<Point>, queue: seq<Point>,
                         parent: map<Point, Point>, dist: map<Point, nat>, done: set<Point>, p: seq<Point>)
    requires BfsInv(g, rule, start, goal, visited, queue, parent, dist, done)
    requires queue != [] && queue[0] == goal
    requires IsWalk(g, rule, start, p) && EndOf(start, p) == goal && |p| <= dist[goal]
    ensures IsShortestWalk(g, rule, start, goal, p)
    ensures Reachable(g, rule, start, goal)
    ensures |visited| <= |ReachSet(g, rule, start)|
  {
    assert Layered(queue, dist);
    forall w | IsWalk(g, rule, start, w) && EndOf(start, w) == goal
      ensures |p| <= |w|
    {
      BfsNoShorterWalk(g, rule, start, done, queue, dist, w);
    }
    VisitedWithinReach(g, rule, start, parent, dist, visited);
  }

  /** Every cell still waiting in a layered queue is at least as far as its head. */
  lemma QueuedAtHeadLevel(g: Grid, rule: WalkRule, start: Point, goal: Point, visited: set<Point>, queue: seq<Point>,
                          parent: map<Point, Point>, dist: map<Point, nat>, done: set<Point>)
    requires BfsInv(g, rule, start, goal, visited, queue, parent, dist, done)
    requires queue != []
    ensures forall v :: v in visited && v !in done ==> dist[queue[0]] <= dist[v]
  {
    forall v | v in visited && v !in done
      ensures dist[queue[0]] <= dist[v]
    {
      var k :| 0 <= k < |queue| && queue[k] == v;
    }
  }

  /**
   * When the goal reaches the head of the queue, every cell within the goal's
   * level of the start has been queued: the search has explored at least that many.
   */
  lemma BfsFoundCovers(g: Grid, rule: WalkRule, start: Point, goal: Point, visited: set<Point>, queue: seq<Point>,
                       parent: map<Point, Point>, dist: map<Point, nat>, done: set<Point>, n: nat)
    requires BfsInv(g, rule, start, goal, visited, queue, parent, dist, done)
    requires queue != [] && queue[0] == goal && n <= dist[goal]
    ensures |WithinSet(g, rule, start, n)| <= |visited|
  {
    QueuedAtHeadLevel(g, rule, start, goal, visited, queue, parent, dist, done);
    forall p | p in WithinSet(g, rule, start, n)
      ensures p in visited
    {
      var w :| IsWalk(g, rule, start, w) && EndOf(start, w) == p && |w| <= n;
      var i := FinishedPrefix(g, rule, start, done, dist, w);
      assert i == |w|;
    }
    SubsetCardinality(WithinSet(g, rule, start, n), visited);
  }

  /** When the queue runs dry, the visited cells are exactly the reachable ones, and the goal is not among them. */
  lemma BfsExhausted(g: Grid, rule: WalkRule, start: Point, goal: Point, visited: set<Point>,
                     parent: map<Point, Point>, dist: map<Point, nat>, done: set<Point>)
    requires BfsInv(g, rule, start, goal, visited, [], parent, dist, done)
    ensures visited == ReachSet(g, rule, start)
    ensures !Reachable(g, rule, start, goal)
  {
    forall w | IsWalk(g, rule, start, w)
      ensures EndOf(start, w) in visited
    {
      ClosedSetHoldsWalks(g, rule, start, visited, w);
    }
    VisitedWithinReach(g, rule, start, parent, dist, visited);
  }

  /**
   * One round of the breadth-first search: dequeue the head, which is not the
   * goal, and queue its new neighbours.
   */
  method ExpandHead(g: Grid, rule: WalkRule, ghost start: Point, ghost goal: Point, queue: seq<Point>, visited: set<Point>,
                    parent: map<Point, Point>, ghost dist: map<Point, nat>, ghost done: set<Point>, explored: nat)
    returns (queue': seq<Point>, visited': set<Point>, parent': map<Point, Point>, ghost dist': map<Point, nat>,
             ghost done': set<Point>, explored': nat)
    requires BfsInv(g, rule, start, goal, visited, queue, parent, dist, done)
    requires queue != [] && queue[0] != goal
    requires explored == |visited|
    ensures BfsInv(g, rule, start, goal, visited', queue', parent', dist', done')
    ensures explored' == |visited'| <= |AllCells()|
    ensures |visited'| > |visited| || (|visited'| == |visited| && |queue'| < |queue|)
  {
    var current := queue[0];
    queue', visited', parent', dist', explored' := EnqueueNeighbours(g, rule, current, queue[1..], visited, parent, dist, start, explored);
    BfsStep(g, rule, start, goal, visited, queue, parent, dist, done, visited', queue', parent', dist');
    done' := done + {current};
    SubsetCardinality(visited', AllCells());
  }

  /**
   * Breadth-first search from `start` to `goal` over the cells `rule` allows,
   * visiting neighbours in the order down, right, up, left.  Returns the path
   * (start excluded, goal included) or None, and the count of cells put in the
   * queue, the start included.
   */
  method Bfs(g: Grid, rule: WalkRule, start: Point, goal: Point) returns (path: Option<seq<Point>>, explored: nat)
    requires InBounds(start)
    ensures path.Some? <==> Reachable(g, rule, start, goal)
    ensures path.Some? ==> IsShortestWalk(g, rule, start, goal, path.value)
    ensures path.Some? ==> |WithinSet(g, rule, start, |path.value|)| <= explored
    ensures path.None? ==> explored == |ReachSet(g, rule, start)|
    ensures 1 <= explored <= |ReachSet(g, rule, start)|
  {
    var visited: set<Point> := {start};
    var queue: seq<Point> := [start];
    var parent: map<Point, Point> := map[];
    ghost var dist: map<Point, nat> := map[start := 0];
    ghost var done: set<Point> := {};
    explored := 1;
    while queue != []
      invariant BfsInv(g, rule, start, goal, visited, queue, parent, dist, done)
      invariant explored == |visited| <= |AllCells()|
      decreases |AllCells()| - |visited|, |queue|
    {
      var current := queue[0];
      if current == goal {
        var p := ReconstructPath(g, rule, parent, start, goal, dist);
        BfsGoalIsNearest(g, rule, start, goal, visited, queue, parent, dist, done, p);
        BfsFoundCovers(g, rule, start, goal, visited, queue, parent, dist, done, |p|);
        return Some(p), explored;
      }
      queue, visited, parent, dist, done, explored := ExpandHead(g, rule, start, goal, queue, visited, parent, dist, done, explored);
    }
    BfsExhausted(g, rule, start, goal, visited, parent, dist, done);
    return None, explored;
  }

  /** The path search behind the BFS hint: walkable cells are EMPTY or TREASURE. */
  method FindShortestPath(g: Grid, start: Point, end: Point) returns (path: Option<seq<Point>>, explored: nat)
    requires InBounds(start)
    ensures path.Some? <==> Reachable(g, EmptyOrTreasure, start, end)
    ensures path.Some? ==> IsShortestWalk(g, EmptyOrTreasure, start, end, path.value)
    ensures path.Some? ==> |WithinSet(g, EmptyOrTreasure, start, |path.value|)| <= explored
    ensures path.None? ==> explored == |ReachSet(g, EmptyOrTreasure, start)|
    ensures 1 <= explored <= |ReachSet(g, EmptyOrTreasure, start)|
  {
    path, explored := Bfs(g, EmptyOrTreasure, start, end);
  }

  /** The generation-time check: a breadth-first search through every cell that is not an obstacle. */
  method IsReachable(g: Grid, start: Point, end: Point) returns (r: bool)
    requires InBounds(start)
    ensures r <==> Reachable(g, NotObstacle, start, end)
  {
    var path, _ := Bfs(g, NotObstacle, start, end);
    r := path.Some?;
  }

  /** `isReachable(p, p)` holds for every point on the board. */
  lemma ReachableReflexive(g: Grid, rule: WalkRule, p: Point)
    ensures Reachable(g, rule, p, p)
  {
    assert IsWalk(g, rule, p, []) && EndOf(p, []) == p;
  }

  // ---------------------------------------------------------------------------
  // A*

  /** An entry of the open set: a cell and the f-score it was queued with. */
  datatype Node = Node(point: Point, f: int)

  /** No entry of the open set has a smaller f-score than `n`. */
  predicate IsMinNode(open: multiset<Node>, n: Node) {
    n in open && forall m :: m in open ==> n.f <= m.f
  }

  lemma {:induction false} MinNodeExists(open: multiset<Node>) returns (n: Node)
    requires |open| > 0
    ensures IsMinNode(open, n)
    decreases |open|
  {
    var x :| x in open;
    var rest := open - multiset{x};
    assert open == rest + multiset{x};
    if |rest| == 0 {
      n := x;
      assert open == multiset{x};
    } else {
      var r := MinNodeExists(rest);
      n := if x.f <= r.f then x else r;
    }
  }

  /** Every walk to a settled cell is at least as long as its recorded cost. */
  ghost predicate Settled(g: Grid, rule: WalkRule, start: Point, closed: set<Point>, cost: map<Point, nat>) {
    forall w :: IsWalk(g, rule, start, w) && EndOf(start, w) in closed ==>
      EndOf(start, w) in cost && cost[EndOf(start, w)] <= |w|
  }

  /** Every queued cost-`cost` cell has an entry in the open set with f-score at most its cost plus heuristic. */
  ghost predicate OpenSound(goal: Point, open: multiset<Node>, closed: set<Point>, gScore: map<Point, nat>) {
    && (forall n :: n in open ==> n.point in gScore && n.f >= gScore[n.point] + Manhattan(n.point, goal))
    && (forall v :: v in gScore && v !in closed ==> Node(v, gScore[v] + Manhattan(v, goal)) in open)
  }

  /** The A* state between two polls of the open set. */
  ghost predicate AStarInv(g: Grid, start: Point, goal: Point, open: multiset<Node>, closed: set<Point>,
                           gScore: map<Point, nat>, parent: map<Point, Point>) {
    && ParentsSound(g, NotObstacle, start, parent, gScore)
    && closed <= gScore.Keys
    && (forall v :: v in gScore ==> InBounds(v))
    && OpenSound(goal, open, closed, gScore)
    && Expanded(g, NotObstacle, closed, gScore)
    && Settled(g, NotObstacle, start, closed, gScore)
    && goal !in closed
  }

  /**
   * The A* lower bound for one walk: when the entry with the least f-score names
   * an unsettled cell, the walk reaches it in no fewer steps than its recorded
   * cost.  The first unsettled cell along the walk has a queued entry no better
   * than the polled one, and the consistent heuristic bounds the rest of the walk.
   */
  lemma PollLowerBound(g: Grid, start: Point, goal: Point, open: multiset<Node>, closed: set<Point>,
                       gScore: map<Point, nat>, node: Node, w: seq<Point>)
    requires start in gScore && gScore[start] == 0
    requires OpenSound(goal, open, closed, gScore)
    requires Expanded(g, NotObstacle, closed, gScore)
    requires IsMinNode(open, node) && node.point !in closed
    requires IsWalk(g, NotObstacle, start, w) && EndOf(start, w) == node.point
    ensures node.point in gScore && gScore[node.point] <= |w|
  {
    var c := node.point;
    var i := FinishedPrefix(g, NotObstacle, start, closed, gScore, w);
    var q := At(start, w, i);
    assert q !in closed;
    MinNodeBetween(goal, open, closed, gScore, node, q);
    ManhattanAlongWalk(g, NotObstacle, start, w, i, goal);
    assert Manhattan(q, goal) <= (|w| - i) + Manhattan(c, goal);
  }

  /** The least entry's f-score lies between its own cell's cost plus heuristic and that of any unsettled cell with a cost. */
  lemma MinNodeBetween(goal: Point, open: multiset<Node>, closed: set<Point>, gScore: map<Point, nat>, node: Node, q: Point)
    requires OpenSound(goal, open, closed, gScore) && IsMinNode(open, node)
    requires q in gScore && q !in closed
    ensures node.point in gScore
    ensures gScore[node.point] + Manhattan(node.point, goal) <= node.f <= gScore[q] + Manhattan(q, goal)
  {
    assert Node(q, gScore[q] + Manhattan(q, goal)) in open;
  }

  /** Polling the best entry of an unsettled cell settles it; its entry leaves the open set. */
  lemma AStarSettle(g: Grid, start: Point, goal: Point, open: multiset<Node>, closed: set<Point>,
                    gScore: map<Point, nat>, parent: map<Point, Point>, node: Node,
                    open': multiset<Node>, closed': set<Point>)
    requires AStarInv(g, start, goal, open, closed, gScore, parent)
    requires IsMinNode(open, node) && node.point !in closed
    requires open' == open - multiset{node} && closed' == closed + {node.point}
    ensures RelaxState(g, start, goal, node.point, open', closed', gScore, parent)
    ensures Settled(g, NotObstacle, start, closed', gScore)
  {
    var c := node.point;
    forall w | IsWalk(g, NotObstacle, start, w) && EndOf(start, w) in closed'
      ensures EndOf(start, w) in gScore && gScore[EndOf(start, w)] <= |w|
    {
      if EndOf(start, w) == c {
        PollLowerBound(g, start, goal, open, closed, gScore, node, w);
      }
    }
    AStarSkip(goal, open, closed', gScore, node, open');
    assert closed' - {c} == closed;
  }

  /** Removing one entry of a settled cell keeps the open set sound. */
  lemma AStarSkip(goal: Point, open: multiset<Node>, closed: set<Point>, gScore: map<Point, nat>, node: Node,
                  open': multiset<Node>)
    requires OpenSound(goal, open, closed, gScore)
    requires node in open && node.point in closed
    requires open' == open - multiset{node}
    ensures OpenSound(goal, open', closed, gScore)
  {
    forall v | v in gScore && v !in closed
      ensures Node(v, gScore[v] + Manhattan(v, goal)) in open'
    {
      assert Node(v, gScore[v] + Manhattan(v, goal)) != node;
    }
  }

  /** A settled cell next to a recorded cell costs at most one more than it: settled cells are never improved. */
  lemma SettledNotImproved(g: Grid, start: Point, closed: set<Point>, gScore: map<Point, nat>, parent: map<Point, Point>,
                           current: Point, nb: Point)
    requires ParentsSound(g, NotObstacle, start, parent, gScore)
    requires Settled(g, NotObstacle, start, closed, gScore)
    requires current in gScore && nb in closed
    requires Adjacent(current, nb) && InBounds(nb) && Walkable(NotObstacle, Get(g, nb))
    ensures nb in gScore && gScore[nb] <= gScore[current] + 1
  {
    var w := ParentWalk(g, NotObstacle, start, parent, gScore, current);
    WalkAppend(g, NotObstacle, start, w, nb);
  }

  /** A cell whose recorded cost a neighbour of a recorded cell improves is not settled. */
  lemma ImprovedNotSettled(g: Grid, start: Point, closed: set<Point>, gScore: map<Point, nat>, parent: map<Point, Point>,
                           current: Point, nb: Point)
    requires ParentsSound(g, NotObstacle, start, parent, gScore)
    requires Settled(g, NotObstacle, start, closed, gScore)
    requires current in gScore
    requires Adjacent(current, nb) && InBounds(nb) && Walkable(NotObstacle, Get(g, nb))
    requires nb !in gScore || gScore[current] + 1 < gScore[nb]
    ensures nb !in closed
  {
    if nb in closed {
      SettledNotImproved(g, start, closed, gScore, parent, current, nb);
    }
  }

  /** The A* state while the neighbours of the just-settled `current` are relaxed. */
  ghost predicate RelaxState(g: Grid, start: Point, goal: Point, current: Point, open: multiset<Node>, closed: set<Point>,
                             gScore: map<Point, nat>, parent: map<Point, Point>) {
    && ParentsSound(g, NotObstacle, start, parent, gScore)
    && closed <= gScore.Keys && current in closed
    && (forall v :: v in gScore ==> InBounds(v))
    && OpenSound(goal, open, closed, gScore)
    && Expanded(g, NotObstacle, closed - {current}, gScore)
  }

  lemma ParentsImprove(g: Grid, rule: WalkRule, start: Point, parent: map<Point, Point>, cost: map<Point, nat>,
                       current: Point, nb: Point, t: nat)
    requires ParentsSound(g, rule, start, parent, cost)
    requires current in cost && cost[current] < t
    requires Adjacent(current, nb) && InBounds(nb) && Walkable(rule, Get(g, nb))
    requires nb !in cost || t < cost[nb]
    ensures ParentsSound(g, rule, start, parent[nb := current], cost[nb := t])
  {
  }

  lemma OpenImprove(goal: Point, open: multiset<Node>, closed: set<Point>, gScore: map<Point, nat>, nb: Point, t: nat)
    requires OpenSound(goal, open, closed, gScore)
    requires nb !in closed && (nb !in gScore || t < gScore[nb])
    ensures OpenSound(goal, open + multiset{Node(nb, t + Manhattan(nb, goal))}, closed, gScore[nb := t])
  {
  }

  lemma ExpandedImprove(g: Grid, rule: WalkRule, done: set<Point>, cost: map<Point, nat>, nb: Point, t: nat)
    requires Expanded(g, rule, done, cost)
    requires nb !in done && (nb !in cost || t < cost[nb])
    ensures Expanded(g, rule, done, cost[nb := t])
  {
  }

  lemma SettledImprove(g: Grid, rule: WalkRule, start: Point, closed: set<Point>, cost: map<Point, nat>, nb: Point, t: nat)
    requires Settled(g, rule, start, closed, cost)
    requires nb !in closed
    ensures Settled(g, rule, start, closed, cost[nb := t])
  {
  }

  /** Recording a cheaper cost for an unsettled neighbour, and queueing it, keeps the relaxation state. */
  lemma RelaxImprove(g: Grid, start: Point, goal: Point, current: Point, open: multiset<Node>, closed: set<Point>,
                     gScore: map<Point, nat>, parent: map<Point, Point>, nb: Point, t: nat,
                     open': multiset<Node>, gScore': map<Point, nat>, parent': map<Point, Point>)
    requires RelaxState(g, start, goal, current, open, closed, gScore, parent)
    requires Adjacent(current, nb) && InBounds(nb) && Walkable(NotObstacle, Get(g, nb)) && nb !in closed
    requires t == gScore[current] + 1 && (nb !in gScore || t < gScore[nb])
    requires open' == open + multiset{Node(nb, t + Manhattan(nb, goal))}
    requires gScore' == gScore[nb := t] && parent' == parent[nb := current]
    ensures RelaxState(g, start, goal, current, open', closed, gScore', parent')
  {
    ParentsImprove(g, NotObstacle, start, parent, gScore, current, nb, t);
    OpenImprove(goal, open, closed, gScore, nb, t);
    ExpandedImprove(g, NotObstacle, closed - {current}, gScore, nb, t);
  }

  /**
   * One step of the inner loop of A*: when the neighbour `nb` of the just-settled
   * `current` is on the board and not an obstacle, record a cheaper cost through
   * `current` when there is one and queue it unless it is settled.
   */
  method RelaxOne(g: Grid, start: Point, goal: Point, current: Point, nb: Point, open: multiset<Node>, closed: set<Point>,
                  gScore: map<Point, nat>, parent: map<Point, Point>, explored: nat)
    returns (open': multiset<Node>, gScore': map<Point, nat>, parent': map<Point, Point>, explored': nat)
    requires RelaxState(g, start, goal, current, open, closed, gScore, parent)
    requires Settled(g, NotObstacle, start, closed, gScore)
    requires Adjacent(current, nb)
    requires |gScore.Keys| <= explored
    ensures RelaxState(g, start, goal, current, open', closed, gScore', parent')
    ensures Settled(g, NotObstacle, start, closed, gScore')
    ensures current in gScore' && gScore'[current] == gScore[current]
    ensures InBounds(nb) && Walkable(NotObstacle, Get(g, nb)) ==> nb in gScore' && gScore'[nb] <= gScore[current] + 1
    ensures forall v :: v in gScore ==> v in gScore' && gScore'[v] <= gScore[v]
    ensures |gScore'.Keys| <= explored' && explored <= explored'
    ensures explored' - explored == |open'| - |open|
  {
    open', gScore', parent', explored' := open, gScore, parent, explored;
    if InBounds(nb) && Get(g, nb) != Obstacle {
      var tentative := gScore[current] + 1;
      if nb !in gScore || tentative < gScore[nb] {
        ImprovedNotSettled(g, start, closed, gScore, parent, current, nb);
        SettledImprove(g, NotObstacle, start, closed, gScore, nb, tentative);
        parent' := parent[nb := current];
        gScore' := gScore[nb := tentative];
        if nb !in closed {
          open' := open + multiset{Node(nb, tentative + Manhattan(nb, goal))};
          explored' := explored + 1;
        }
        RelaxImprove(g, start, goal, current, open, closed, gScore, parent, nb, tentative, open', gScore', parent');
      }
    }
  }

  /**
   * The inner loop of A*: relax each neighbour of the just-settled `current`, in
   * the order down, right, up, left.
   */
  method RelaxNeighbours(g: Grid, start: Point, goal: Point, current: Point, open: multiset<Node>, closed: set<Point>,
                         gScore: map<Point, nat>, parent: map<Point, Point>, explored: nat)
    returns (open': multiset<Node>, gScore': map<Point, nat>, parent': map<Point, Point>, explored': nat)
    requires RelaxState(g, start, goal, current, open, closed, gScore, parent)
    requires Settled(g, NotObstacle, start, closed, gScore)
    requires |gScore.Keys| <= explored
    ensures RelaxState(g, start, goal, current, open', closed, gScore', parent')
    ensures Settled(g, NotObstacle, start, closed, gScore')
    ensures forall v :: Adjacent(current, v) && InBounds(v) && Walkable(NotObstacle, Get(g, v)) ==>
              v in gScore' && gScore'[v] <= gScore'[current] + 1
    ensures |gScore'.Keys| <= explored' && explored <= explored'
    ensures explored' - explored == |open'| - |open|
  {
    open', gScore', parent', explored' := open, gScore, parent, explored;
    var currentG := gScore[current];
    var ns := Neighbours(current);
    var k := 0;
    while k < 4
      invariant 0 <= k <= 4
      invariant RelaxState(g, start, goal, current, open', closed, gScore', parent')
      invariant Settled(g, NotObstacle, start, closed, gScore')
      invariant current in gScore' && gScore'[current] == currentG
      invariant forall j :: 0 <= j < k && InBounds(ns[j]) && Walkable(NotObstacle, Get(g, ns[j])) ==>
                  ns[j] in gScore' && gScore'[ns[j]] <= currentG + 1
      invariant |gScore'.Keys| <= explored' && explored <= explored'
      invariant explored' - explored == |open'| - |open|
    {
      NeighboursAreAdjacent(current, ns[k]);
      open', gScore', parent', explored' := RelaxOne(g, start, goal, current, ns[k], open', closed, gScore', parent', explored');
      k := k + 1;
    }
    forall v | Adjacent(current, v) && InBounds(v) && Walkable(NotObstacle, Get(g, v))
      ensures v in gScore' && gScore'[v] <= gScore'[current] + 1
    {
      NeighboursAreAdjacent(current, v);
    }
  }

  /** Once the settled cell's neighbours are relaxed, every settled cell is expanded again. */
  lemma AStarRelaxed(g: Grid, start: Point, goal: Point, current: Point, open: multiset<Node>, closed: set<Point>,
                     gScore: map<Point, nat>, parent: map<Point, Point>)
    requires RelaxState(g, start, goal, current, open, closed, gScore, parent)
    requires Settled(g, NotObstacle, start, closed, gScore)
    requires forall v :: Adjacent(current, v) && InBounds(v) && Walkable(NotObstacle, Get(g, v)) ==>
               v in gScore && gScore[v] <= gScore[current] + 1
    requires goal !in closed
    ensures AStarInv(g, start, goal, open, closed, gScore, parent)
  {
  }

  /** The state before the first poll: only `start` is recorded and queued. */
  lemma AStarStart(g: Grid, start: Point, goal: Point, open: multiset<Node>, closed: set<Point>,
                   gScore: map<Point, nat>, parent: map<Point, Point>)
    requires InBounds(start)
    requires open == multiset{Node(start, Manhattan(start, goal))} && closed == {}
    requires gScore == map[start := 0] && parent == map[]
    ensures AStarInv(g, start, goal, open, closed, gScore, parent)
    ensures |gScore.Keys| == 1 && |closed| <= |AllCells()|
  {
    assert gScore.Keys == {start};
  }

  /** A walk to the settled goal no longer than its recorded cost is a shortest walk. */
  lemma AStarFound(g: Grid, start: Point, goal: Point, closed: set<Point>, gScore: map<Point, nat>, p: seq<Point>)
    requires Settled(g, NotObstacle, start, closed, gScore)
    requires goal in closed && goal in gScore
    requires IsWalk(g, NotObstacle, start, p) && EndOf(start, p) == goal && |p| <= gScore[goal]
    ensures IsShortestWalk(g, NotObstacle, start, goal, p)
    ensures Reachable(g, NotObstacle, start, goal)
  {
  }

  /** When the open set runs dry, every recorded cell is settled and they are exactly the reachable cells. */
  lemma AStarExhausted(g: Grid, start: Point, goal: Point, closed: set<Point>,
                       gScore: map<Point, nat>, parent: map<Point, Point>)
    requires AStarInv(g, start, goal, multiset{}, closed, gScore, parent)
    ensures gScore.Keys == ReachSet(g, NotObstacle, start)
    ensures |gScore.Keys| == |ReachSet(g, NotObstacle, start)|
    ensures !Reachable(g, NotObstacle, start, goal)
  {
    assert closed == gScore.Keys;
    forall w | IsWalk(g, NotObstacle, start, w)
      ensures EndOf(start, w) in closed
    {
      ClosedSetHoldsWalks(g, NotObstacle, start, closed, w);
    }
    VisitedWithinReach(g, NotObstacle, start, parent, gScore, gScore.Keys);
  }

  /**
   * One round of the A* loop: poll an entry with the least f-score; skip it when
   * its cell is settled; otherwise settle the cell and either stop with the path
   * to it, when it is the goal, or relax its neighbours.
   */
  method AStarRound(g: Grid, start: Point, goal: Point, open: multiset<Node>, closed: set<Point>,
                    gScore: map<Point, nat>, parent: map<Point, Point>, explored: nat)
    returns (found: Option<seq<Point>>, open': multiset<Node>, closed': set<Point>,
             gScore': map<Point, nat>, parent': map<Point, Point>, explored': nat)
    requires AStarInv(g, start, goal, open, closed, gScore, parent)
    requires |open| > 0 && 1 <= |gScore.Keys| <= explored
    ensures found.Some? ==> IsShortestWalk(g, NotObstacle, start, goal, found.value) && Reachable(g, NotObstacle, start, goal)
    ensures explored <= explored'
    ensures found.None? ==> AStarInv(g, start, goal, open', closed', gScore', parent')
    ensures found.None? ==> 1 <= |gScore'.Keys| <= explored' && |closed'| <= |AllCells()|
    ensures found.None? ==> |closed'| > |closed| || (closed' == closed && |open'| < |open|)
    ensures found.None? ==> closed <= closed' && |closed' - closed| <= 1
    ensures found.Some? ==> |found.value| < explored'
  {
    found, gScore', parent', explored' := None, gScore, parent, explored;
    ghost var m := MinNodeExists(open);
    var node :| node in open && IsMinNode(open, node);
    var current := node.point;
    open' := open - multiset{node};
    if current in closed {
      AStarSkip(goal, open, closed, gScore, node, open');
      closed' := closed;
      SubsetCardinality(closed, AllCells());
      return;
    }
    closed' := closed + {current};
    assert closed' - closed == {current};
    AStarSettle(g, start, goal, open, closed, gScore, parent, node, open', closed');
    found, open', gScore', parent', explored' := AStarExpand(g, start, goal, current, open', closed', gScore, parent, explored);
  }

  /** The second half of a round: the just-settled `current` is the goal, or its neighbours are relaxed. */
  method AStarExpand(g: Grid, start: Point, goal: Point, current: Point, open: multiset<Node>, closed: set<Point>,
                     gScore: map<Point, nat>, parent: map<Point, Point>, explored: nat)
    returns (found: Option<seq<Point>>, open': multiset<Node>, gScore': map<Point, nat>, parent': map<Point, Point>, explored': nat)
    requires RelaxState(g, start, goal, current, open, closed, gScore, parent)
    requires Settled(g, NotObstacle, start, closed, gScore)
    requires |gScore.Keys| <= explored
    requires goal in closed ==> current == goal
    ensures found.Some? ==> IsShortestWalk(g, NotObstacle, start, goal, found.value) && Reachable(g, NotObstacle, start, goal)
    ensures explored <= explored'
    ensures found.None? ==> AStarInv(g, start, goal, open', closed, gScore', parent')
    ensures found.None? ==> |gScore'.Keys| <= explored' && |closed| <= |AllCells()|
    ensures found.Some? ==> |found.value| < explored'
  {
    if current == goal {
      var p := ReconstructPath(g, NotObstacle, parent, start, goal, gScore);
      AStarFound(g, start, goal, closed, gScore, p);
      PathCellsCounted(start, p, gScore);
      return Some(p), open, gScore, parent, explored;
    }
    found := None;
    open', gScore', parent', explored' := RelaxNeighbours(g, start, goal, current, open, closed, gScore, parent, explored);
    AStarRelaxed(g, start, goal, current, open', closed, gScore', parent');
    SubsetCardinality(closed, AllCells());
  }

  /**
   * A* search from `start` to `goal` through cells that are not obstacles, with
   * unit steps, the Manhattan heuristic and lazily deleted duplicate entries.
   * Which of several entries with the least f-score is polled first is left
   * open.  Returns the path (start excluded, goal included) or None, and the
   * number of entries pushed, the start's included.
   */
  method FindPathAStar(g: Grid, start: Point, goal: Point) returns (path: Option<seq<Point>>, explored: nat)
    requires InBounds(start)
    ensures path.Some? <==> Reachable(g, NotObstacle, start, goal)
    ensures path.Some? ==> IsShortestWalk(g, NotObstacle, start, goal, path.value)
    ensures path.None? ==> explored >= |ReachSet(g, NotObstacle, start)|
    ensures path.Some? ==> explored >= |path.value| + 1
    ensures explored >= 1
  {
    var open: multiset<Node> := multiset{Node(start, Manhattan(start, goal))};
    var closed: set<Point> := {};
    var gScore: map<Point, nat> := map[start := 0];
    var parent: map<Point, Point> := map[];
    explored := 1;
    AStarStart(g, start, goal, open, closed, gScore, parent);
    while |open| > 0
      invariant AStarInv(g, start, goal, open, closed, gScore, parent)
      invariant 1 <= |gScore.Keys| <= explored
      invariant |closed| <= |AllCells()|
      decreases |AllCells()| - |closed|, |open|
    {
      var found;
      found, open, closed, gScore, parent, explored := AStarRound(g, start, goal, open, closed, gScore, parent, explored);
      if found.Some? {
        return found, explored;
      }
    }
    AStarExhausted(g, start, goal, closed, gScore, parent);
    return None, explored;
  }

  /**
   * On a board where the only cell outside EMPTY, TREASURE and OBSTACLE is the
   * start, the breadth-first and A* path searches find a path for the same goals,
   * and paths of the same length.
   */
  method SearchesAgree(g: Grid, start: Point, goal: Point) returns (bfs: Option<seq<Point>>, astar: Option<seq<Point>>)
    requires InBounds(start) && RulesAgreeOffStart(g, start)
    ensures bfs.Some? <==> astar.Some?
    ensures bfs.Some? && astar.Some? ==> |bfs.value| == |astar.value|
  {
    var bfsExplored, aStarExplored;
    bfs, bfsExplored := FindShortestPath(g, start, goal);
    astar, aStarExplored := FindPathAStar(g, start, goal);
    ReachableRulesAgree(g, start, goal);
    if bfs.Some? && astar.Some? {
      ShortestRulesAgree(g, start, goal, bfs.value, astar.value);
    }
  }
}
