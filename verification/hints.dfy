/**
 * The two hint operations: search for every remaining treasure, keep the
 * nearest one (the first in list order among equally near ones), and mark only
 * the first step towards it in the player's view.  A hint is charged once
 * between two moves.
 */
module Hints {
  import opened Cells
  import opened Grids
  import opened Walks
  import opened Options
  import opened Search
  import opened GameModel

  /** Which search a hint runs. */
  datatype Algorithm = BreadthFirst | AStar

  /** The cells each search may step onto. */
  function RuleOf(a: Algorithm): (rule: WalkRule)
    ensures a == BreadthFirst <==> rule == EmptyOrTreasure
  {
    match a
    case BreadthFirst => EmptyOrTreasure
    case AStar => NotObstacle
  }

  /** The exploration counter of `a`'s search, as the game records it. */
  function Explored(game: Game, a: Algorithm): int {
    match a
    case BreadthFirst => game.bfsExplored
    case AStar => game.aStarExplored
  }

  /** The game with `a`'s exploration counter set to `n`; the other counter is untouched. */
  function WithExplored(game: Game, a: Algorithm, n: int): (r: Game)
    ensures Explored(r, a) == n
    ensures r.(bfsExplored := game.bfsExplored, aStarExplored := game.aStarExplored) == game
    ensures a == BreadthFirst ==> r.aStarExplored == game.aStarExplored
    ensures a == AStar ==> r.bfsExplored == game.bfsExplored
  {
    match a
    case BreadthFirst => game.(bfsExplored := n)
    case AStar => game.(aStarExplored := n)
  }

  /** What the exploration counter of one search promises about the cells reachable from its start. */
  ghost predicate ExploredBound(g: Grid, a: Algorithm, s: Point, found: bool, explored: int) {
    match a
    case BreadthFirst =>
      && 1 <= explored <= |ReachSet(g, EmptyOrTreasure, s)|
      && (!found ==> explored == |ReachSet(g, EmptyOrTreasure, s)|)
    case AStar =>
      && 1 <= explored
      && (!found ==> explored >= |ReachSet(g, NotObstacle, s)|)
  }

  /**
   * What the exploration counter of a search that found a path of `len` steps
   * promises: the breadth-first search has queued every cell within `len` steps
   * of the start, and A* has pushed at least every cell of the path and the start.
   */
  ghost predicate PathCountBound(g: Grid, a: Algorithm, s: Point, len: int, explored: int) {
    match a
    case BreadthFirst => |WithinSet(g, EmptyOrTreasure, s, len)| <= explored
    case AStar => len < explored
  }

  /** One search of a hint: `findShortestPath` or `findPathAStar`, with its exploration counter. */
  method RunSearch(g: Grid, a: Algorithm, s: Point, t: Point) returns (path: Option<seq<Point>>, explored: nat)
    requires InBounds(s)
    ensures path.Some? <==> Reachable(g, RuleOf(a), s, t)
    ensures path.Some? ==> IsShortestWalk(g, RuleOf(a), s, t, path.value)
    ensures ExploredBound(g, a, s, path.Some?, explored)
    ensures path.Some? ==> PathCountBound(g, a, s, |path.value|, explored)
  {
    match a
    case BreadthFirst =>
      path, explored := FindShortestPath(g, s, t);
    case AStar =>
      path, explored := FindPathAStar(g, s, t);
  }

  /** The fewest steps from `s` to `e` is exactly `d`. */
  ghost predicate DistanceIs(g: Grid, rule: WalkRule, s: Point, e: Point, d: int) {
    ReachableWithin(g, rule, s, e, d) && !ReachableWithin(g, rule, s, e, d - 1)
  }

  /**
   * Among the first `k` treasures, `ts[i]` is the nearest and `d` its distance:
   * every earlier one is farther, every later one at least as far.
   */
  ghost predicate NearestAmong(g: Grid, rule: WalkRule, s: Point, ts: seq<Point>, k: int, i: int, d: int) {
    && 0 <= i < k <= |ts|
    && DistanceIs(g, rule, s, ts[i], d)
    && (forall j :: 0 <= j < i ==> !ReachableWithin(g, rule, s, ts[j], d))
    && (forall j :: i < j < k ==> !ReachableWithin(g, rule, s, ts[j], d - 1))
  }

  /** The treasure a hint aims at: the first, in list order, of the nearest reachable treasures. */
  ghost predicate NearestTreasure(g: Grid, rule: WalkRule, s: Point, ts: seq<Point>, i: int, d: int) {
    NearestAmong(g, rule, s, ts, |ts|, i, d)
  }

  /**
   * `len` is the last path length the search loop records after the first `k`
   * treasures: the distance to the last reachable one among them, or `len0`
   * when none of them is reachable.
   */
  ghost predicate LastLength(g: Grid, rule: WalkRule, s: Point, ts: seq<Point>, k: int, len: int, len0: int)
    requires 0 <= k <= |ts|
    decreases k
  {
    if k == 0 then len == len0
    else if Reachable(g, rule, s, ts[k - 1]) then DistanceIs(g, rule, s, ts[k - 1], len)
    else LastLength(g, rule, s, ts, k - 1, len, len0)
  }

  ghost predicate NoneReachable(g: Grid, rule: WalkRule, s: Point, ts: seq<Point>, k: int)
    requires 0 <= k <= |ts|
  {
    forall j :: 0 <= j < k ==> !Reachable(g, rule, s, ts[j])
  }

  /** A shortest walk measures the distance. */
  lemma ShortestIsDistance(g: Grid, rule: WalkRule, s: Point, e: Point, w: seq<Point>)
    requires IsShortestWalk(g, rule, s, e, w)
    ensures DistanceIs(g, rule, s, e, |w|)
  {
  }

  /** Being reachable within some bound implies being reachable within any larger one, and being reachable. */
  lemma WithinMonotone(g: Grid, rule: WalkRule, s: Point, e: Point)
    ensures forall n, m :: n <= m && ReachableWithin(g, rule, s, e, n) ==> ReachableWithin(g, rule, s, e, m)
    ensures forall n :: ReachableWithin(g, rule, s, e, n) ==> Reachable(g, rule, s, e)
  {
  }

  /** The nearest treasure and its distance are determined by the board: a hint has a single target. */
  lemma NearestTreasureUnique(g: Grid, rule: WalkRule, s: Point, ts: seq<Point>, i: int, d: int, i': int, d': int)
    requires NearestTreasure(g, rule, s, ts, i, d)
    requires NearestTreasure(g, rule, s, ts, i', d')
    ensures i == i' && d == d'
  {
    WithinMonotone(g, rule, s, ts[i]);
    WithinMonotone(g, rule, s, ts[i']);
  }

  /** One round of the search loop of a hint: keep the best path so far, replace it only by a strictly shorter one. */
  lemma NearestStep(g: Grid, rule: WalkRule, s: Point, ts: seq<Point>, k: int,
                    best: Option<(int, seq<Point>)>, path: Option<seq<Point>>)
    requires 0 <= k < |ts|
    requires best.None? ==> NoneReachable(g, rule, s, ts, k)
    requires best.Some? ==> NearestAmong(g, rule, s, ts, k, best.value.0, |best.value.1|)
    requires path.Some? <==> Reachable(g, rule, s, ts[k])
    requires path.Some? ==> IsShortestWalk(g, rule, s, ts[k], path.value)
    ensures var best' := if path.Some? && (best.None? || |path.value| < |best.value.1|) then Some((k, path.value)) else best;
      && (best'.None? ==> NoneReachable(g, rule, s, ts, k + 1))
      && (best'.Some? ==> NearestAmong(g, rule, s, ts, k + 1, best'.value.0, |best'.value.1|))
  {
    if path.Some? {
      if best.None? || |path.value| < |best.value.1| {
        NearestReplace(g, rule, s, ts, k, best, path.value);
      } else {
        NearestKeep(g, rule, s, ts, k, best.value.0, |best.value.1|);
      }
    } else if best.Some? {
      NearestKeep(g, rule, s, ts, k, best.value.0, |best.value.1|);
    } else {
      WithinMonotone(g, rule, s, ts[k]);
    }
  }

  /** A treasure strictly nearer than all earlier ones becomes the nearest so far. */
  lemma NearestReplace(g: Grid, rule: WalkRule, s: Point, ts: seq<Point>, k: int,
                       best: Option<(int, seq<Point>)>, w: seq<Point>)
    requires 0 <= k < |ts|
    requires best.None? ==> NoneReachable(g, rule, s, ts, k)
    requires best.Some? ==> NearestAmong(g, rule, s, ts, k, best.value.0, |best.value.1|) && |w| < |best.value.1|
    requires IsShortestWalk(g, rule, s, ts[k], w)
    ensures NearestAmong(g, rule, s, ts, k + 1, k, |w|)
  {
    ShortestIsDistance(g, rule, s, ts[k], w);
    forall j | 0 <= j < k
      ensures !ReachableWithin(g, rule, s, ts[j], |w|)
    {
      WithinMonotone(g, rule, s, ts[j]);
    }
  }

  /** A treasure no nearer than the nearest so far leaves it the nearest. */
  lemma NearestKeep(g: Grid, rule: WalkRule, s: Point, ts: seq<Point>, k: int, i: int, d: int)
    requires 0 <= k < |ts|
    requires NearestAmong(g, rule, s, ts, k, i, d)
    requires !ReachableWithin(g, rule, s, ts[k], d - 1) || !Reachable(g, rule, s, ts[k])
    ensures NearestAmong(g, rule, s, ts, k + 1, i, d)
  {
    WithinMonotone(g, rule, s, ts[k]);
  }

  /**
   * The state of the search loop of a hint after the first `k` treasures: the
   * best path so far, and the counter and last length of the latest searches.
   */
  ghost predicate NearestLoop(g: Grid, a: Algorithm, s: Point, ts: seq<Point>, k: int,
                              best: Option<(int, seq<Point>)>, explored: int, lastLength: int,
                              explored0: int, lastLength0: int) {
    && 0 <= k <= |ts|
    && (best.None? ==> NoneReachable(g, RuleOf(a), s, ts, k) && lastLength == lastLength0)
    && (best.Some? ==>
          && NearestAmong(g, RuleOf(a), s, ts, k, best.value.0, |best.value.1|)
          && IsShortestWalk(g, RuleOf(a), s, ts[best.value.0], best.value.1))
    && (k == 0 ==> explored == explored0)
    && (k > 0 ==> ExploredBound(g, a, s, Reachable(g, RuleOf(a), s, ts[k - 1]), explored))
    && LastLength(g, RuleOf(a), s, ts, k, lastLength, lastLength0)
    && (k > 0 && Reachable(g, RuleOf(a), s, ts[k - 1]) ==> PathCountBound(g, a, s, lastLength, explored))
  }

  /**
   * One round of the search loop of a hint: search for treasure `k`, record the
   * counter and, on success, the path length, and keep the path when it is
   * strictly shorter than the best so far.
   */
  method NearestRound(g: Grid, a: Algorithm, s: Point, ts: seq<Point>, k: int,
                      best: Option<(int, seq<Point>)>, explored: int, lastLength: int,
                      ghost explored0: int, ghost lastLength0: int)
    returns (best': Option<(int, seq<Point>)>, explored': int, lastLength': int)
    requires InBounds(s) && k < |ts|
    requires NearestLoop(g, a, s, ts, k, best, explored, lastLength, explored0, lastLength0)
    ensures NearestLoop(g, a, s, ts, k + 1, best', explored', lastLength', explored0, lastLength0)
  {
    var path, n := RunSearch(g, a, s, ts[k]);
    explored', best', lastLength' := n, best, lastLength;
    NearestStep(g, RuleOf(a), s, ts, k, best, path);
    if path.Some? {
      lastLength' := |path.value|;
      ShortestIsDistance(g, RuleOf(a), s, ts[k], path.value);
      if best.None? || |path.value| < |best.value.1| {
        best' := Some((k, path.value));
      }
    }
  }

  /**
   * The search loop of a hint: runs `a`'s search from `s` to every treasure in
   * order.  Each search resets the exploration counter and, when it finds a
   * path, overwrites the last path length; so both end up describing the last
   * search, not the chosen one.  Returns the index and path of the first
   * strictly shortest path, if any.
   */
  method FindNearest(g: Grid, a: Algorithm, s: Point, ts: seq<Point>, explored0: int, lastLength0: int)
    returns (best: Option<(int, seq<Point>)>, explored: int, lastLength: int)
    requires InBounds(s)
    ensures best.None? ==> NoneReachable(g, RuleOf(a), s, ts, |ts|) && lastLength == lastLength0
    ensures best.Some? ==>
              && NearestTreasure(g, RuleOf(a), s, ts, best.value.0, |best.value.1|)
              && IsShortestWalk(g, RuleOf(a), s, ts[best.value.0], best.value.1)
    ensures |ts| == 0 ==> explored == explored0
    ensures |ts| > 0 ==> ExploredBound(g, a, s, Reachable(g, RuleOf(a), s, ts[|ts| - 1]), explored)
    ensures && LastLength(g, RuleOf(a), s, ts, |ts|, lastLength, lastLength0)
            && (|ts| > 0 && Reachable(g, RuleOf(a), s, ts[|ts| - 1]) ==> PathCountBound(g, a, s, lastLength, explored))
  {
    best, explored, lastLength := NearestRounds(g, a, s, ts, explored0, lastLength0);
    NearestLoopDone(g, a, s, ts, best, explored, lastLength, explored0, lastLength0);
  }

  /** The rounds of the search loop of a hint, over every treasure in order. */
  method NearestRounds(g: Grid, a: Algorithm, s: Point, ts: seq<Point>, explored0: int, lastLength0: int)
    returns (best: Option<(int, seq<Point>)>, explored: int, lastLength: int)
    requires InBounds(s)
    ensures NearestLoop(g, a, s, ts, |ts|, best, explored, lastLength, explored0, lastLength0)
  {
    NearestLoopStart(g, a, s, ts, explored0, lastLength0);
    best, explored, lastLength := NearestRoundsFrom(g, a, s, ts, 0, None, explored0, lastLength0, explored0, lastLength0);
  }

  /** The rounds of the search loop of a hint from treasure `k` on. */
  method NearestRoundsFrom(g: Grid, a: Algorithm, s: Point, ts: seq<Point>, k: nat,
                           best0: Option<(int, seq<Point>)>, explored1: int, lastLength1: int,
                           ghost explored0: int, ghost lastLength0: int)
    returns (best: Option<(int, seq<Point>)>, explored: int, lastLength: int)
    requires InBounds(s) && k <= |ts|
    requires NearestLoop(g, a, s, ts, k, best0, explored1, lastLength1, explored0, lastLength0)
    ensures NearestLoop(g, a, s, ts, |ts|, best, explored, lastLength, explored0, lastLength0)
    decreases |ts| - k
  {
    if k == |ts| {
      return best0, explored1, lastLength1;
    }
    best, explored, lastLength := NearestRound(g, a, s, ts, k, best0, explored1, lastLength1, explored0, lastLength0);
    best, explored, lastLength := NearestRoundsFrom(g, a, s, ts, k + 1, best, explored, lastLength, explored0, lastLength0);
  }

  /** Before the first round, nothing is found and the counter and last length are as given. */
  lemma NearestLoopStart(g: Grid, a: Algorithm, s: Point, ts: seq<Point>, explored0: int, lastLength0: int)
    ensures NearestLoop(g, a, s, ts, 0, None, explored0, lastLength0, explored0, lastLength0)
  {
  }

  /** The search loop's state after every treasure, read as the result of the whole loop. */
  lemma NearestLoopDone(g: Grid, a: Algorithm, s: Point, ts: seq<Point>,
                        best: Option<(int, seq<Point>)>, explored: int, lastLength: int, explored0: int, lastLength0: int)
    requires NearestLoop(g, a, s, ts, |ts|, best, explored, lastLength, explored0, lastLength0)
    ensures best.None? ==> NoneReachable(g, RuleOf(a), s, ts, |ts|) && lastLength == lastLength0
    ensures best.Some? ==>
              && NearestTreasure(g, RuleOf(a), s, ts, best.value.0, |best.value.1|)
              && IsShortestWalk(g, RuleOf(a), s, ts[best.value.0], best.value.1)
    ensures |ts| == 0 ==> explored == explored0
    ensures |ts| > 0 ==> ExploredBound(g, a, s, Reachable(g, RuleOf(a), s, ts[|ts| - 1]), explored)
    ensures LastLength(g, RuleOf(a), s, ts, |ts|, lastLength, lastLength0)
    ensures |ts| > 0 && Reachable(g, RuleOf(a), s, ts[|ts| - 1]) ==> PathCountBound(g, a, s, lastLength, explored)
  {
  }

  /** The controller lets a hint through only with enough points and a treasure left. */
  predicate HintAllowed(game: Game) {
    game.score >= HintCost && !AllTreasuresFound(game)
  }

  /**
   * `showHintBFS` and `showHintAStar`: clear the old hint; with treasures left,
   * search for each, and when the nearest one has a non-empty path mark its
   * first step, record the path's length and charge the hint unless it was
   * already charged since the last move.  The flag tells whether a hint was
   * shown.
   */
  method ShowHint(game: Game, a: Algorithm) returns (r: Game, shown: bool)
    requires Indexable(game) && HintAllowed(game)
    ensures Indexable(r)
    ensures r.score == game.score - (if shown && !game.hintUsed then HintCost else 0)
    ensures r.hintUsed == (shown || game.hintUsed)
    ensures r.grid == game.grid && r.player == game.player && r.treasures == game.treasures
    ensures r.treasuresFound == game.treasuresFound && r.revealedObstacles == game.revealedObstacles
    ensures a == BreadthFirst ==> r.aStarExplored == game.aStarExplored
    ensures a == AStar ==> r.bfsExplored == game.bfsExplored
    ensures game.treasures == [] ==> Explored(r, a) == Explored(game, a)
    ensures game.treasures != [] ==>
              ExploredBound(game.grid, a, game.player,
                            Reachable(game.grid, RuleOf(a), game.player, game.treasures[|game.treasures| - 1]), Explored(r, a))
    ensures shown <==> exists i, d :: NearestTreasure(game.grid, RuleOf(a), game.player, game.treasures, i, d) && d > 0
    ensures NoneReachable(game.grid, RuleOf(a), game.player, game.treasures, |game.treasures|) ==>
              r.lastPathLength == game.lastPathLength
    ensures shown ==>
              && |r.currentPath| == 1
              && Adjacent(game.player, r.currentPath[0]) && InBounds(r.currentPath[0])
              && Walkable(RuleOf(a), Get(game.grid, r.currentPath[0]))
              && (exists i :: NearestTreasure(game.grid, RuleOf(a), game.player, game.treasures, i, r.lastPathLength)
                               && ReachableWithin(game.grid, RuleOf(a), r.currentPath[0], game.treasures[i], r.lastPathLength - 1))
              && r.visible == Set(ClearPathHints(game).visible, r.currentPath[0], PathHint)
              && r.score == game.score - (if game.hintUsed then 0 else HintCost)
              && r.hintUsed
    ensures !shown ==>
              && r.currentPath == [] && r.visible == ClearPathHints(game).visible
              && r.score == game.score && r.hintUsed == game.hintUsed
    ensures (&& game.treasures != []
             && (forall j :: 0 <= j < |game.treasures| ==> game.treasures[j] != game.player)
             && (exists j :: 0 <= j < |game.treasures| && Reachable(game.grid, RuleOf(a), game.player, game.treasures[j])))
            ==> shown
  {
    r := ClearPathHints(game);
    if r.treasures == [] {
      shown := false;
      return;
    }
    r, shown := SearchAndMark(r, a);
  }

  /** In a valid game the controller lets through, a hint is always shown and the game stays valid. */
  method ValidHint(game: Game, a: Algorithm) returns (r: Game, shown: bool)
    requires Valid(game) && HintAllowed(game)
    ensures shown && Valid(r)
  {
    HintHasTarget(game, a);
    r, shown := ShowHint(game, a);
    HintResultValid(game, a, r);
  }

  /** A hint shown on a valid game, as `ShowHint` describes it, leaves the game valid. */
  lemma HintResultValid(game: Game, a: Algorithm, r: Game)
    requires Valid(game)
    requires r.grid == game.grid && r.player == game.player
    requires r.treasures == game.treasures && r.treasuresFound == game.treasuresFound
    requires |r.currentPath| == 1 && InBounds(r.currentPath[0]) && Adjacent(game.player, r.currentPath[0])
    requires Walkable(RuleOf(a), Get(game.grid, r.currentPath[0]))
    requires r.visible == Set(ClearPathHints(game).visible, r.currentPath[0], PathHint)
    ensures Valid(r)
  {
    ClearLeavesNoHint(game);
    MarkedHintValid(ClearPathHints(game), r, r.currentPath[0]);
  }

  /**
   * In a valid game the controller lets through, a hint has something to aim
   * at: a treasure is left, none lies under the player, and one can be reached
   * by either search (the only cell where the two searches' rules differ is the
   * player's own).
   */
  lemma HintHasTarget(game: Game, a: Algorithm)
    requires Valid(game) && HintAllowed(game)
    ensures RulesAgreeOffStart(game.grid, game.player)
    ensures game.treasures != []
    ensures forall j :: 0 <= j < |game.treasures| ==> game.treasures[j] != game.player
    ensures exists j :: 0 <= j < |game.treasures| && Reachable(game.grid, RuleOf(a), game.player, game.treasures[j])
  {
    AllFoundIffNoneLeft(game);
    ReachableRulesAgree(game.grid, game.player, game.treasures[0]);
  }

  /** Marking one cell next to the player, on a cleared view of a valid game, keeps the game valid. */
  lemma MarkedHintValid(c: Game, r: Game, next: Point)
    requires Valid(c) && c.currentPath == []
    requires forall p :: InBounds(p) ==> Get(c.visible, p) != PathHint
    requires InBounds(next) && Adjacent(c.player, next) && Get(c.grid, next) != Obstacle
    requires r.grid == c.grid && r.player == c.player && r.treasures == c.treasures && r.treasuresFound == c.treasuresFound
    requires r.currentPath == [next] && r.visible == Set(c.visible, next, PathHint)
    ensures Valid(r)
  {
    AdjacentIrreflexive(c.player);
  }

  /** The part of a hint after the old hint is cleared, when treasures are left. */
  method SearchAndMark(c: Game, a: Algorithm) returns (r: Game, shown: bool)
    requires InBounds(c.player) && c.currentPath == [] && c.treasures != []
    ensures Indexable(r)
    ensures r.score == c.score - (if shown && !c.hintUsed then HintCost else 0)
    ensures r.hintUsed == (shown || c.hintUsed)
    ensures r.grid == c.grid && r.player == c.player && r.treasures == c.treasures
    ensures r.treasuresFound == c.treasuresFound && r.revealedObstacles == c.revealedObstacles
    ensures a == BreadthFirst ==> r.aStarExplored == c.aStarExplored
    ensures a == AStar ==> r.bfsExplored == c.bfsExplored
    ensures ExploredBound(c.grid, a, c.player, Reachable(c.grid, RuleOf(a), c.player, c.treasures[|c.treasures| - 1]), Explored(r, a))
    ensures shown <==> exists i, d :: NearestTreasure(c.grid, RuleOf(a), c.player, c.treasures, i, d) && d > 0
    ensures NoneReachable(c.grid, RuleOf(a), c.player, c.treasures, |c.treasures|) ==> r.lastPathLength == c.lastPathLength
    ensures shown ==>
              && |r.currentPath| == 1
              && Adjacent(c.player, r.currentPath[0]) && InBounds(r.currentPath[0])
              && Walkable(RuleOf(a), Get(c.grid, r.currentPath[0]))
              && (exists i :: NearestTreasure(c.grid, RuleOf(a), c.player, c.treasures, i, r.lastPathLength)
                               && ReachableWithin(c.grid, RuleOf(a), r.currentPath[0], c.treasures[i], r.lastPathLength - 1))
              && r.visible == Set(c.visible, r.currentPath[0], PathHint)
              && r.score == c.score - (if c.hintUsed then 0 else HintCost)
              && r.hintUsed
    ensures !shown ==> r.currentPath == [] && r.visible == c.visible && r.score == c.score && r.hintUsed == c.hintUsed
    ensures ((forall j :: 0 <= j < |c.treasures| ==> c.treasures[j] != c.player) &&
             (exists j :: 0 <= j < |c.treasures| && Reachable(c.grid, RuleOf(a), c.player, c.treasures[j]))) ==> shown
  {
    var best, explored, lastLength := FindNearest(c.grid, a, c.player, c.treasures, Explored(c, a), c.lastPathLength);
    r, shown := ShowNearest(WithExplored(c, a, explored).(lastPathLength := lastLength), a, best);
  }

  /**
   * Marking the result of the search loop: the first step of the nearest
   * treasure's path when that path is not empty.  `c` already carries the
   * counters of the search loop.
   */
  method ShowNearest(c: Game, a: Algorithm, best: Option<(int, seq<Point>)>) returns (r: Game, shown: bool)
    requires InBounds(c.player) && c.currentPath == []
    requires best.None? ==> NoneReachable(c.grid, RuleOf(a), c.player, c.treasures, |c.treasures|)
    requires best.Some? ==>
               && NearestTreasure(c.grid, RuleOf(a), c.player, c.treasures, best.value.0, |best.value.1|)
               && IsShortestWalk(c.grid, RuleOf(a), c.player, c.treasures[best.value.0], best.value.1)
    ensures Indexable(r)
    ensures r.score == c.score - (if shown && !c.hintUsed then HintCost else 0)
    ensures r.hintUsed == (shown || c.hintUsed)
    ensures r.grid == c.grid && r.player == c.player && r.treasures == c.treasures
    ensures r.treasuresFound == c.treasuresFound && r.revealedObstacles == c.revealedObstacles
    ensures r.bfsExplored == c.bfsExplored && r.aStarExplored == c.aStarExplored
    ensures shown <==> exists i, d :: NearestTreasure(c.grid, RuleOf(a), c.player, c.treasures, i, d) && d > 0
    ensures shown ==>
              && |r.currentPath| == 1
              && Adjacent(c.player, r.currentPath[0]) && InBounds(r.currentPath[0])
              && Walkable(RuleOf(a), Get(c.grid, r.currentPath[0]))
              && (exists i :: NearestTreasure(c.grid, RuleOf(a), c.player, c.treasures, i, r.lastPathLength)
                               && ReachableWithin(c.grid, RuleOf(a), r.currentPath[0], c.treasures[i], r.lastPathLength - 1))
              && r.visible == Set(c.visible, r.currentPath[0], PathHint)
              && r.score == c.score - (if c.hintUsed then 0 else HintCost)
              && r.hintUsed
    ensures !shown ==> r == c
    ensures ((forall j :: 0 <= j < |c.treasures| ==> c.treasures[j] != c.player) &&
             (exists j :: 0 <= j < |c.treasures| && Reachable(c.grid, RuleOf(a), c.player, c.treasures[j]))) ==> shown
  {
    if best.Some? && |best.value.1| > 0 {
      var (i, path) := best.value;
      FirstStepTowards(c.grid, RuleOf(a), c.player, c.treasures[i], path);
      r := MarkFirstStep(c, path[0], |path|);
      shown := true;
    } else {
      r, shown := c, false;
      NoHintWithoutNearest(c.grid, RuleOf(a), c.player, c.treasures, best);
    }
  }

  /** The first step of a shortest walk is a legal step, and the rest of the walk is one step shorter. */
  lemma FirstStepTowards(g: Grid, rule: WalkRule, s: Point, t: Point, path: seq<Point>)
    requires IsShortestWalk(g, rule, s, t, path) && |path| > 0
    ensures Adjacent(s, path[0]) && InBounds(path[0]) && Walkable(rule, Get(g, path[0]))
    ensures ReachableWithin(g, rule, path[0], t, |path| - 1)
  {
    WalkStep(g, rule, s, path, 0);
    WalkSuffix(g, rule, s, path, 1);
    assert IsWalk(g, rule, path[0], path[1..]) && EndOf(path[0], path[1..]) == t;
  }

  /** When the search loop finds no non-empty path, no treasure is nearest at a positive distance. */
  lemma NoHintWithoutNearest(g: Grid, rule: WalkRule, s: Point, ts: seq<Point>, best: Option<(int, seq<Point>)>)
    requires best.None? ==> NoneReachable(g, rule, s, ts, |ts|)
    requires best.Some? ==> NearestTreasure(g, rule, s, ts, best.value.0, |best.value.1|) && |best.value.1| == 0
    ensures !exists i, d :: NearestTreasure(g, rule, s, ts, i, d) && d > 0
  {
    forall i, d | NearestTreasure(g, rule, s, ts, i, d)
      ensures d <= 0
    {
      if best.Some? {
        NearestTreasureUnique(g, rule, s, ts, i, d, best.value.0, |best.value.1|);
      } else {
        WithinMonotone(g, rule, s, ts[i]);
      }
    }
  }

  /**
   * Showing a hint at `next` for a path of `length` cells: mark it in the view
   * unless it is a hidden obstacle, record the length, and charge the hint
   * unless it was charged since the last move.
   */
  function MarkFirstStep(game: Game, next: Point, length: int): (r: Game)
    requires InBounds(next)
    ensures r.lastPathLength == length && r.hintUsed
    ensures r.score == game.score - (if game.hintUsed then 0 else HintCost)
    ensures Get(game.grid, next) != Obstacle || Get(game.visible, next) == Obstacle ==>
              r.visible == Set(game.visible, next, PathHint) && r.currentPath == game.currentPath + [next]
    ensures Get(game.grid, next) == Obstacle && Get(game.visible, next) != Obstacle ==>
              r.visible == game.visible && r.currentPath == game.currentPath
    ensures r == game.(visible := r.visible, currentPath := r.currentPath, lastPathLength := length,
                       score := r.score, hintUsed := true)
  {
    var marked :=
      if Get(game.grid, next) != Obstacle || Get(game.visible, next) == Obstacle then
        game.(visible := Set(game.visible, next, PathHint), currentPath := game.currentPath + [next])
      else game;
    var measured := marked.(lastPathLength := length);
    if !measured.hintUsed then measured.(score := measured.score - HintCost, hintUsed := true) else measured
  }

  /** When the rules agree off the start, both searches see the same nearest treasure at the same distance. */
  lemma NearestRulesAgree(g: Grid, s: Point, ts: seq<Point>, i: int, d: int)
    requires RulesAgreeOffStart(g, s)
    ensures NearestTreasure(g, EmptyOrTreasure, s, ts, i, d) <==> NearestTreasure(g, NotObstacle, s, ts, i, d)
  {
    forall j | 0 <= j < |ts|
      ensures ReachableWithin(g, EmptyOrTreasure, s, ts[j], d) <==> ReachableWithin(g, NotObstacle, s, ts[j], d)
      ensures ReachableWithin(g, EmptyOrTreasure, s, ts[j], d - 1) <==> ReachableWithin(g, NotObstacle, s, ts[j], d - 1)
    {
      WithinRulesAgree(g, s, ts[j], d);
      WithinRulesAgree(g, s, ts[j], d - 1);
    }
  }

  /**
   * On a valid game, `showHintBFS` and `showHintAStar` aim at the same treasure:
   * they record the same path length and charge the same, and each marks a
   * cell one step nearer to that treasure.
   */
  method HintsAgree(game: Game) returns (byBfs: Game, byAStar: Game)
    requires Valid(game) && HintAllowed(game)
    ensures byBfs.lastPathLength == byAStar.lastPathLength && byBfs.score == byAStar.score
    ensures |byBfs.currentPath| == 1 && |byAStar.currentPath| == 1
    ensures exists i ::
              && NearestTreasure(game.grid, NotObstacle, game.player, game.treasures, i, byAStar.lastPathLength)
              && ReachableWithin(game.grid, EmptyOrTreasure, byBfs.currentPath[0], game.treasures[i], byBfs.lastPathLength - 1)
              && ReachableWithin(game.grid, NotObstacle, byAStar.currentPath[0], game.treasures[i], byAStar.lastPathLength - 1)
  {
    HintHasTarget(game, BreadthFirst);
    HintHasTarget(game, AStar);
    var shownBfs, shownAStar;
    byBfs, shownBfs := ShowHint(game, BreadthFirst);
    byAStar, shownAStar := ShowHint(game, AStar);
    ghost var i :| NearestTreasure(game.grid, EmptyOrTreasure, game.player, game.treasures, i, byBfs.lastPathLength)
             && ReachableWithin(game.grid, EmptyOrTreasure, byBfs.currentPath[0], game.treasures[i], byBfs.lastPathLength - 1);
    ghost var i' :| NearestTreasure(game.grid, NotObstacle, game.player, game.treasures, i', byAStar.lastPathLength)
              && ReachableWithin(game.grid, NotObstacle, byAStar.currentPath[0], game.treasures[i'], byAStar.lastPathLength - 1);
    NearestRulesAgree(game.grid, game.player, game.treasures, i, byBfs.lastPathLength);
    NearestTreasureUnique(game.grid, NotObstacle, game.player, game.treasures, i, byBfs.lastPathLength, i', byAStar.lastPathLength);
  }

  /**
   * Two hints in a row, each let through by the controller, with no move in
   * between: together they cost at most one hint's price, and exactly that
   * when the first is shown and no hint was charged since the last move.
   */
  method HintTwice(game: Game, a: Algorithm, b: Algorithm) returns (first: Game, second: Game)
    requires Indexable(game) && HintAllowed(game)
    ensures game.score - HintCost <= second.score <= game.score
    ensures first.score < game.score ==> second.score == first.score
    ensures game.hintUsed ==> second.score == game.score
    ensures !game.hintUsed && (exists i, d :: NearestTreasure(game.grid, RuleOf(a), game.player, game.treasures, i, d) && d > 0) ==>
              second.score == game.score - HintCost
    ensures Valid(game) && !game.hintUsed ==> second.score == game.score - HintCost
  {
    if Valid(game) {
      HintHasTarget(game, a);
    }
    var shown;
    first, shown := ShowHint(game, a);
    if HintAllowed(first) {
      second, shown := ShowHint(first, b);
    } else {
      second := first;
    }
  }
}
