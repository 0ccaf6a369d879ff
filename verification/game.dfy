/**
 * The game state and the rules that change it outside the hints: the real
 * board and the player's fogged view of it, moving, clearing hint marks, and
 * the end of the game.
 */
module GameModel {
  import opened Cells
  import opened Grids
  import opened Walks

  const NumTreasures: int := 3
  const MinObstacles: int := 10
  const MaxObstacles: int := 100
  const InitialScore: int := 100
  /** Walking into an obstacle costs this much. */
  const ObstaclePenalty: int := 10
  /** A successful move costs this much. */
  const MoveCost: int := 1
  /** A hint costs this much, once between two moves. */
  const HintCost: int := 3

  /**
   * Everything the engine keeps between two calls.  `visible` is what the player
   * sees; `treasures` the uncollected treasures in placement order; `currentPath`
   * the cells marked as a hint; the last three fields are statistics of the last
   * hint's searches.
   */
  datatype Game = Game(
    grid: Grid,
    visible: Grid,
    player: Point,
    score: int,
    treasuresFound: int,
    treasures: seq<Point>,
    currentPath: seq<Point>,
    hintUsed: bool,
    revealedObstacles: seq<Point>,
    bfsExplored: int,
    aStarExplored: int,
    lastPathLength: int)

  predicate AllInBounds(ps: seq<Point>) {
    forall i :: 0 <= i < |ps| ==> InBounds(ps[i])
  }

  /** What the engine's array accesses need: the player and the hint cells are on the board. */
  predicate Indexable(game: Game) {
    InBounds(game.player) && AllInBounds(game.currentPath)
  }

  /**
   * The real board: the player stands on the only PLAYER cell, there are no
   * hint marks, the TREASURE cells are exactly the listed treasures, listed
   * once each, and every treasure can be reached from the player through cells
   * that are not obstacles.
   */
  ghost predicate BoardValid(grid: Grid, player: Point, treasures: seq<Point>) {
    && InBounds(player) && Get(grid, player) == Player
    && (forall p :: InBounds(p) && p != player ==> Get(grid, p) != Player && Get(grid, p) != PathHint)
    && Distinct(treasures)
    && (forall i :: 0 <= i < |treasures| ==>
          && InBounds(treasures[i]) && Get(grid, treasures[i]) == Treasure
          && Reachable(grid, NotObstacle, player, treasures[i]))
    && (forall p :: InBounds(p) && Get(grid, p) == Treasure ==> p in treasures)
  }

  /**
   * The fogged view: it shows the player where the player is and nowhere else,
   * never shows a treasure, shows an obstacle only where there is one, and shows
   * hint marks only on cells of the current hint.
   */
  ghost predicate FogValid(visible: Grid, grid: Grid, player: Point, currentPath: seq<Point>) {
    forall p :: InBounds(p) ==>
      && (Get(visible, p) == Player <==> p == player)
      && Get(visible, p) != Treasure
      && (Get(visible, p) == Obstacle ==> Get(grid, p) == Obstacle)
      && (Get(visible, p) == PathHint ==> p in currentPath)
  }

  /** The invariant of a game in progress. */
  ghost predicate Valid(game: Game) {
    && BoardValid(game.grid, game.player, game.treasures)
    && FogValid(game.visible, game.grid, game.player, game.currentPath)
    && AllInBounds(game.currentPath)
    && 0 <= game.treasuresFound
    && game.treasuresFound + |game.treasures| == NumTreasures
  }

  /** `allTreasuresFound`. */
  predicate AllTreasuresFound(game: Game) {
    game.treasuresFound == NumTreasures
  }

  /** `isGameOver`: every treasure collected, or the score used up. */
  predicate IsGameOver(game: Game) {
    AllTreasuresFound(game) || game.score <= 0
  }

  /** In a valid game, all treasures are found exactly when none is left on the board. */
  lemma AllFoundIffNoneLeft(game: Game)
    requires Valid(game)
    ensures AllTreasuresFound(game) <==> game.treasures == []
    ensures AllTreasuresFound(game) <==> forall p :: InBounds(p) ==> Get(game.grid, p) != Treasure
  {
    if !AllTreasuresFound(game) {
      assert Get(game.grid, game.treasures[0]) == Treasure;
    }
  }

  /** In a valid game, the game is over exactly when no treasure is left on the board or the score is used up. */
  lemma GameOverIff(game: Game)
    requires Valid(game)
    ensures IsGameOver(game) <==> (forall p :: InBounds(p) ==> Get(game.grid, p) != Treasure) || game.score <= 0
  {
    AllFoundIffNoneLeft(game);
  }

  /**
   * Turning the hint marks on the listed cells back into EMPTY: a listed cell
   * showing PATH_HINT becomes EMPTY, every other cell keeps what it shows.
   */
  function ClearHints(visible: Grid, path: seq<Point>): (r: Grid)
    requires AllInBounds(path)
    ensures forall p :: InBounds(p) ==>
              Get(r, p) == (if p in path && Get(visible, p) == PathHint then Empty else Get(visible, p))
    decreases |path|
  {
    if path == [] then visible
    else
      var p := path[0];
      var v := if Get(visible, p) == PathHint then Set(visible, p, Empty) else visible;
      assert forall q :: q in path <==> q == p || q in path[1..];
      ClearHints(v, path[1..])
  }

  /** `clearPathHints`: removes the marks of the current hint from the view and forgets the hint. */
  function ClearPathHints(game: Game): (r: Game)
    requires AllInBounds(game.currentPath)
    ensures r.currentPath == []
    ensures forall p :: InBounds(p) ==>
              Get(r.visible, p) == (if p in game.currentPath && Get(game.visible, p) == PathHint then Empty else Get(game.visible, p))
    ensures r == game.(visible := r.visible, currentPath := [])
  {
    game.(visible := ClearHints(game.visible, game.currentPath), currentPath := [])
  }

  /** In a valid game, clearing the hint leaves no hint mark anywhere in the view. */
  lemma ClearLeavesNoHint(game: Game)
    requires Valid(game)
    ensures Valid(ClearPathHints(game))
    ensures forall p :: InBounds(p) ==> Get(ClearPathHints(game).visible, p) != PathHint
  {
  }

  /** The treasures other than `q`, in their order (`removeIf`). */
  function RemoveAll(ts: seq<Point>, q: Point): (r: seq<Point>)
    ensures forall p :: p in r <==> p in ts && p != q
    ensures |r| <= |ts|
  {
    if ts == [] then []
    else if ts[0] == q then RemoveAll(ts[1..], q)
    else [ts[0]] + RemoveAll(ts[1..], q)
  }

  /** Removing a listed point from a list without repeats shortens it by one and keeps it without repeats. */
  lemma {:induction false} RemoveListed(ts: seq<Point>, q: Point)
    requires Distinct(ts) && q in ts
    ensures |RemoveAll(ts, q)| == |ts| - 1
    ensures Distinct(RemoveAll(ts, q))
  {
    if ts[0] == q {
      RemoveAbsent(ts[1..], q);
    } else {
      RemoveListed(ts[1..], q);
      var r := RemoveAll(ts[1..], q);
      assert ts[0] !in r;
      assert forall i :: 0 < i < |[ts[0]] + r| ==> ([ts[0]] + r)[i] == r[i - 1];
    }
  }

  /** Removing the point at position `k` of a list without repeats keeps the others in their order. */
  lemma {:induction false} RemoveListedAt(ts: seq<Point>, q: Point, k: int)
    requires Distinct(ts) && 0 <= k < |ts| && ts[k] == q
    ensures RemoveAll(ts, q) == ts[..k] + ts[k + 1..]
  {
    if ts[0] == q {
      assert k == 0;
      RemoveAbsent(ts[1..], q);
      assert ts[..0] + ts[1..] == ts[1..];
    } else {
      assert ts[1..][k - 1] == q;
      RemoveListedAt(ts[1..], q, k - 1);
      assert ts[..k] == [ts[0]] + ts[1..][..k - 1];
      assert ts[k + 1..] == ts[1..][k..];
    }
  }

  /** Removing an unlisted point from a list without repeats changes nothing. */
  lemma {:induction false} RemoveAbsent(ts: seq<Point>, q: Point)
    requires Distinct(ts) && q !in ts
    ensures RemoveAll(ts, q) == ts
  {
    if ts != [] {
      RemoveAbsent(ts[1..], q);
      assert ts == [ts[0]] + ts[1..];
    }
  }

  /**
   * `movePlayer`: clears the hint and resets the hint latch, then tries the
   * step.  Off the board nothing else happens; into an obstacle it costs the
   * penalty and reveals the obstacle; otherwise the player moves, the vacated
   * cell becomes EMPTY in both boards, a treasure there is collected, and the
   * move costs one point.  The flag tells whether a treasure was collected.
   */
  function Move(game: Game, d: Direction): (r: (Game, bool))
    requires Indexable(game)
    ensures var (g', found) := r;
      var q := Step(game.player, d);
      && g'.currentPath == [] && !g'.hintUsed
      && g'.bfsExplored == game.bfsExplored && g'.aStarExplored == game.aStarExplored
      && g'.lastPathLength == game.lastPathLength
      && (!InBounds(q) || Get(game.grid, q) == Obstacle ==>
            && g'.grid == game.grid && g'.player == game.player && !found
            && g'.treasures == game.treasures && g'.treasuresFound == game.treasuresFound)
      && (!InBounds(q) ==> g' == ClearPathHints(game).(hintUsed := false))
      && (InBounds(q) && Get(game.grid, q) == Obstacle ==>
            && g'.score == game.score - ObstaclePenalty
            && Get(g'.visible, q) == Obstacle
            && g'.revealedObstacles == game.revealedObstacles + [q])
      && (InBounds(q) && Get(game.grid, q) != Obstacle ==>
            && g'.score == game.score - MoveCost
            && g'.player == q
            && Get(g'.grid, game.player) == Empty && Get(g'.visible, game.player) == Empty
            && Get(g'.grid, q) == Player && Get(g'.visible, q) == Player
            && (forall p :: InBounds(p) && p != q && p != game.player ==> Get(g'.grid, p) == Get(game.grid, p))
            && (found <==> Get(game.grid, q) == Treasure)
            && g'.treasuresFound == game.treasuresFound + (if found then 1 else 0)
            && g'.treasures == (if found then RemoveAll(game.treasures, q) else game.treasures)
            && g'.revealedObstacles == game.revealedObstacles)
      && (forall p :: InBounds(p) && p != q && (p != game.player || g'.player == game.player) ==>
            Get(g'.visible, p) == Get(ClearPathHints(game).visible, p))
  {
    var cleared := ClearPathHints(game).(hintUsed := false);
    var q := Step(game.player, d);
    if !IsValidPosition(q.x, q.y) then
      (cleared, false)
    else if Get(game.grid, q) == Obstacle then
      (cleared.(score := game.score - ObstaclePenalty,
                visible := Set(cleared.visible, q, Obstacle),
                revealedObstacles := game.revealedObstacles + [q]), false)
    else
      var grid := Set(game.grid, game.player, Empty);
      var visible := Set(cleared.visible, game.player, Empty);
      var found := Get(game.grid, q) == Treasure;
      var visible := if found then Set(visible, q, Treasure) else visible;
      var moved := cleared.(
        grid := Set(grid, q, Player),
        visible := Set(visible, q, Player),
        player := q,
        score := game.score - MoveCost,
        treasuresFound := if found then game.treasuresFound + 1 else game.treasuresFound,
        treasures := if found then RemoveAll(game.treasures, q) else game.treasures);
      (moved, found)
  }

  /**
   * After the player steps from `a` to the neighbouring `q`, with the obstacles
   * unchanged and `a` no longer an obstacle, whatever was reachable from `a` is
   * reachable from `q`: step back onto `a` first.
   */
  lemma StepKeepsReachable(g: Grid, g': Grid, a: Point, q: Point, t: Point)
    requires SameObstacles(g, g')
    requires InBounds(a) && Get(g', a) != Obstacle && Adjacent(a, q)
    requires Reachable(g, NotObstacle, a, t)
    ensures Reachable(g', NotObstacle, q, t)
  {
    var w :| IsWalk(g, NotObstacle, a, w) && EndOf(a, w) == t;
    WalkSameObstacles(g, g', a, w);
    AdjacentSymmetric(a, q);
    WalkPrepend(g', NotObstacle, q, a, w);
  }

  /** A step onto a cell that is not an obstacle keeps the board valid. */
  lemma StepKeepsBoardValid(game: Game, q: Point, g': Grid, ts': seq<Point>)
    requires Valid(game)
    requires InBounds(q) && Adjacent(game.player, q) && Get(game.grid, q) != Obstacle
    requires g' == Set(Set(game.grid, game.player, Empty), q, Player)
    requires ts' == if Get(game.grid, q) == Treasure then RemoveAll(game.treasures, q) else game.treasures
    ensures BoardValid(g', q, ts')
    ensures |ts'| == |game.treasures| - (if Get(game.grid, q) == Treasure then 1 else 0)
  {
    var a := game.player;
    assert SameObstacles(game.grid, g');
    if Get(game.grid, q) == Treasure {
      RemoveListed(game.treasures, q);
    }
    forall i | 0 <= i < |ts'|
      ensures InBounds(ts'[i]) && Get(g', ts'[i]) == Treasure && Reachable(g', NotObstacle, q, ts'[i])
    {
      var t := ts'[i];
      assert t in game.treasures;
      var k :| 0 <= k < |game.treasures| && game.treasures[k] == t;
      StepKeepsReachable(game.grid, g', a, q, t);
    }
  }

  /** Every move keeps a valid game valid, and with it the count of found and remaining treasures. */
  lemma MovePreservesValid(game: Game, d: Direction)
    requires Valid(game)
    ensures Valid(Move(game, d).0)
  {
    var (g', found) := Move(game, d);
    var q := Step(game.player, d);
    ClearLeavesNoHint(game);
    if InBounds(q) && Get(game.grid, q) != Obstacle {
      StepKeepsBoardValid(game, q, g'.grid, g'.treasures);
      AdjacentIrreflexive(q);
    }
  }
}
