/**
 * Building a new board: the player in the centre, hidden obstacles at drawn
 * cells, and three treasures at drawn cells that the player can reach.  The
 * engine's random generator is replaced by the sequences of cells it would
 * draw.
 */
module Generation {
  import opened Cells
  import opened Grids
  import opened Walks
  import opened Options
  import opened Search
  import opened GameModel

  /** Where a new game puts the player: the centre of the board. */
  const PlayerStart: Point := Point(GridSize / 2, GridSize / 2)

  /** The cells of `g` holding an obstacle. */
  function ObstacleCells(g: Grid): (cells: set<Point>)
    ensures forall p :: p in cells <==> InBounds(p) && Get(g, p) == Obstacle
  {
    set p | p in AllCells() && Get(g, p) == Obstacle
  }

  /** An empty board with the player alone in the given cell. */
  function PlayerOnly(player: Point): (g: Grid)
    requires InBounds(player)
    ensures forall p :: InBounds(p) ==> Get(g, p) == (if p == player then Player else Empty)
  {
    Set(Fill(Empty), player, Player)
  }

  /**
   * The obstacle loop of `generateMap`: each drawn cell becomes an obstacle
   * when it is empty and not the player's.  A cell drawn twice is placed once,
   * so the loop places at most as many obstacles as it draws.
   */
  function PlaceObstacles(g: Grid, player: Point, draws: seq<Point>): (r: Grid)
    requires AllInBounds(draws)
    ensures forall p :: InBounds(p) ==>
              Get(r, p) == (if p in draws && p != player && Get(g, p) == Empty then Obstacle else Get(g, p))
    decreases |draws|
  {
    if draws == [] then g
    else
      var q := draws[|draws| - 1];
      var h := PlaceObstacles(g, player, draws[..|draws| - 1]);
      assert forall p :: p in draws <==> p in draws[..|draws| - 1] || p == q by {
        assert draws == draws[..|draws| - 1] + [q];
      }
      if q != player && Get(h, q) == Empty then Set(h, q, Obstacle) else h
  }

  /** A sequence has no more distinct elements than it has elements. */
  lemma {:induction false} ElementsAtMostLength(ds: seq<Point>)
    ensures |(set p | p in ds)| <= |ds|
  {
    if ds != [] {
      ElementsAtMostLength(ds[1..]);
      assert (set p | p in ds) == {ds[0]} + (set p | p in ds[1..]);
    }
  }

  /**
   * On a board holding only the player, the obstacle loop leaves exactly the
   * drawn cells other than the player's as obstacles: never more than drawn.
   */
  lemma ObstaclesAtMostDrawn(player: Point, draws: seq<Point>)
    requires InBounds(player) && AllInBounds(draws)
    ensures ObstacleCells(PlaceObstacles(PlayerOnly(player), player, draws)) == (set p | p in draws && p != player)
    ensures |ObstacleCells(PlaceObstacles(PlayerOnly(player), player, draws))| <= |draws|
  {
    ObstaclesAreDrawn(player, draws);
    ElementsAtMostLength(draws);
    SubsetCardinality(set p | p in draws && p != player, set p | p in draws);
  }

  /** The obstacles the loop places on a board holding only the player are the drawn cells other than the player's. */
  lemma ObstaclesAreDrawn(player: Point, draws: seq<Point>)
    requires InBounds(player) && AllInBounds(draws)
    ensures ObstacleCells(PlaceObstacles(PlayerOnly(player), player, draws)) == (set p | p in draws && p != player)
  {
    var start := PlayerOnly(player);
    var board := PlaceObstacles(start, player, draws);
    var placed := ObstacleCells(board);
    forall p | p in placed
      ensures p in draws && p != player
    {
      assert InBounds(p) && Get(start, p) != Obstacle;
    }
    forall p | p in draws && p != player
      ensures p in placed
    {
      var i :| 0 <= i < |draws| && draws[i] == p;
      assert InBounds(p) && Get(start, p) == Empty;
    }
  }

  /**
   * The obstacle count of a new board can fall below the drawn count's lower
   * bound: ten draws of the same cell leave a single obstacle.
   */
  lemma RepeatedDrawsPlaceOne()
    ensures var draws := seq(MinObstacles, _ => Point(0, 0));
            |ObstacleCells(PlaceObstacles(PlayerOnly(PlayerStart), PlayerStart, draws))| == 1
  {
    var draws := seq(MinObstacles, _ => Point(0, 0));
    ObstaclesAtMostDrawn(PlayerStart, draws);
    assert draws[0] == Point(0, 0);
    assert (set p | p in draws && p != PlayerStart) == {Point(0, 0)};
  }

  /**
   * A cell `placeTreasures` accepts for a treasure: empty, not the player's,
   * and reachable from the player through cells that are not obstacles.
   */
  ghost predicate Acceptable(g: Grid, player: Point, p: Point) {
    InBounds(p) && Get(g, p) == Empty && p != player && Reachable(g, NotObstacle, player, p)
  }

  /** The distinct cells among `draws` that are acceptable for a treasure. */
  ghost function AcceptableDraws(g: Grid, player: Point, draws: seq<Point>): set<Point> {
    set p | p in draws && Acceptable(g, player, p)
  }

  /**
   * The distinct acceptable cells among `draws`, in the order of their first
   * draw: the treasures `placeTreasures` keeps, one by one.
   */
  ghost function AcceptableInOrder(g: Grid, player: Point, draws: seq<Point>): (r: seq<Point>)
    decreases |draws|
  {
    if draws == [] then []
    else
      var first := AcceptableInOrder(g, player, draws[..|draws| - 1]);
      var q := draws[|draws| - 1];
      if Acceptable(g, player, q) && q !in first then first + [q] else first
  }

  /** The cells kept from a prefix of the draws begin the cells kept from all of them. */
  lemma {:induction false} AcceptableInOrderPrefix(g: Grid, player: Point, draws: seq<Point>, k: int)
    requires 0 <= k <= |draws|
    ensures var kept := AcceptableInOrder(g, player, draws[..k]);
            |kept| <= |AcceptableInOrder(g, player, draws)| && AcceptableInOrder(g, player, draws)[..|kept|] == kept
    decreases |draws|
  {
    if k < |draws| {
      var shorter := draws[..|draws| - 1];
      assert shorter[..k] == draws[..k];
      AcceptableInOrderPrefix(g, player, shorter, k);
      var kept, mid := AcceptableInOrder(g, player, draws[..k]), AcceptableInOrder(g, player, shorter);
      assert mid[..|kept|] == kept;
      assert AcceptableInOrder(g, player, draws)[..|mid|] == mid;
      assert AcceptableInOrder(g, player, draws)[..|kept|] == mid[..|kept|];
    } else {
      assert draws[..k] == draws;
    }
  }

  /**
   * `placeTreasures`: draw cells until three treasures are placed, keeping a
   * drawn cell when it is acceptable on the board as it stands.  The engine
   * draws for ever; here the draws are a finite sequence and the result is
   * `None` when it runs out first.
   */
  method PlaceTreasures(g: Grid, player: Point, draws: seq<Point>) returns (r: Option<(Grid, seq<Point>)>)
    requires InBounds(player) && AllInBounds(draws)
    ensures r.Some? ==>
              && |r.value.1| == NumTreasures && Distinct(r.value.1)
              && (forall i :: 0 <= i < |r.value.1| ==> r.value.1[i] in draws && Acceptable(g, player, r.value.1[i]))
              && (forall p :: InBounds(p) ==> Get(r.value.0, p) == (if p in r.value.1 then Treasure else Get(g, p)))
    ensures r.None? <==> |AcceptableDraws(g, player, draws)| < NumTreasures
    ensures r.Some? ==>
              |AcceptableInOrder(g, player, draws)| >= NumTreasures
              && r.value.1 == AcceptableInOrder(g, player, draws)[..NumTreasures]
  {
    var h, ts, k := g, [], 0;
    assert draws[..0] == [];
    while k < |draws| && |ts| < NumTreasures
      invariant PlacementState(g, player, draws, k, h, ts)
    {
      h, ts := PlaceOne(g, player, draws, k, h, ts);
      k := k + 1;
    }
    TreasureCount(g, player, draws, ts, k);
    AcceptableInOrderPrefix(g, player, draws, k);
    if |ts| == NumTreasures {
      r := Some((h, ts));
    } else {
      r := None;
    }
  }

  /**
   * The placement loop after `k` draws: `ts` are the acceptable cells among
   * them in the order first drawn, each written as a treasure into `h`.
   */
  ghost predicate PlacementState(g: Grid, player: Point, draws: seq<Point>, k: int, h: Grid, ts: seq<Point>) {
    && 0 <= k <= |draws| && |ts| <= NumTreasures && Distinct(ts)
    && (forall i :: 0 <= i < |ts| ==> ts[i] in draws[..k] && Acceptable(g, player, ts[i]))
    && (forall p :: InBounds(p) ==> Get(h, p) == (if p in ts then Treasure else Get(g, p)))
    && (forall j :: 0 <= j < k && Acceptable(g, player, draws[j]) ==> draws[j] in ts)
    && ts == AcceptableInOrder(g, player, draws[..k])
  }

  /** One draw of the placement loop: keep it when it is empty, not the player's and reachable. */
  method PlaceOne(g: Grid, player: Point, draws: seq<Point>, k: int, h: Grid, ts: seq<Point>)
    returns (h': Grid, ts': seq<Point>)
    requires InBounds(player) && AllInBounds(draws) && k < |draws| && |ts| < NumTreasures
    requires PlacementState(g, player, draws, k, h, ts)
    ensures PlacementState(g, player, draws, k + 1, h', ts')
  {
    h', ts' := h, ts;
    var q := draws[k];
    assert draws[..k + 1][..k] == draws[..k] && draws[..k + 1][k] == q;
    if Get(h, q) == Empty && q != player {
      var reachable := IsReachable(h, player, q);
      SameObstaclesAcceptable(g, h, player, q);
      if reachable {
        h' := Set(h, q, Treasure);
        ts' := ts + [q];
      }
    }
  }

  /** Placing treasures does not move obstacles, so a cell is reachable on the new board exactly when it was before. */
  lemma SameObstaclesAcceptable(g: Grid, h: Grid, player: Point, q: Point)
    requires forall p :: InBounds(p) ==> Get(h, p) == Get(g, p) || (Get(h, p) == Treasure && Get(g, p) == Empty)
    ensures Reachable(h, NotObstacle, player, q) <==> Reachable(g, NotObstacle, player, q)
  {
    if Reachable(h, NotObstacle, player, q) {
      ReachableSameObstacles(h, g, player, q);
    }
    if Reachable(g, NotObstacle, player, q) {
      ReachableSameObstacles(g, h, player, q);
    }
  }

  /**
   * When the placement loop stops, it has placed three treasures, or it has
   * used every draw and placed every acceptable one of them.
   */
  lemma TreasureCount(g: Grid, player: Point, draws: seq<Point>, ts: seq<Point>, k: int)
    requires 0 <= k <= |draws| && |ts| <= NumTreasures && Distinct(ts)
    requires forall i :: 0 <= i < |ts| ==> ts[i] in draws && Acceptable(g, player, ts[i])
    requires forall j :: 0 <= j < k && Acceptable(g, player, draws[j]) ==> draws[j] in ts
    requires k == |draws| || |ts| == NumTreasures
    ensures |ts| == NumTreasures <==> |AcceptableDraws(g, player, draws)| >= NumTreasures
  {
    var found := AcceptableDraws(g, player, draws);
    var placed := set p | p in ts;
    assert placed <= found;
    DistinctElements(ts);
    SubsetCardinality(placed, found);
    if |ts| < NumTreasures {
      assert found <= placed by {
        forall p | p in found
          ensures p in placed
        {
          var j :| 0 <= j < |draws| && draws[j] == p;
        }
      }
      SubsetCardinality(found, placed);
    }
  }

  /** The board before treasures: the player in the centre and obstacles at the drawn cells. */
  function ObstacleBoard(obstacleDraws: seq<Point>): (g: Grid)
    requires AllInBounds(obstacleDraws)
    ensures Get(g, PlayerStart) == Player
    ensures forall p :: InBounds(p) && p != PlayerStart ==>
              Get(g, p) == (if p in obstacleDraws then Obstacle else Empty)
  {
    PlaceObstacles(PlayerOnly(PlayerStart), PlayerStart, obstacleDraws)
  }

  /**
   * `resetGame` (and the constructor, which runs it on a game without a hint
   * path): fresh score and counters, then `generateMap`.  The number of
   * obstacle draws is between the two bounds, as the engine draws it; the
   * hint path of the old game is not cleared.
   */
  method ResetGame(game: Game, obstacleDraws: seq<Point>, treasureDraws: seq<Point>) returns (r: Option<Game>)
    requires MinObstacles <= |obstacleDraws| <= MaxObstacles
    requires AllInBounds(obstacleDraws) && AllInBounds(treasureDraws)
    ensures r.None? <==> |AcceptableDraws(ObstacleBoard(obstacleDraws), PlayerStart, treasureDraws)| < NumTreasures
    ensures r.Some? ==>
              && r.value.player == PlayerStart && r.value.score == InitialScore
              && r.value.treasuresFound == 0 && !r.value.hintUsed && r.value.revealedObstacles == []
              && r.value.bfsExplored == 0 && r.value.aStarExplored == 0 && r.value.lastPathLength == 0
              && r.value.currentPath == game.currentPath
              && ObstacleCells(r.value.grid) == (set p | p in obstacleDraws && p != PlayerStart)
              && |ObstacleCells(r.value.grid)| <= MaxObstacles
              && (forall p :: InBounds(p) ==> Get(r.value.visible, p) == (if p == PlayerStart then Player else Empty))
    ensures r.Some? && AllInBounds(game.currentPath) ==> Valid(r.value)
  {
    var board := ObstacleBoard(obstacleDraws);
    ObstaclesAtMostDrawn(PlayerStart, obstacleDraws);
    var placed := PlaceTreasures(board, PlayerStart, treasureDraws);
    if placed.None? {
      return None;
    }
    var (grid, ts) := placed.value;
    assert ObstacleCells(grid) == ObstacleCells(board);
    var g := Game(grid, PlayerOnly(PlayerStart), PlayerStart, InitialScore, 0, ts, game.currentPath,
                  false, [], 0, 0, 0);
    NewBoardValid(board, grid, ts);
    r := Some(g);
  }

  /** The board built by `generateMap` satisfies the board invariant. */
  lemma NewBoardValid(board: Grid, grid: Grid, ts: seq<Point>)
    requires Get(board, PlayerStart) == Player
    requires forall p :: InBounds(p) && p != PlayerStart ==> Get(board, p) == Empty || Get(board, p) == Obstacle
    requires Distinct(ts)
    requires forall i :: 0 <= i < |ts| ==> Acceptable(board, PlayerStart, ts[i])
    requires forall p :: InBounds(p) ==> Get(grid, p) == (if p in ts then Treasure else Get(board, p))
    ensures BoardValid(grid, PlayerStart, ts)
  {
    forall i | 0 <= i < |ts|
      ensures Reachable(grid, NotObstacle, PlayerStart, ts[i])
    {
      ReachableSameObstacles(board, grid, PlayerStart, ts[i]);
    }
  }
}
