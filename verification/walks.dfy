/**
 * Walks over the board: sequences of unit moves through walkable cells.
 * This is the reference meaning of "reachable" and "shortest path" that the
 * searches are proved against.
 */
module Walks {
  import opened Cells
  import opened Grids

  /** Which cells a search may step onto. */
  datatype WalkRule =
    | EmptyOrTreasure  // the BFS path search
    | NotObstacle      // the reachability check and A*

  predicate Walkable(rule: WalkRule, c: Cell) {
    match rule
    case EmptyOrTreasure => c == Empty || c == Treasure
    case NotObstacle => c != Obstacle
  }

  /** Where walk `w` from `s` stands after `i` steps. */
  function At(s: Point, w: seq<Point>, i: int): Point
    requires 0 <= i <= |w|
  {
    if i == 0 then s else w[i - 1]
  }

  /** Where walk `w` from `s` ends. */
  function EndOf(s: Point, w: seq<Point>): Point {
    At(s, w, |w|)
  }

  /**
   * `w` lists the cells entered, in order, when walking from `s` (which is not
   * listed and need not itself be walkable): each is on the board, walkable,
   * and one step from the cell before it.
   */
  predicate IsWalk(g: Grid, rule: WalkRule, s: Point, w: seq<Point>) {
    && (forall i :: 0 <= i < |w| ==> InBounds(w[i]) && Walkable(rule, Get(g, w[i])))
    && (|w| > 0 ==> Adjacent(s, w[0]))
    && (forall i, j :: 0 <= i < |w| && 0 <= j < |w| && j == i + 1 ==> Adjacent(w[i], w[j]))
  }

  /** The step-by-step reading of a walk: step `i` enters `w[i]` from where the walk stood. */
  lemma WalkStep(g: Grid, rule: WalkRule, s: Point, w: seq<Point>, i: int)
    requires IsWalk(g, rule, s, w) && 0 <= i < |w|
    ensures InBounds(w[i]) && Walkable(rule, Get(g, w[i])) && Adjacent(At(s, w, i), w[i])
    ensures At(s, w, i + 1) == w[i]
  {
    if i > 0 {
      assert Adjacent(w[i - 1], w[i]);
    }
  }

  /** A walk is built from legal steps. */
  lemma WalkFromSteps(g: Grid, rule: WalkRule, s: Point, w: seq<Point>)
    requires forall i :: 0 <= i < |w| ==> InBounds(w[i]) && Walkable(rule, Get(g, w[i])) && Adjacent(At(s, w, i), w[i])
    ensures IsWalk(g, rule, s, w)
  {
    forall i, j | 0 <= i && i + 1 == j < |w|
      ensures Adjacent(w[i], w[j])
    {
      assert At(s, w, j) == w[i];
    }
  }

  ghost predicate Reachable(g: Grid, rule: WalkRule, s: Point, e: Point) {
    exists w :: IsWalk(g, rule, s, w) && EndOf(s, w) == e
  }

  /** `e` can be reached from `s` in at most `n` steps. */
  ghost predicate ReachableWithin(g: Grid, rule: WalkRule, s: Point, e: Point, n: int) {
    exists w :: IsWalk(g, rule, s, w) && EndOf(s, w) == e && |w| <= n
  }

  /** `w` reaches `e` from `s` and no walk from `s` to `e` is shorter. */
  ghost predicate IsShortestWalk(g: Grid, rule: WalkRule, s: Point, e: Point, w: seq<Point>) {
    && IsWalk(g, rule, s, w)
    && EndOf(s, w) == e
    && forall v :: IsWalk(g, rule, s, v) && EndOf(s, v) == e ==> |w| <= |v|
  }

  /** The cells reachable from `s`, `s` itself included. */
  ghost function ReachSet(g: Grid, rule: WalkRule, s: Point): set<Point> {
    set p | p in AllCells() && Reachable(g, rule, s, p)
  }

  /** The cells on the board reachable from `s` in at most `n` steps. */
  ghost function WithinSet(g: Grid, rule: WalkRule, s: Point, n: int): set<Point> {
    set p | p in AllCells() && ReachableWithin(g, rule, s, p, n)
  }

  /** Two boards with the same obstacles. */
  ghost predicate SameObstacles(g: Grid, h: Grid) {
    forall p :: InBounds(p) ==> (Get(g, p) == Obstacle <==> Get(h, p) == Obstacle)
  }

  /** Extending a walk by one more step. */
  lemma WalkAppend(g: Grid, rule: WalkRule, s: Point, w: seq<Point>, v: Point)
    requires IsWalk(g, rule, s, w)
    requires InBounds(v) && Walkable(rule, Get(g, v)) && Adjacent(EndOf(s, w), v)
    ensures IsWalk(g, rule, s, w + [v]) && EndOf(s, w + [v]) == v
  {
    var w' := w + [v];
    forall i, j | 0 <= i && i + 1 == j < |w'|
      ensures Adjacent(w'[i], w'[j])
    {
      if j < |w| {
        assert w'[i] == w[i] && w'[j] == w[j];
      }
    }
  }

  /** Starting a walk one step earlier. */
  lemma WalkPrepend(g: Grid, rule: WalkRule, s: Point, c: Point, w: seq<Point>)
    requires InBounds(c) && Walkable(rule, Get(g, c)) && Adjacent(s, c)
    requires IsWalk(g, rule, c, w)
    ensures IsWalk(g, rule, s, [c] + w) && EndOf(s, [c] + w) == EndOf(c, w)
  {
    var w' := [c] + w;
    forall i, j | 0 <= i && i + 1 == j < |w'|
      ensures Adjacent(w'[i], w'[j])
    {
      if i > 0 {
        assert w'[i] == w[i - 1] && w'[j] == w[j - 1];
      }
    }
  }

  /** The tail of a walk after its first `k` steps is a walk from where it stood. */
  lemma WalkSuffix(g: Grid, rule: WalkRule, s: Point, w: seq<Point>, k: int)
    requires IsWalk(g, rule, s, w)
    requires 0 <= k <= |w|
    ensures IsWalk(g, rule, At(s, w, k), w[k..])
    ensures EndOf(At(s, w, k), w[k..]) == EndOf(s, w)
  {
    var t := w[k..];
    if k < |w| {
      WalkStep(g, rule, s, w, k);
    }
    forall i, j | 0 <= i && i + 1 == j < |t|
      ensures Adjacent(t[i], t[j])
    {
      assert t[i] == w[k + i] && t[j] == w[k + j];
    }
  }

  /** Under the `NotObstacle` rule a walk depends only on where the obstacles are. */
  lemma WalkSameObstacles(g: Grid, h: Grid, s: Point, w: seq<Point>)
    requires SameObstacles(g, h)
    requires IsWalk(g, NotObstacle, s, w)
    ensures IsWalk(h, NotObstacle, s, w)
  {
  }

  /** Reachability through non-obstacle cells survives any change that keeps the obstacles. */
  lemma ReachableSameObstacles(g: Grid, h: Grid, s: Point, e: Point)
    requires SameObstacles(g, h)
    requires Reachable(g, NotObstacle, s, e)
    ensures Reachable(h, NotObstacle, s, e)
  {
    var w :| IsWalk(g, NotObstacle, s, w) && EndOf(s, w) == e;
    WalkSameObstacles(g, h, s, w);
  }

  /**
   * Along a walk the Manhattan distance to any goal drops by at most one per step,
   * so from step `i` it is at most the remaining steps plus the distance at the end.
   */
  lemma {:induction false} ManhattanAlongWalk(g: Grid, rule: WalkRule, s: Point, w: seq<Point>, i: int, goal: Point)
    requires IsWalk(g, rule, s, w)
    requires 0 <= i <= |w|
    ensures Manhattan(At(s, w, i), goal) <= (|w| - i) + Manhattan(EndOf(s, w), goal)
    decreases |w| - i
  {
    if i < |w| {
      ManhattanAlongWalk(g, rule, s, w, i + 1, goal);
      WalkStep(g, rule, s, w, i);
      ManhattanConsistent(At(s, w, i), At(s, w, i + 1), goal);
    }
  }

  /**
   * Off the start cell the two rules allow the same cells: the case on the game
   * board, where the only cell that is neither EMPTY, TREASURE nor OBSTACLE is
   * the player's own.
   */
  ghost predicate RulesAgreeOffStart(g: Grid, s: Point) {
    forall p :: InBounds(p) && p != s ==> (Walkable(EmptyOrTreasure, Get(g, p)) <==> Walkable(NotObstacle, Get(g, p)))
  }

  /** Every EMPTY or TREASURE cell is not an obstacle, so a walk under the first rule is one under the second. */
  lemma WalkRuleWeaken(g: Grid, s: Point, w: seq<Point>)
    requires IsWalk(g, EmptyOrTreasure, s, w)
    ensures IsWalk(g, NotObstacle, s, w)
  {
  }

  /**
   * A walk under `NotObstacle` that may pass back through its start is cut after
   * its last visit there: what is left never stands on the start again, so it is
   * a walk under `EmptyOrTreasure` when the rules agree off the start.
   */
  lemma {:induction false} StripStart(g: Grid, s: Point, w: seq<Point>) returns (v: seq<Point>)
    requires RulesAgreeOffStart(g, s)
    requires IsWalk(g, NotObstacle, s, w)
    ensures IsWalk(g, EmptyOrTreasure, s, v) && EndOf(s, v) == EndOf(s, w) && |v| <= |w|
  {
    var k := |w|;
    while k > 0 && At(s, w, k) != s
      invariant 0 <= k <= |w|
      invariant forall i :: k < i <= |w| ==> At(s, w, i) != s
    {
      k := k - 1;
    }
    WalkSuffix(g, NotObstacle, s, w, k);
    v := w[k..];
    forall j | 0 <= j < |v|
      ensures InBounds(v[j]) && Walkable(EmptyOrTreasure, Get(g, v[j]))
    {
      assert v[j] == At(s, w, k + j + 1);
    }
  }

  /** When the rules agree off the start, both reach the same cells. */
  lemma ReachableRulesAgree(g: Grid, s: Point, e: Point)
    requires RulesAgreeOffStart(g, s)
    ensures Reachable(g, EmptyOrTreasure, s, e) <==> Reachable(g, NotObstacle, s, e)
  {
    if Reachable(g, EmptyOrTreasure, s, e) {
      var w :| IsWalk(g, EmptyOrTreasure, s, w) && EndOf(s, w) == e;
      WalkRuleWeaken(g, s, w);
    }
    if Reachable(g, NotObstacle, s, e) {
      var w :| IsWalk(g, NotObstacle, s, w) && EndOf(s, w) == e;
      var v := StripStart(g, s, w);
    }
  }

  /** When the rules agree off the start, their shortest walks between the same cells have the same length. */
  lemma ShortestRulesAgree(g: Grid, s: Point, e: Point, w: seq<Point>, v: seq<Point>)
    requires RulesAgreeOffStart(g, s)
    requires IsShortestWalk(g, EmptyOrTreasure, s, e, w)
    requires IsShortestWalk(g, NotObstacle, s, e, v)
    ensures |w| == |v|
  {
    WalkRuleWeaken(g, s, w);
    var u := StripStart(g, s, v);
  }

  /** When the rules agree off the start, both reach a cell within the same number of steps. */
  lemma WithinRulesAgree(g: Grid, s: Point, e: Point, n: int)
    requires RulesAgreeOffStart(g, s)
    ensures ReachableWithin(g, EmptyOrTreasure, s, e, n) <==> ReachableWithin(g, NotObstacle, s, e, n)
  {
    if ReachableWithin(g, EmptyOrTreasure, s, e, n) {
      var w :| IsWalk(g, EmptyOrTreasure, s, w) && EndOf(s, w) == e && |w| <= n;
      WalkRuleWeaken(g, s, w);
    }
    if ReachableWithin(g, NotObstacle, s, e, n) {
      var w :| IsWalk(g, NotObstacle, s, w) && EndOf(s, w) == e && |w| <= n;
      var v := StripStart(g, s, w);
    }
  }
}
