/** The kinds of cell a board square can hold, and their integer encoding. */
module Cells {

  /** Declaration order matters: the integer code of a kind is its position here. */
  datatype Cell = Empty | Obstacle | Player | Treasure | PathHint

  /** Every kind, in declaration order (the enum's `values()` array). */
  const Kinds: seq<Cell> := [Empty, Obstacle, Player, Treasure, PathHint]

  /** The integer code of a kind: its position in the declaration. */
  function ToInt(c: Cell): (r: int)
    ensures 0 <= r < |Kinds|
    ensures Kinds[r] == c
  {
    match c
    case Empty => 0
    case Obstacle => 1
    case Player => 2
    case Treasure => 3
    case PathHint => 4
  }

  /** The kind with a given code; codes outside the declaration are a caller error. */
  function FromInt(v: int): (c: Cell)
    requires 0 <= v < |Kinds|
    ensures ToInt(c) == v
  {
    Kinds[v]
  }

  /** Decoding an encoded kind gives the kind back. */
  lemma FromIntOfToInt(c: Cell)
    ensures FromInt(ToInt(c)) == c
  {
  }

  /** Distinct kinds have distinct codes. */
  lemma ToIntInjective(c: Cell, d: Cell)
    ensures ToInt(c) == ToInt(d) ==> c == d
  {
    FromIntOfToInt(c);
    FromIntOfToInt(d);
  }
}
