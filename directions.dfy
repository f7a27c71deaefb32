/**
  The four moves between neighbouring cells. Positions are (y, x) with y the
  row, counted downwards, and x the column, as in the generator's direction
  table, where "up" is the offset (-1, 0).
*/
module Directions {
  import opened Dedup

  /**
    A move to a neighbouring cell. A rule stores the move itself where the
    source stores its position in the direction table (up, down, right, left).
  */
  datatype Direction = Up | Down | Right | Left

  /** Row offset of a move. */
  function DY(d: Direction): int {
    match d
    case Up => -1
    case Down => 1
    case Right => 0
    case Left => 0
  }

  /** Column offset of a move. */
  function DX(d: Direction): int {
    match d
    case Up => 0
    case Down => 0
    case Right => 1
    case Left => -1
  }

  /** Row of the neighbour reached by the move d from row y. */
  function NextY(y: int, d: Direction): int {
    y + DY(d)
  }

  /** Column of the neighbour reached by the move d from column x. */
  function NextX(x: int, d: Direction): int {
    x + DX(d)
  }

  /** The move back: up and down, left and right are each other's inverse. */
  function Opposite(d: Direction): (o: Direction)
    ensures DY(o) == -DY(d) && DX(o) == -DX(d)
  {
    match d
    case Up => Down
    case Down => Up
    case Right => Left
    case Left => Right
  }

  /** (y, x) lies inside a grid of h rows and w columns. */
  predicate InGrid(h: int, w: int, y: int, x: int) {
    0 <= y < h && 0 <= x < w
  }

  /** Both ends of the move d from (y, x) lie inside the grid. */
  predicate Step(h: int, w: int, y: int, x: int, d: Direction) {
    InGrid(h, w, y, x) && InGrid(h, w, y + DY(d), x + DX(d))
  }

  /**
    The moves that stay inside an h-by-w grid from (y, x), in the order
    up, down, left, right. Both overloads of GetValidDirections (one for the
    example grid, one for the wave) compute this from the grid's first two
    dimensions.
  */
  function GetValidDirections(h: nat, w: nat, y: nat, x: nat): (r: seq<Direction>)
    requires InGrid(h, w, y, x)
    ensures forall d :: d in r <==> Step(h, w, y, x, d)
    ensures Distinct(r)
  {
    (if y > 0 then [Up] else [])
    + (if y < h - 1 then [Down] else [])
    + (if x > 0 then [Left] else [])
    + (if x < w - 1 then [Right] else [])
  }

  /** The k-th valid direction is a move that stays inside the grid. */
  lemma ValidDirectionStep(h: nat, w: nat, y: nat, x: nat, k: nat)
    requires InGrid(h, w, y, x) && k < |GetValidDirections(h, w, y, x)|
    ensures Step(h, w, y, x, GetValidDirections(h, w, y, x)[k])
  {
    assert GetValidDirections(h, w, y, x)[k] in GetValidDirections(h, w, y, x);
  }
}
