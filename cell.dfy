/** The two-valued cell of the universe and the Game-of-Life rule applied to one cell. */
module Cells {

  datatype Cell = Dead | Alive

  /** The numeric value a cell contributes to a neighbour count (the enum is `repr(u8)`, Dead = 0, Alive = 1). */
  function Value(c: Cell): (v: nat)
    ensures v <= 1
    ensures v == 1 <==> c == Alive
  {
    match c
    case Dead => 0
    case Alive => 1
  }

  /** The cell after a toggle. */
  function Flip(c: Cell): (r: Cell)
    ensures r != c
  {
    match c
    case Alive => Dead
    case Dead => Alive
  }

  /** Flipping is an involution. */
  lemma FlipFlip(c: Cell)
    ensures Flip(Flip(c)) == c
  {
  }

  /** The next state of a cell with `n` live neighbours, case by case in the order the rule lists them. */
  function NextCell(cell: Cell, n: nat): (r: Cell)
    ensures r == Alive <==> (n == 3 || (cell == Alive && n == 2))
  {
    match cell
    case Alive =>
      if n < 2 then Dead
      else if n == 2 || n == 3 then Alive
      else if n > 3 then Dead
      else cell
    case Dead =>
      if n == 3 then Alive else cell
  }
}
