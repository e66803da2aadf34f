/** The two states of a cell and the Life transition rule. */
module Cells {

  /** A cell of the universe; the source stores it as a byte, Dead = 0 and Alive = 1. */
  datatype Cell = Dead | Alive

  /** The byte value of a cell, which neighbour counting adds up. */
  function Value(c: Cell): (v: nat)
    ensures v <= 1
    ensures v == 1 <==> c == Alive
  {
    match c
    case Dead => 0
    case Alive => 1
  }

  /** The state of a cell in the next generation, given its state and its live-neighbour
      count; the branches follow the arms of the rule `match` in `tick`, in order. */
  function NextCell(cell: Cell, liveNeighbours: nat): (next: Cell)
    // B3/S23: a live cell survives exactly with two or three live neighbours,
    // a dead cell is born exactly with three
    ensures cell == Alive ==> (next == Alive <==> liveNeighbours == 2 || liveNeighbours == 3)
    ensures cell == Dead ==> (next == Alive <==> liveNeighbours == 3)
  {
    if cell == Alive && liveNeighbours < 2 then Dead
    else if cell == Alive && (liveNeighbours == 2 || liveNeighbours == 3) then Alive
    else if cell == Alive && liveNeighbours > 3 then Dead
    else if cell == Dead && liveNeighbours == 3 then Alive
    else cell
  }

  /** The four rules of the doc comment on `Cell`, one `ensures` each. */
  lemma LifeRules(cell: Cell, n: nat)
    ensures cell == Alive && n < 2 ==> NextCell(cell, n) == Dead
    ensures cell == Alive && 2 <= n <= 3 ==> NextCell(cell, n) == Alive
    ensures cell == Alive && n > 3 ==> NextCell(cell, n) == Dead
    ensures cell == Dead && n == 3 ==> NextCell(cell, n) == Alive
    ensures cell == Dead && n != 3 ==> NextCell(cell, n) == Dead
  {
  }
}
