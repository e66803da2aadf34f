/** The next generation of a whole grid, as `tick` computes it. */
module Generation {
  import opened Cells
  import opened Grid
  import opened Neighbours

  /** The next state of the cell at index `i`, from the neighbours it has in `cells`. */
  function NextAt(cells: seq<Cell>, width: nat, height: nat, i: nat): Cell
    requires |cells| == width * height && i < |cells|
  {
    IndexSplit(width, height, i);
    NextCellAt(cells, width, height, i / width, i % width)
  }

  /** The buffer after one generation: every cell is recomputed from `cells`, the buffer
      before the step, and never from a partly updated one. */
  function NextGeneration(cells: seq<Cell>, width: nat, height: nat): (next: seq<Cell>)
    requires |cells| == width * height
    ensures |next| == |cells|
  {
    seq(|cells|, i requires 0 <= i < |cells| => NextAt(cells, width, height, i))
  }

  /** The next state of the cell at (row, column), by its index. */
  lemma NextAtIndex(cells: seq<Cell>, width: nat, height: nat, row: nat, column: nat)
    requires |cells| == width * height && row < height && column < width
    ensures Index(width, row, column) < |cells|
    ensures NextAt(cells, width, height, Index(width, row, column))
         == NextCell(cells[Index(width, row, column)], LiveNeighbours(cells, width, height, row, column))
  {
    IndexInBounds(width, height, row, column);
    IndexRoundTrip(width, row, column);
  }

  /** The cell at (row, column) of the next generation follows the rule table, applied to
      its old state and its live-neighbour count in the old buffer. */
  lemma NextGenerationAt(cells: seq<Cell>, width: nat, height: nat, row: nat, column: nat)
    requires |cells| == width * height && row < height && column < width
    ensures Index(width, row, column) < |NextGeneration(cells, width, height)|
    ensures NextGeneration(cells, width, height)[Index(width, row, column)]
         == NextCell(cells[Index(width, row, column)], LiveNeighbours(cells, width, height, row, column))
  {
    NextAtIndex(cells, width, height, row, column);
    var i := Index(width, row, column);
    assert NextGeneration(cells, width, height)[i] == NextAt(cells, width, height, i);
  }

  /** A universe with no live cell stays that way. */
  lemma DeadStaysDead(cells: seq<Cell>, width: nat, height: nat)
    requires |cells| == width * height
    requires forall k :: 0 <= k < |cells| ==> cells[k] == Dead
    ensures NextGeneration(cells, width, height) == cells
  {
    forall i | 0 <= i < |cells|
      ensures NextGeneration(cells, width, height)[i] == cells[i]
    {
      DeadCellStaysDead(cells, width, height, i);
      assert NextGeneration(cells, width, height)[i] == NextAt(cells, width, height, i);
    }
  }

  lemma DeadCellStaysDead(cells: seq<Cell>, width: nat, height: nat, i: nat)
    requires |cells| == width * height && i < |cells|
    requires forall k :: 0 <= k < |cells| ==> cells[k] == Dead
    ensures NextAt(cells, width, height, i) == Dead
  {
    IndexSplit(width, height, i);
    var row, column := i / width, i % width;
    NextAtIndex(cells, width, height, row, column);
    ScanCountDead(cells, width, height, row, column, 3, 0);
  }

  /** The next state of the cell at (row, column) of `cells`. */
  function NextCellAt(cells: seq<Cell>, width: nat, height: nat, row: nat, column: nat): Cell
    requires |cells| == width * height && row < height && column < width
  {
    IndexInBounds(width, height, row, column);
    NextCell(cells[Index(width, row, column)], LiveNeighbours(cells, width, height, row, column))
  }

  /** The cell at (row, column) of `next` holds the next state of that cell of `cells`. */
  ghost predicate Stepped(next: seq<Cell>, cells: seq<Cell>, width: nat, height: nat, row: nat, column: nat)
    requires |cells| == width * height && |next| == |cells| && row < height && column < width
  {
    IndexInBounds(width, height, row, column);
    next[Index(width, row, column)] == NextCellAt(cells, width, height, row, column)
  }

  /** Every cell before (row, column) in row-major order has been stepped: the progress
      of `tick` through the buffer. */
  ghost predicate SteppedBefore(next: seq<Cell>, cells: seq<Cell>, width: nat, height: nat, row: nat, column: nat)
    requires |cells| == width * height && |next| == |cells|
  {
    forall r: nat, c: nat :: r < height && c < width && (r < row || (r == row && c < column)) ==>
      Stepped(next, cells, width, height, r, c)
  }

  /** Writing the next state of the cell at (row, column) extends the stepped prefix by
      that cell. */
  lemma SteppedWrite(next: seq<Cell>, cells: seq<Cell>, width: nat, height: nat, row: nat, column: nat, v: Cell)
    requires |cells| == width * height && |next| == |cells| && row < height && column < width
    requires SteppedBefore(next, cells, width, height, row, column)
    requires v == NextCellAt(cells, width, height, row, column)
    ensures Index(width, row, column) < |next|
    ensures SteppedBefore(next[Index(width, row, column) := v], cells, width, height, row, column + 1)
  {
    IndexInBounds(width, height, row, column);
    var written := next[Index(width, row, column) := v];
    forall r: nat, c: nat | r < height && c < width && (r < row || (r == row && c < column + 1))
      ensures Stepped(written, cells, width, height, r, c)
    {
      if r != row || c != column {
        IndexOrder(width, r, c, row, column);
        assert Stepped(next, cells, width, height, r, c);
      }
    }
  }

  /** A buffer whose every cell has been stepped is the next generation. */
  lemma GenerationByCells(next: seq<Cell>, cells: seq<Cell>, width: nat, height: nat)
    requires |cells| == width * height && |next| == |cells|
    requires SteppedBefore(next, cells, width, height, height, 0)
    ensures next == NextGeneration(cells, width, height)
  {
    forall i | 0 <= i < |next|
      ensures next[i] == NextGeneration(cells, width, height)[i]
    {
      SteppedCellAt(next, cells, width, height, i);
    }
  }

  lemma SteppedCellAt(next: seq<Cell>, cells: seq<Cell>, width: nat, height: nat, i: nat)
    requires |cells| == width * height && |next| == |cells| && i < |next|
    requires SteppedBefore(next, cells, width, height, height, 0)
    ensures next[i] == NextAt(cells, width, height, i)
  {
    IndexSplit(width, height, i);
    var row, column := i / width, i % width;
    NextAtIndex(cells, width, height, row, column);
    assert Stepped(next, cells, width, height, row, column);
  }
}
