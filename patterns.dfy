/** Worked examples: a one-row grid, where the offset lists of `live_neighbor_count` hold 0
    twice and the scan no longer visits the eight torus neighbours; the block, a still life
    on a 4 x 4 grid; and the blinker, an oscillator of period two on a 5 x 5 grid. */
module Patterns {
  import opened Cells
  import opened Grid
  import opened Neighbours
  import opened Generation

  /** In the one-row grid `[Dead, Alive, Dead]` the middle cell sees itself once: the scan
      skips the pair (row offset `height - 1 = 0`, column offset 0) as well as the centre,
      and reads the cell itself only through row offset 1. */
  lemma SingleRowCount(s: seq<Cell>)
    requires s == [Dead, Alive, Dead]
    ensures LiveNeighbours(s, 3, 1, 0, 1) == 1
  {
    assert Deltas(1) == [0, 0, 1];
    assert Deltas(3) == [2, 0, 1];
    ReadStep(s, 3, 1, 0, 1, 0, 0, 0, 0);
    SkipStep(s, 3, 1, 0, 1, 0, 1);
    ReadStep(s, 3, 1, 0, 1, 0, 2, 0, 2);
    ReadStep(s, 3, 1, 0, 1, 1, 0, 0, 0);
    SkipStep(s, 3, 1, 0, 1, 1, 1);
    ReadStep(s, 3, 1, 0, 1, 1, 2, 0, 2);
    ReadStep(s, 3, 1, 0, 1, 2, 0, 0, 0);
    ReadStep(s, 3, 1, 0, 1, 2, 1, 0, 1);
    ReadStep(s, 3, 1, 0, 1, 2, 2, 0, 2);
  }

  /** The torus neighbours of the middle cell: the row above and the row below are the
      row itself, so the cell is its own neighbour twice. */
  lemma SingleRowTorus()
    ensures TorusNeighbours(3, 1, 0, 1) == [(0, 0), (0, 1), (0, 2), (0, 0), (0, 2), (0, 0), (0, 1), (0, 2)]
  {
  }

  /** The scan reads seven positions and the middle cell only once, in its last row. */
  lemma SingleRowScan()
    ensures NeighbourCells(3, 1, 0, 1) == [(0, 0), (0, 2), (0, 0), (0, 2), (0, 0), (0, 1), (0, 2)]
  {
    assert Deltas(1) == [0, 0, 1];
    assert Deltas(3) == [2, 0, 1];
    assert Scanned(3, 1, 0, 1, 1, 0) == [(0, 0), (0, 2)];
    assert Scanned(3, 1, 0, 1, 2, 0) == [(0, 0), (0, 2), (0, 0), (0, 2)];
  }

  /** The rule applied to the eight torus neighbours would count two live neighbours: the
      middle cell itself, once from the row above and once from the row below. */
  lemma SingleRowTorusCount(s: seq<Cell>)
    requires s == [Dead, Alive, Dead]
    ensures CountAlive(s, 3, 1, TorusNeighbours(3, 1, 0, 1)) == 2
  {
    var t := TorusNeighbours(3, 1, 0, 1);
    SingleRowTorus();
    CountAliveEight(s, 3, 1, t);
  }

  /** Hence `tick` kills the middle cell, which the rule applied to its eight torus
      neighbours would keep alive. */
  lemma SingleRowMiddleDies(s: seq<Cell>)
    requires s == [Dead, Alive, Dead]
    ensures NextGeneration(s, 3, 1)[1] == Dead
    ensures NextCell(s[1], CountAlive(s, 3, 1, TorusNeighbours(3, 1, 0, 1))) == Alive
  {
    SingleRowCount(s);
    NextGenerationAt(s, 3, 1, 0, 1);
    SingleRowTorusCount(s);
  }

  /** Small patterns on a square torus, each in the middle of its grid. */
  datatype Shape = Block | Horizontal | Vertical

  /** The side of the grid a shape is drawn on. */
  function Side(shape: Shape): nat
  {
    match shape
    case Block => 4
    case _ => 5
  }

  /** The live cells of each shape: a 2 x 2 square; three cells of the middle row; three
      cells of the middle column. */
  predicate Inside(shape: Shape, r: nat, c: nat)
  {
    match shape
    case Block => 1 <= r <= 2 && 1 <= c <= 2
    case Horizontal => r == 2 && 1 <= c <= 3
    case Vertical => 1 <= r <= 3 && c == 2
  }

  /** The row-major buffer of a shape's grid. */
  function Picture(shape: Shape): (s: seq<Cell>)
    ensures |s| == Side(shape) * Side(shape)
  {
    match shape
    case Block =>
        [Dead, Dead, Dead, Dead,
         Dead, Alive, Alive, Dead,
         Dead, Alive, Alive, Dead,
         Dead, Dead, Dead, Dead]
    case Horizontal =>
        [Dead, Dead, Dead, Dead, Dead,
         Dead, Dead, Dead, Dead, Dead,
         Dead, Alive, Alive, Alive, Dead,
         Dead, Dead, Dead, Dead, Dead,
         Dead, Dead, Dead, Dead, Dead]
    case Vertical =>
        [Dead, Dead, Dead, Dead, Dead,
         Dead, Dead, Alive, Dead, Dead,
         Dead, Dead, Alive, Dead, Dead,
         Dead, Dead, Alive, Dead, Dead,
         Dead, Dead, Dead, Dead, Dead]
  }

  /** The buffer of a shape holds a live cell exactly at the positions inside the shape. */
  lemma PictureAt(shape: Shape, r: nat, c: nat)
    requires r < Side(shape) && c < Side(shape)
    ensures Index(Side(shape), r, c) < |Picture(shape)|
    ensures Picture(shape)[Index(Side(shape), r, c)] == if Inside(shape, r, c) then Alive else Dead
    ensures ReadAt(Picture(shape), Side(shape), Side(shape), (r, c)) == InsideValue(shape, r, c)
  {
    var n := Side(shape);
    assert Index(n, r, c) == n * r + c;
  }

  /** 1 for a position inside the shape, 0 for one outside. */
  function InsideValue(shape: Shape, r: nat, c: nat): (v: nat)
    ensures v <= 1
  {
    if Inside(shape, r, c) then 1 else 0
  }

  /** The number of the eight torus neighbours of (row, column) that lie inside the shape. */
  function InsideCount(shape: Shape, n: nat, row: nat, column: nat): nat
    requires row < n && column < n
  {
    var up, down, left, right := Wrap(row - 1, n), Wrap(row + 1, n), Wrap(column - 1, n), Wrap(column + 1, n);
    InsideValue(shape, up, left) + InsideValue(shape, up, column) +
    InsideValue(shape, up, right) + InsideValue(shape, row, left) +
    InsideValue(shape, row, right) + InsideValue(shape, down, left) +
    InsideValue(shape, down, column) + InsideValue(shape, down, right)
  }

  /** On any buffer whose live cells are exactly those inside the shape, the scan counts the
      torus neighbours inside the shape. */
  lemma InsideNeighbours(s: seq<Cell>, n: nat, shape: Shape, row: nat, column: nat)
    requires 2 <= n && |s| == n * n && row < n && column < n
    requires forall r: nat, c: nat :: r < n && c < n ==> ReadAt(s, n, n, (r, c)) == InsideValue(shape, r, c)
    ensures LiveNeighbours(s, n, n, row, column) == InsideCount(shape, n, row, column)
  {
    LiveNeighboursSum(s, n, n, row, column);
    var up, down, left, right := Wrap(row - 1, n), Wrap(row + 1, n), Wrap(column - 1, n), Wrap(column + 1, n);
    assert ReadAt(s, n, n, (up, left)) == InsideValue(shape, up, left);
    assert ReadAt(s, n, n, (up, column)) == InsideValue(shape, up, column);
    assert ReadAt(s, n, n, (up, right)) == InsideValue(shape, up, right);
    assert ReadAt(s, n, n, (row, left)) == InsideValue(shape, row, left);
    assert ReadAt(s, n, n, (row, right)) == InsideValue(shape, row, right);
    assert ReadAt(s, n, n, (down, left)) == InsideValue(shape, down, left);
    assert ReadAt(s, n, n, (down, column)) == InsideValue(shape, down, column);
    assert ReadAt(s, n, n, (down, right)) == InsideValue(shape, down, right);
  }

  /** The count the scan computes on a shape's grid is the number of torus neighbours inside
      the shape. */
  lemma PictureNeighbours(shape: Shape, row: nat, column: nat)
    requires row < Side(shape) && column < Side(shape)
    ensures LiveNeighbours(Picture(shape), Side(shape), Side(shape), row, column) == InsideCount(shape, Side(shape), row, column)
  {
    forall r: nat, c: nat | r < Side(shape) && c < Side(shape)
      ensures ReadAt(Picture(shape), Side(shape), Side(shape), (r, c)) == InsideValue(shape, r, c)
    {
      PictureAt(shape, r, c);
    }
    InsideNeighbours(Picture(shape), Side(shape), shape, row, column);
  }

  /** The rule, applied to the shape's cell at (row, column) and its neighbours inside the
      shape, gives the cell of the shape `next` there. */
  predicate StepsTo(shape: Shape, next: Shape, row: nat, column: nat)
    requires row < Side(shape) && column < Side(shape)
  {
    NextCell(if Inside(shape, row, column) then Alive else Dead, InsideCount(shape, Side(shape), row, column)) ==
      if Inside(next, row, column) then Alive else Dead
  }

  /** Where the rule takes each cell of `shape` to the cell of `next`, one generation of
      `shape`'s grid is `next`'s grid. */
  lemma PictureStep(shape: Shape, next: Shape)
    requires Side(shape) == Side(next)
    requires forall row: nat, column: nat :: row < Side(shape) && column < Side(shape) ==> StepsTo(shape, next, row, column)
    ensures NextGeneration(Picture(shape), Side(shape), Side(shape)) == Picture(next)
  {
    var n := Side(shape);
    forall i | 0 <= i < n * n
      ensures NextGeneration(Picture(shape), n, n)[i] == Picture(next)[i]
    {
      IndexSplit(n, n, i);
      PictureCellStep(shape, next, i / n, i % n);
    }
  }

  lemma PictureCellStep(shape: Shape, next: Shape, row: nat, column: nat)
    requires Side(shape) == Side(next) && row < Side(shape) && column < Side(shape)
    requires StepsTo(shape, next, row, column)
    ensures Index(Side(shape), row, column) < |Picture(shape)|
    ensures NextGeneration(Picture(shape), Side(shape), Side(shape))[Index(Side(shape), row, column)] ==
            Picture(next)[Index(Side(shape), row, column)]
  {
    PictureAt(shape, row, column);
    PictureAt(next, row, column);
    PictureNeighbours(shape, row, column);
    NextGenerationAt(Picture(shape), Side(shape), Side(shape), row, column);
  }

  /** A cell of the block has three neighbours in the block, any other cell at most two, so
      every cell keeps its state. */
  lemma BlockRule(row: nat, column: nat)
    requires row < 4 && column < 4
    ensures Inside(Block, row, column) ==> InsideCount(Block, 4, row, column) == 3
    ensures !Inside(Block, row, column) ==> InsideCount(Block, 4, row, column) <= 2
    ensures StepsTo(Block, Block, row, column)
  {
  }

  /** The block is a still life: `tick` leaves the 4 x 4 grid unchanged. */
  lemma BlockStill()
    ensures NextGeneration(Picture(Block), 4, 4) == Picture(Block)
  {
    forall row: nat, column: nat | row < 4 && column < 4
      ensures StepsTo(Block, Block, row, column)
    {
      BlockRule(row, column);
    }
    PictureStep(Block, Block);
  }

  /** Under the rule each cell of the horizontal blinker becomes the cell of the vertical
      one: the two end cells die of loneliness, the middle one survives, and the cells above
      and below it are born. */
  lemma HorizontalRule(row: nat, column: nat)
    requires row < 5 && column < 5
    ensures StepsTo(Horizontal, Vertical, row, column)
  {
  }

  /** And the vertical blinker turns back into the horizontal one. */
  lemma VerticalRule(row: nat, column: nat)
    requires row < 5 && column < 5
    ensures StepsTo(Vertical, Horizontal, row, column)
  {
  }

  /** The blinker is an oscillator of period two: one `tick` turns the horizontal bar into
      the vertical one, and the next turns it back. */
  lemma BlinkerFlips()
    ensures NextGeneration(Picture(Horizontal), 5, 5) == Picture(Vertical)
    ensures NextGeneration(Picture(Vertical), 5, 5) == Picture(Horizontal)
  {
    forall row: nat, column: nat | row < 5 && column < 5
      ensures StepsTo(Horizontal, Vertical, row, column) && StepsTo(Vertical, Horizontal, row, column)
    {
      HorizontalRule(row, column);
      VerticalRule(row, column);
    }
    PictureStep(Horizontal, Vertical);
    PictureStep(Vertical, Horizontal);
  }
}
