/** The `Universe` engine: a toroidal Game of Life grid updated in place. */
module GameOfLife {
  import opened Cells
  import opened Grid
  import opened Neighbours
  import opened Generation
  import opened Edits
  import opened Display

  /** `row + delta_row` is at most `2 * height - 2`, and likewise for columns; both sums must
      fit in a `u32`. */
  predicate OffsetsFit(width: nat, height: nat)
  {
    2 * width - 2 < U32_LIMIT && 2 * height - 2 < U32_LIMIT
  }

  /** `(x + delta) % n` for a position `x < n` and an offset `delta <= n`, as the source
      computes a neighbour's row or column; the sum must not overflow a `u32`. */
  method WrapAdd(x: nat, delta: nat, n: nat) returns (r: nat)
    requires x < n && delta <= n && x + delta < U32_LIMIT
    ensures r == Reduce(x + delta, n)
  {
    ReduceOnce(x + delta, n);
    r := (x + delta) % n;
  }

  class Universe {
    var width: nat
    var height: nat
    /** The row-major buffer: row `r`, column `c` is at `r * width + c`. */
    var cells: array<Cell>

    /** The dimensions are `u32` values whose product is the length of the buffer. */
    ghost predicate Valid()
      reads this
    {
      width < U32_LIMIT && height < U32_LIMIT && width * height < U32_LIMIT &&
      cells.Length == width * height
    }

    /** `Universe::new`: a 64 x 64 grid in which cell `i` is alive when the `i`-th draw of
        the host's random source was below one half, given here as `coins[i]`. */
    constructor (coins: seq<bool>)
      requires |coins| == 64 * 64
      ensures Valid() && width == 64 && height == 64 && fresh(cells)
      ensures forall i :: 0 <= i < cells.Length ==> cells[i] == if coins[i] then Alive else Dead
    {
      width, height := 64, 64;
      cells := new Cell[64 * 64](i requires 0 <= i < 64 * 64 => if coins[i] then Alive else Dead);
    }

    /** `width()`. */
    method Width() returns (w: nat)
      requires Valid()
      ensures w == width && w * height == cells.Length
    {
      w := width;
    }

    /** `height()`. */
    method Height() returns (h: nat)
      requires Valid()
      ensures h == height && width * h == cells.Length
    {
      h := height;
    }

    /** `get_cells`: the current buffer, `width * height` cells long. */
    method GetCells() returns (s: seq<Cell>)
      requires Valid()
      ensures s == cells[..] && |s| == width * height
    {
      s := cells[..];
    }

    /** `get_index`: the row-major index of (row, column), computed in `u32` arithmetic. */
    method GetIndex(row: nat, column: nat) returns (index: nat)
      requires Index(width, row, column) < U32_LIMIT
      ensures index == Index(width, row, column)
    {
      index := row * width + column;
    }

    /** `set_width`: a destructive reshape; the old cells are discarded and every cell of the
        new `width * height` buffer is dead. */
    method SetWidth(newWidth: nat)
      requires Valid()
      requires newWidth < U32_LIMIT && newWidth * height < U32_LIMIT
      modifies this
      ensures Valid() && width == newWidth && height == old(height) && fresh(cells)
      ensures forall i :: 0 <= i < cells.Length ==> cells[i] == Dead
    {
      width := newWidth;
      cells := new Cell[width * height](_ => Dead);
    }

    /** `set_height`: as `set_width`, for the other dimension. */
    method SetHeight(newHeight: nat)
      requires Valid()
      requires newHeight < U32_LIMIT && width * newHeight < U32_LIMIT
      modifies this
      ensures Valid() && height == newHeight && width == old(width) && fresh(cells)
      ensures forall i :: 0 <= i < cells.Length ==> cells[i] == Dead
    {
      height := newHeight;
      cells := new Cell[width * height](_ => Dead);
    }

    /** `live_neighbor_count`: the loops visit the offsets `[height - 1, 0, 1]` x
        `[width - 1, 0, 1]`, skip every pair that is (0, 0), and add the value of each cell
        they reach modulo the dimensions. */
    method LiveNeighbourCount(row: nat, column: nat) returns (count: nat)
      requires Valid() && row < height && column < width && OffsetsFit(width, height)
      ensures count == LiveNeighbours(cells[..], width, height, row, column)
    {
      ghost var s := cells[..];
      var deltaRows, deltaColumns := Deltas(height), Deltas(width);
      count := 0;
      for i := 0 to 3
        invariant count == ScanCount(s, width, height, row, column, i, 0)
      {
        for j := 0 to 3
          invariant count == ScanCount(s, width, height, row, column, i, j)
        {
          var deltaRow, deltaColumn := deltaRows[i], deltaColumns[j];
          if deltaRow == 0 && deltaColumn == 0 {
            SkipStep(s, width, height, row, column, i, j);
          } else {
            DeltaSum(row, height, i);
            DeltaSum(column, width, j);
            var neighbourRow := WrapAdd(row, deltaRow, height);
            var neighbourColumn := WrapAdd(column, deltaColumn, width);
            ReadStep(s, width, height, row, column, i, j, neighbourRow, neighbourColumn);
            var index := GetIndex(neighbourRow, neighbourColumn);
            count := count + Value(cells[index]);
          }
        }
      }
    }

    /** `tick`: every cell of a fresh buffer is computed from the buffer as it was before the
        call, then the fresh buffer replaces it; the dimensions do not change. */
    method Tick()
      requires Valid() && OffsetsFit(width, height)
      modifies this
      ensures Valid() && width == old(width) && height == old(height) && fresh(cells)
      ensures cells[..] == NextGeneration(old(cells[..]), width, height)
    {
      ghost var before := cells[..];
      var next := new Cell[cells.Length](i requires 0 <= i < cells.Length reads this, cells => cells[i]);
      for row := 0 to height
        modifies next
        invariant SteppedBefore(next[..], before, width, height, row, 0)
      {
        for column := 0 to width
          modifies next
          invariant SteppedBefore(next[..], before, width, height, row, column)
        {
          IndexInBounds(width, height, row, column);
          var index := GetIndex(row, column);
          var cell := cells[index];
          var liveNeighbours := LiveNeighbourCount(row, column);
          assert cell == before[Index(width, row, column)];
          assert liveNeighbours == LiveNeighbours(before, width, height, row, column);
          SteppedWrite(next[..], before, width, height, row, column, NextCell(cell, liveNeighbours));
          next[index] := NextCell(cell, liveNeighbours);
        }
      }
      GenerationByCells(next[..], before, width, height);
      cells := next;
    }

    /** `set_cells`: the cell at the index of every listed pair becomes alive, in list order;
        every other cell keeps its value. */
    method SetCells(coords: seq<(nat, nat)>)
      requires Valid() && Writable(width, coords, cells.Length)
      modifies cells
      ensures cells[..] == MarkAlive(old(cells[..]), width, coords)
    {
      for k := 0 to |coords|
        invariant cells[..] == MarkAlive(old(cells[..]), width, coords[..k])
      {
        var (row, column) := coords[k];
        var index := GetIndex(row, column);
        assert coords[..k + 1][..k] == coords[..k];
        cells[index] := Alive;
      }
      assert coords[..|coords|] == coords;
    }

    /** `render` through `Display::fmt`: for each chunk of `width` cells, one glyph per cell
        and then a line break. */
    method Render() returns (text: string)
      requires Valid() && width >= 1
      ensures text == Rendered(cells[..], width)
    {
      ghost var s := cells[..];
      text := "";
      var start := 0;
      assert s[0..] == s;
      while start < cells.Length
        invariant start <= |s|
        invariant text + Rendered(s[start..], width) == Rendered(s, width)
      {
        var end := if cells.Length - start < width then cells.Length else start + width;
        ghost var lineStart := text;
        for i := start to end
          invariant text == lineStart + Glyphs(s[start..i])
        {
          GlyphsSnoc(s, start, i, lineStart);
          text := text + [Glyph(cells[i])];
        }
        RenderStep(s, width, start, end, lineStart);
        text := text + "\n";
        start := end;
      }
    }
  }
}
