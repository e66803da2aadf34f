/** Neighbour counting with toroidal wrap-around, as `live_neighbor_count` does it. */
module Neighbours {
  import opened Cells
  import opened Grid

  /** `[n - 1, 0, 1]`: the offsets that, added modulo `n`, step back, stay and step forward. */
  function Deltas(n: nat): (ds: seq<nat>)
    requires n >= 1
    ensures |ds| == 3 && ds[1] == 0
  {
    [n - 1, 0, 1]
  }

  /** `x` minus `n` once if it reaches `n`. */
  function Reduce(x: nat, n: nat): (r: nat)
    requires x < 2 * n
    ensures r < n
  {
    if x < n then x else x - n
  }

  /** For a sum below twice the modulus, `%` is `Reduce`. */
  lemma ReduceOnce(x: nat, n: nat)
    requires x < 2 * n
    ensures x % n == Reduce(x, n)
  {
    if x >= n {
      DivModUnique(x, n, 1, x - n);
    } else {
      DivModUnique(x, n, 0, x);
    }
  }

  /** Iteration (i, j) of the loops of `live_neighbor_count` uses the `i`-th row offset and
      the `j`-th column offset; it is skipped when both are zero. */
  predicate Skipped(width: nat, height: nat, i: nat, j: nat)
    requires width >= 1 && height >= 1 && i < 3 && j < 3
  {
    Deltas(height)[i] == 0 && Deltas(width)[j] == 0
  }

  /** The cell iteration (i, j) reads when it is not skipped: the offsets are added to the
      position and the sums reduced modulo the dimensions. A sum is below twice the
      dimension, so reducing it takes at most one subtraction (see `ReduceOnce`). */
  function ScanCell(width: nat, height: nat, row: nat, column: nat, i: nat, j: nat): (p: (nat, nat))
    requires row < height && column < width && i < 3 && j < 3
    ensures p.0 < height && p.1 < width
  {
    (Reduce(row + Deltas(height)[i], height), Reduce(column + Deltas(width)[j], width))
  }

  /** The cells read by the iterations that come before iteration (i, j) of the nested
      loops, in loop order; `Scanned(.., 3, 0)` is the whole scan. */
  function Scanned(width: nat, height: nat, row: nat, column: nat, i: nat, j: nat): (cs: seq<(nat, nat)>)
    requires row < height && column < width && j <= 3 && (i < 3 || (i == 3 && j == 0))
    ensures |cs| <= 3 * i + j
    ensures forall p :: p in cs ==> p.0 < height && p.1 < width
    decreases i, j
  {
    if j > 0 then
      Scanned(width, height, row, column, i, j - 1) +
      if Skipped(width, height, i, j - 1) then [] else [ScanCell(width, height, row, column, i, j - 1)]
    else if i > 0 then Scanned(width, height, row, column, i - 1, 3)
    else []
  }

  /** The scan only appends: what it has read by step (i, j) is a prefix of the whole
      scan. */
  lemma {:induction false} ScannedPrefix(width: nat, height: nat, row: nat, column: nat, i: nat, j: nat)
    requires row < height && column < width && j <= 3 && (i < 3 || (i == 3 && j == 0))
    ensures Scanned(width, height, row, column, i, j) <= Scanned(width, height, row, column, 3, 0)
    decreases 3 - i, 3 - j
  {
    var whole := Scanned(width, height, row, column, 3, 0);
    if i < 3 && j < 3 {
      ScannedPrefix(width, height, row, column, i, j + 1);
      var now, later := Scanned(width, height, row, column, i, j), Scanned(width, height, row, column, i, j + 1);
      assert later[..|now|] == now;
    } else if i < 3 {
      ScannedPrefix(width, height, row, column, i + 1, 0);
    }
  }

  /** All the cells `live_neighbor_count` reads at (row, column). */
  function NeighbourCells(width: nat, height: nat, row: nat, column: nat): (cs: seq<(nat, nat)>)
    requires row < height && column < width
    ensures |cs| <= 8
    ensures forall p :: p in cs ==> p.0 < height && p.1 < width
  {
    ScannedSkipsCentre(width, height, row, column);
    Scanned(width, height, row, column, 3, 0)
  }

  /** The middle iteration (1, 1) has both offsets zero in every grid, so at most eight of
      the nine iterations read a cell. */
  lemma ScannedSkipsCentre(width: nat, height: nat, row: nat, column: nat)
    requires row < height && column < width
    ensures |Scanned(width, height, row, column, 3, 0)| <= 8
  {
    assert Skipped(width, height, 1, 1);
    assert |Scanned(width, height, row, column, 1, 2)| <= 4;
    assert |Scanned(width, height, row, column, 2, 0)| <= 5;
    assert |Scanned(width, height, row, column, 2, 3)| <= 8;
  }

  /** On a grid of one row the offset list of the rows is `[0, 0, 1]`, so the scan skips
      two steps, not one, and reads seven positions. */
  lemma OneRowScan(width: nat, column: nat)
    requires 2 <= width && column < width
    ensures |NeighbourCells(width, 1, 0, column)| == 7
  {
    assert Deltas(1) == [0, 0, 1];
    assert Deltas(width)[0] != 0 && Deltas(width)[2] != 0;
    assert |Scanned(width, 1, 0, column, 1, 0)| == 2;
    assert |Scanned(width, 1, 0, column, 2, 0)| == 4;
    assert |Scanned(width, 1, 0, column, 2, 3)| == 7;
  }

  /** On a grid of one column it likewise reads seven positions. */
  lemma OneColumnScan(height: nat, row: nat)
    requires 2 <= height && row < height
    ensures |NeighbourCells(1, height, row, 0)| == 7
  {
    assert Deltas(1) == [0, 0, 1];
    assert Deltas(height)[0] != 0 && Deltas(height)[2] != 0;
    assert |Scanned(1, height, row, 0, 1, 0)| == 3;
    assert |Scanned(1, height, row, 0, 2, 0)| == 4;
    assert |Scanned(1, height, row, 0, 2, 3)| == 7;
  }

  /** On a grid of a single cell both offset lists are `[0, 0, 1]`: four steps are skipped
      and the scan reads the cell five times. */
  lemma SingleCellScan()
    ensures NeighbourCells(1, 1, 0, 0) == [(0, 0), (0, 0), (0, 0), (0, 0), (0, 0)]
  {
    assert Deltas(1) == [0, 0, 1];
    assert Scanned(1, 1, 0, 0, 1, 0) == [(0, 0)];
    assert Scanned(1, 1, 0, 0, 2, 0) == [(0, 0), (0, 0)];
  }

  /** The number of live cells among `cs`, each read at its row-major index. */
  function CountAlive(cells: seq<Cell>, width: nat, height: nat, cs: seq<(nat, nat)>): (n: nat)
    requires |cells| == width * height
    requires forall p :: p in cs ==> p.0 < height && p.1 < width
    ensures n <= |cs|
  {
    if cs == [] then 0
    else
      var (r, c) := cs[|cs| - 1];
      IndexInBounds(width, height, r, c);
      CountAlive(cells, width, height, cs[..|cs| - 1]) + Value(cells[Index(width, r, c)])
  }

  /** Counting one more cell adds its value. */
  lemma CountAliveSnoc(cells: seq<Cell>, width: nat, height: nat, cs: seq<(nat, nat)>, p: (nat, nat))
    requires |cells| == width * height && p.0 < height && p.1 < width
    requires forall q :: q in cs ==> q.0 < height && q.1 < width
    ensures Index(width, p.0, p.1) < |cells|
    ensures CountAlive(cells, width, height, cs + [p]) ==
            CountAlive(cells, width, height, cs) + Value(cells[Index(width, p.0, p.1)])
  {
    IndexInBounds(width, height, p.0, p.1);
    assert (cs + [p])[..|cs|] == cs;
  }

  /** The value of the cell at position `p`. */
  function ReadAt(cells: seq<Cell>, width: nat, height: nat, p: (nat, nat)): (v: nat)
    requires |cells| == width * height && p.0 < height && p.1 < width
    ensures v <= 1
  {
    IndexInBounds(width, height, p.0, p.1);
    Value(cells[Index(width, p.0, p.1)])
  }

  /** The running total of the scan in `live_neighbor_count` once it has reached step
      `(i, j)`: the sum, over the visited offset pairs that are not skipped, of the values
      of the cells they reach. */
  function ScanCount(cells: seq<Cell>, width: nat, height: nat, row: nat, column: nat, i: nat, j: nat): (n: nat)
    requires |cells| == width * height && row < height && column < width
    requires j <= 3 && (i < 3 || (i == 3 && j == 0))
    ensures n <= 3 * i + j
    decreases i, j
  {
    if j > 0 then
      ScanCount(cells, width, height, row, column, i, j - 1) +
      if Skipped(width, height, i, j - 1) then 0 else ReadAt(cells, width, height, ScanCell(width, height, row, column, i, j - 1))
    else if i > 0 then ScanCount(cells, width, height, row, column, i - 1, 3)
    else 0
  }

  /** The running total equals the number of live cells among the positions visited so
      far. */
  lemma {:induction false} ScanCountIsCount(cells: seq<Cell>, width: nat, height: nat, row: nat, column: nat, i: nat, j: nat)
    requires |cells| == width * height && row < height && column < width
    requires j <= 3 && (i < 3 || (i == 3 && j == 0))
    ensures ScanCount(cells, width, height, row, column, i, j) ==
            CountAlive(cells, width, height, Scanned(width, height, row, column, i, j))
    decreases i, j
  {
    if j > 0 {
      ScanCountIsCount(cells, width, height, row, column, i, j - 1);
      CountAliveStep(cells, width, height, row, column, i, j - 1);
    } else if i > 0 {
      ScanCountIsCount(cells, width, height, row, column, i - 1, 3);
    }
  }

  /** One step of the scan appends at most the position it reaches, so the count of live
      cells grows by that cell's value at most. */
  lemma CountAliveStep(cells: seq<Cell>, width: nat, height: nat, row: nat, column: nat, i: nat, j: nat)
    requires |cells| == width * height && row < height && column < width && i < 3 && j < 3
    ensures CountAlive(cells, width, height, Scanned(width, height, row, column, i, j + 1)) ==
            CountAlive(cells, width, height, Scanned(width, height, row, column, i, j)) +
            if Skipped(width, height, i, j) then 0 else ReadAt(cells, width, height, ScanCell(width, height, row, column, i, j))
  {
    var before := Scanned(width, height, row, column, i, j);
    if Skipped(width, height, i, j) {
      assert Scanned(width, height, row, column, i, j + 1) == before;
    } else {
      var p := ScanCell(width, height, row, column, i, j);
      assert Scanned(width, height, row, column, i, j + 1) == before + [p];
      CountAliveSnoc(cells, width, height, before, p);
      assert ReadAt(cells, width, height, p) == Value(cells[Index(width, p.0, p.1)]);
    }
  }

  /** A skipped step of the scan leaves the total unchanged. */
  lemma SkipStep(cells: seq<Cell>, width: nat, height: nat, row: nat, column: nat, i: nat, j: nat)
    requires |cells| == width * height && row < height && column < width && i < 3 && j < 3
    requires Deltas(height)[i] == 0 && Deltas(width)[j] == 0
    ensures ScanCount(cells, width, height, row, column, i, j + 1) ==
            ScanCount(cells, width, height, row, column, i, j)
  {
  }

  /** Any other step adds the value of the cell at the wrapped-around position
      `(nr, nc)`. */
  lemma ReadStep(cells: seq<Cell>, width: nat, height: nat, row: nat, column: nat, i: nat, j: nat, nr: nat, nc: nat)
    requires |cells| == width * height && row < height && column < width && i < 3 && j < 3
    requires !(Deltas(height)[i] == 0 && Deltas(width)[j] == 0)
    requires nr == Reduce(row + Deltas(height)[i], height) && nc == Reduce(column + Deltas(width)[j], width)
    ensures Index(width, nr, nc) < |cells|
    ensures ScanCount(cells, width, height, row, column, i, j + 1) ==
            ScanCount(cells, width, height, row, column, i, j) + Value(cells[Index(width, nr, nc)])
  {
    IndexInBounds(width, height, nr, nc);
  }

  /** Each offset is at most the dimension, and a position plus an offset is below twice the
      dimension (at most `2 * n - 2` once `n >= 2`), the bound on the `u32` sum. */
  lemma DeltaSum(x: nat, n: nat, i: nat)
    requires x < n && i < 3
    ensures Deltas(n)[i] <= n
    ensures x + Deltas(n)[i] <= if n == 1 then 1 else 2 * n - 2
  {
  }

  /** `live_neighbor_count`: the total of the scan over all nine offset pairs. */
  function LiveNeighbours(cells: seq<Cell>, width: nat, height: nat, row: nat, column: nat): (n: nat)
    requires |cells| == width * height && row < height && column < width
    ensures n <= 8
  {
    LiveNeighboursCounted(cells, width, height, row, column);
    ScanCount(cells, width, height, row, column, 3, 0)
  }

  /** The live-neighbour count is the number of live cells among the neighbour positions
      the scan visits. */
  lemma LiveNeighboursCounted(cells: seq<Cell>, width: nat, height: nat, row: nat, column: nat)
    requires |cells| == width * height && row < height && column < width
    ensures ScanCount(cells, width, height, row, column, 3, 0) ==
            CountAlive(cells, width, height, NeighbourCells(width, height, row, column))
  {
    ScanCountIsCount(cells, width, height, row, column, 3, 0);
  }

  /** In a buffer of dead cells every partial total of the scan is zero. */
  lemma {:induction false} ScanCountDead(cells: seq<Cell>, width: nat, height: nat, row: nat, column: nat, i: nat, j: nat)
    requires |cells| == width * height && row < height && column < width
    requires j <= 3 && (i < 3 || (i == 3 && j == 0))
    requires forall k :: 0 <= k < |cells| ==> cells[k] == Dead
    ensures ScanCount(cells, width, height, row, column, i, j) == 0
    decreases i, j
  {
    if j > 0 {
      ScanCountDead(cells, width, height, row, column, i, j - 1);
      var p := ScanCell(width, height, row, column, i, j - 1);
      IndexInBounds(width, height, p.0, p.1);
      assert ReadAt(cells, width, height, p) == 0;
    } else if i > 0 {
      ScanCountDead(cells, width, height, row, column, i - 1, 3);
    }
  }

  /** `x` modulo `n` for a step off either edge: -1 wraps to the last position and `n` to
      the first. */
  function Wrap(x: int, n: nat): (r: nat)
    requires n >= 1 && -1 <= x <= n
    ensures r == if x == -1 then n - 1 else if x == n then 0 else x
  {
    x % n
  }

  /** The eight cells adjacent to (row, column) on the torus, row by row. */
  function TorusNeighbours(width: nat, height: nat, row: nat, column: nat): (cs: seq<(nat, nat)>)
    requires row < height && column < width
    ensures |cs| == 8
    ensures forall p :: p in cs ==> p.0 < height && p.1 < width
  {
    var up, down := Wrap(row - 1, height), Wrap(row + 1, height);
    var left, right := Wrap(column - 1, width), Wrap(column + 1, width);
    [(up, left), (up, column), (up, right),
     (row, left), (row, right),
     (down, left), (down, column), (down, right)]
  }

  /** Adding `n - 1` modulo `n` steps back one position, adding 0 stays and adding 1 steps
      forward one, wrapping at both edges. */
  lemma DeltasStep(x: nat, n: nat)
    requires x < n
    ensures (x + Deltas(n)[0]) % n == Reduce(x + Deltas(n)[0], n) == Wrap(x - 1, n)
    ensures (x + Deltas(n)[1]) % n == Reduce(x + Deltas(n)[1], n) == x
    ensures (x + Deltas(n)[2]) % n == Reduce(x + Deltas(n)[2], n) == Wrap(x + 1, n)
  {
    ReduceOnce(x + Deltas(n)[0], n);
    ReduceOnce(x + Deltas(n)[1], n);
    ReduceOnce(x + Deltas(n)[2], n);
  }

  /** On a grid of at least two rows and two columns, `live_neighbor_count` reads exactly the
      eight torus neighbours, in row-major order. */
  lemma ScanIsTorus(width: nat, height: nat, row: nat, column: nat)
    requires 2 <= width && 2 <= height && row < height && column < width
    ensures NeighbourCells(width, height, row, column) == TorusNeighbours(width, height, row, column)
  {
    DeltasStep(row, height);
    DeltasStep(column, width);
    var t := TorusNeighbours(width, height, row, column);
    assert Scanned(width, height, row, column, 0, 3) == t[..3];
    assert Scanned(width, height, row, column, 1, 3) == t[..5];
    assert Scanned(width, height, row, column, 2, 3) == t;
  }

  /** Counting one more position of a list adds the value of the cell there. */
  lemma CountAlivePrefix(cells: seq<Cell>, width: nat, height: nat, cs: seq<(nat, nat)>, k: nat)
    requires |cells| == width * height && k < |cs|
    requires forall p :: p in cs ==> p.0 < height && p.1 < width
    ensures CountAlive(cells, width, height, cs[..k + 1]) ==
            CountAlive(cells, width, height, cs[..k]) + ReadAt(cells, width, height, cs[k])
  {
    assert cs[..k + 1] == cs[..k] + [cs[k]];
    CountAliveSnoc(cells, width, height, cs[..k], cs[k]);
  }

  /** Counting four more positions of a list adds the values of the four cells. */
  lemma CountAliveFour(cells: seq<Cell>, width: nat, height: nat, cs: seq<(nat, nat)>, k: nat)
    requires |cells| == width * height && k + 4 <= |cs|
    requires forall p :: p in cs ==> p.0 < height && p.1 < width
    ensures CountAlive(cells, width, height, cs[..k + 4]) ==
              CountAlive(cells, width, height, cs[..k]) +
              ReadAt(cells, width, height, cs[k]) + ReadAt(cells, width, height, cs[k + 1]) +
              ReadAt(cells, width, height, cs[k + 2]) + ReadAt(cells, width, height, cs[k + 3])
  {
    CountAlivePrefix(cells, width, height, cs, k);
    CountAlivePrefix(cells, width, height, cs, k + 1);
    CountAlivePrefix(cells, width, height, cs, k + 2);
    CountAlivePrefix(cells, width, height, cs, k + 3);
  }

  /** The count over eight positions, such as the torus neighbours, is the sum of the values
      of the eight cells. */
  lemma CountAliveEight(cells: seq<Cell>, width: nat, height: nat, cs: seq<(nat, nat)>)
    requires |cells| == width * height && |cs| == 8
    requires forall p :: p in cs ==> p.0 < height && p.1 < width
    ensures CountAlive(cells, width, height, cs) ==
              ReadAt(cells, width, height, cs[0]) + ReadAt(cells, width, height, cs[1]) +
              ReadAt(cells, width, height, cs[2]) + ReadAt(cells, width, height, cs[3]) +
              ReadAt(cells, width, height, cs[4]) + ReadAt(cells, width, height, cs[5]) +
              ReadAt(cells, width, height, cs[6]) + ReadAt(cells, width, height, cs[7])
  {
    assert cs[..0] == [];
    CountAliveFour(cells, width, height, cs, 0);
    CountAliveFour(cells, width, height, cs, 4);
    assert cs[..8] == cs;
  }

  /** On a grid of at least two rows and two columns, the live-neighbour count is the number
      of live cells among the eight torus neighbours. */
  lemma LiveNeighboursTorus(cells: seq<Cell>, width: nat, height: nat, row: nat, column: nat)
    requires |cells| == width * height && 2 <= width && 2 <= height && row < height && column < width
    ensures LiveNeighbours(cells, width, height, row, column) ==
            CountAlive(cells, width, height, TorusNeighbours(width, height, row, column))
  {
    LiveNeighboursCounted(cells, width, height, row, column);
    ScanIsTorus(width, height, row, column);
  }

  /** On a grid of at least two rows and two columns, the live-neighbour count is the sum of
      the values of the eight cells around (row, column), wrapping at the edges. */
  lemma LiveNeighboursSum(cells: seq<Cell>, width: nat, height: nat, row: nat, column: nat)
    requires |cells| == width * height && 2 <= width && 2 <= height && row < height && column < width
    ensures var up, down := Wrap(row - 1, height), Wrap(row + 1, height);
      var left, right := Wrap(column - 1, width), Wrap(column + 1, width);
      LiveNeighbours(cells, width, height, row, column) ==
        ReadAt(cells, width, height, (up, left)) + ReadAt(cells, width, height, (up, column)) +
        ReadAt(cells, width, height, (up, right)) + ReadAt(cells, width, height, (row, left)) +
        ReadAt(cells, width, height, (row, right)) + ReadAt(cells, width, height, (down, left)) +
        ReadAt(cells, width, height, (down, column)) + ReadAt(cells, width, height, (down, right))
  {
    LiveNeighboursTorus(cells, width, height, row, column);
    CountAliveEight(cells, width, height, TorusNeighbours(width, height, row, column));
  }

  /** The scan at the top-left corner reads the bottom-right corner: the diagonal
      wrap-around, on every grid, one-row and one-column grids included. */
  lemma CornerWraps(width: nat, height: nat)
    requires 1 <= width && 1 <= height
    ensures (height - 1, width - 1) in NeighbourCells(width, height, 0, 0)
  {
    var corner := (height - 1, width - 1);
    if 2 <= width && 2 <= height {
      ScanIsTorus(width, height, 0, 0);
      assert TorusNeighbours(width, height, 0, 0)[0] == corner;
    } else if height == 1 && width == 1 {
      assert Deltas(1) == [0, 0, 1];
      assert !Skipped(width, height, 2, 2) && ScanCell(width, height, 0, 0, 2, 2) == corner;
      assert Scanned(width, height, 0, 0, 2, 3) == Scanned(width, height, 0, 0, 2, 2) + [corner];
      ScannedPrefix(width, height, 0, 0, 2, 3);
    } else if height == 1 {
      assert Deltas(1) == [0, 0, 1];
      assert ScanCell(width, height, 0, 0, 0, 0) == corner;
      assert Scanned(width, height, 0, 0, 0, 1) == [corner];
      ScannedPrefix(width, height, 0, 0, 0, 1);
    } else {
      assert Deltas(1) == [0, 0, 1];
      assert ScanCell(width, height, 0, 0, 0, 0) == corner;
      assert Scanned(width, height, 0, 0, 0, 1) == [corner];
      ScannedPrefix(width, height, 0, 0, 0, 1);
    }
  }
}
