/** Row-major indexing of a `width` x `height` grid whose dimensions are `u32` values. */
module Grid {

  /** 2^32: the `u32` fields `width` and `height`, and every product and sum the source
      computes from them, must stay below this bound. */
  const U32_LIMIT: nat := 0x1_0000_0000

  /** `get_index`: the position of (row, column) in the row-major buffer. */
  function Index(width: nat, row: nat, column: nat): nat
  {
    row * width + column
  }

  /** An in-range coordinate pair lands inside a buffer of `width * height` cells. */
  lemma IndexInBounds(width: nat, height: nat, row: nat, column: nat)
    requires row < height && column < width
    ensures Index(width, row, column) < width * height
  {
    calc {
      Index(width, row, column);
    <  row * width + width;
    == (row + 1) * width;
    <= { MulMonotone(row + 1, height, width); }
      height * width;
    }
  }

  /** Row-major order: a cell earlier in reading order has a smaller index. */
  lemma IndexOrder(width: nat, r: nat, c: nat, row: nat, column: nat)
    requires c < width && (r < row || (r == row && c < column))
    ensures Index(width, r, c) < Index(width, row, column)
  {
    if r < row {
      MulMonotone(r + 1, row, width);
    }
  }

  lemma MulMonotone(a: nat, b: nat, c: nat)
    requires a <= b
    ensures a * c <= b * c
  {
  }

  /** The row and the column can be read back from the index: division and remainder by
      `width` invert `get_index`. */
  lemma IndexRoundTrip(width: nat, row: nat, column: nat)
    requires column < width
    ensures Index(width, row, column) / width == row
    ensures Index(width, row, column) % width == column
  {
    var i := Index(width, row, column);
    DivModUnique(i, width, row, column);
  }

  /** Every index of the buffer comes from exactly one in-range coordinate pair. */
  lemma IndexSplit(width: nat, height: nat, i: nat)
    requires i < width * height
    ensures 0 < width && 0 < height
    ensures i / width < height && i % width < width
    ensures Index(width, i / width, i % width) == i
  {
    MulPositive(width, height);
    var q := i / width;
    assert q * width <= i;
    MulLessCancel(q, height, width);
  }

  lemma MulPositive(a: nat, b: nat)
    requires a * b > 0
    ensures a > 0 && b > 0
  {
  }

  lemma MulLessCancel(a: nat, b: nat, c: nat)
    requires a * c < b * c
    ensures a < b
  {
  }

  /** Distinct in-range coordinate pairs get distinct indices. */
  lemma IndexInjective(width: nat, r1: nat, c1: nat, r2: nat, c2: nat)
    requires c1 < width && c2 < width
    requires Index(width, r1, c1) == Index(width, r2, c2)
    ensures r1 == r2 && c1 == c2
  {
    IndexRoundTrip(width, r1, c1);
    IndexRoundTrip(width, r2, c2);
  }

  lemma DivModUnique(i: nat, n: nat, q: nat, r: nat)
    requires r < n && i == q * n + r
    ensures i / n == q && i % n == r
  {
    var q', r' := i / n, i % n;
    assert i == q' * n + r';
    if q' < q {
      MulMonotone(q' + 1, q, n);
      assert false;
    } else if q < q' {
      MulMonotone(q + 1, q', n);
      assert false;
    }
  }
}
