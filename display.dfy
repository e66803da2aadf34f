/** The text form of a grid written by `impl Display for Universe`. */
module Display {
  import opened Cells
  import opened Grid

  /** U+25FB for a dead cell, U+25FC for a live one. */
  function Glyph(c: Cell): char
  {
    if c == Dead then '\U{25FB}' else '\U{25FC}'
  }

  /** One glyph per cell, in order. */
  function Glyphs(cells: seq<Cell>): (text: string)
    ensures |text| == |cells|
  {
    seq(|cells|, k requires 0 <= k < |cells| => Glyph(cells[k]))
  }

  /** The buffer cut into chunks of `width` cells (the last one shorter if the length is not
      a multiple), each chunk written as its glyphs followed by a line break. */
  function Rendered(cells: seq<Cell>, width: nat): (text: string)
    requires width >= 1
    decreases |cells|
  {
    if cells == [] then ""
    else
      var n := if |cells| < width then |cells| else width;
      Glyphs(cells[..n]) + "\n" + Rendered(cells[n..], width)
  }

  /** Rendering from `start` is the chunk up to `end` (a full chunk of `width` cells, or
      what is left), a line break, and the rendering from `end`. */
  lemma RenderedChunk(cells: seq<Cell>, width: nat, start: nat, end: nat)
    requires width >= 1 && start < end <= |cells|
    requires end == if |cells| - start < width then |cells| else start + width
    ensures Rendered(cells[start..], width) == Glyphs(cells[start..end]) + "\n" + Rendered(cells[end..], width)
  {
    assert cells[start..][..end - start] == cells[start..end];
    assert cells[start..][end - start..] == cells[end..];
  }

  /** Writing the glyph of cell `i` after those of `cells[start..i]` gives the glyphs of
      `cells[start..i + 1]`. */
  lemma GlyphsSnoc(cells: seq<Cell>, start: nat, i: nat, prefix: string)
    requires start <= i < |cells|
    ensures prefix + Glyphs(cells[start..i]) + [Glyph(cells[i])] == prefix + Glyphs(cells[start..i + 1])
  {
    assert Glyphs(cells[start..i + 1]) == Glyphs(cells[start..i]) + [Glyph(cells[i])];
  }

  /** If `prefix` followed by the rendering from `start` is the whole text, so is `prefix`
      followed by the chunk from `start` to `end`, a line break, and the rendering from
      `end`. */
  lemma RenderStep(cells: seq<Cell>, width: nat, start: nat, end: nat, prefix: string)
    requires width >= 1 && start < end <= |cells|
    requires end == if |cells| - start < width then |cells| else start + width
    requires prefix + Rendered(cells[start..], width) == Rendered(cells, width)
    ensures prefix + Glyphs(cells[start..end]) + "\n" + Rendered(cells[end..], width) == Rendered(cells, width)
  {
    RenderedChunk(cells, width, start, end);
  }

  /** The offset of row `row`, column `column` in the text of a grid `width` cells wide:
      each line holds `width` glyphs and a line break. */
  function TextIndex(width: nat, row: nat, column: nat): nat
  {
    row * (width + 1) + column
  }

  /** A `width` x `height` buffer renders as `height` lines of `width` glyphs each. */
  lemma {:induction false} RenderedLength(cells: seq<Cell>, width: nat, height: nat)
    requires width >= 1 && |cells| == width * height
    ensures |Rendered(cells, width)| == height * (width + 1)
  {
    if height > 0 {
      FirstLine(cells, width, height);
      MulSucc(width + 1, height - 1);
      RenderedLength(cells[width..], width, height - 1);
    }
  }

  /** Line `row` of the text holds the glyphs of row `row` of the buffer, in column order,
      and ends with a line break. */
  lemma {:induction false} RenderedAt(cells: seq<Cell>, width: nat, height: nat, row: nat, column: nat)
    requires width >= 1 && |cells| == width * height
    requires row < height && column <= width
    ensures TextIndex(width, row, column) < |Rendered(cells, width)|
    ensures column < width ==>
              (Index(width, row, column) < |cells| &&
               Rendered(cells, width)[TextIndex(width, row, column)] == Glyph(cells[Index(width, row, column)]))
    ensures column == width ==> Rendered(cells, width)[TextIndex(width, row, column)] == '\n'
  {
    FirstLine(cells, width, height);
    var rest := cells[width..];
    var head := Glyphs(cells[..width]) + "\n";
    if row == 0 {
      assert TextIndex(width, row, column) == column;
      assert Index(width, row, column) == column;
    } else {
      RenderedAt(rest, width, height - 1, row - 1, column);
      assert TextIndex(width, row, column) == |head| + TextIndex(width, row - 1, column) by {
        MulSucc(width + 1, row - 1);
      }
      assert Index(width, row, column) == width + Index(width, row - 1, column) by {
        MulSucc(width, row - 1);
      }
    }
  }

  /** A non-empty grid renders as its first row, a line break, and the rest. */
  lemma FirstLine(cells: seq<Cell>, width: nat, height: nat)
    requires width >= 1 && height >= 1 && |cells| == width * height
    ensures |cells[width..]| == width * (height - 1)
    ensures Rendered(cells, width) == Glyphs(cells[..width]) + "\n" + Rendered(cells[width..], width)
  {
    MulSucc(width, height - 1);
  }

  lemma MulSucc(a: nat, b: nat)
    ensures a * (b + 1) == a + a * b && (b + 1) * a == a + b * a
  {
  }

  /** The whole layout: `height` lines, line `row` made of the glyphs of row `row` and a
      line break. */
  lemma RenderedLayout(cells: seq<Cell>, width: nat, height: nat)
    requires width >= 1 && |cells| == width * height
    ensures |Rendered(cells, width)| == height * (width + 1)
    ensures forall row: nat, column: nat :: row < height && column < width ==>
              Index(width, row, column) < |cells| &&
              TextIndex(width, row, column) < |Rendered(cells, width)| &&
              Rendered(cells, width)[TextIndex(width, row, column)] == Glyph(cells[Index(width, row, column)])
    ensures forall row: nat :: row < height ==>
              TextIndex(width, row, width) < |Rendered(cells, width)| &&
              Rendered(cells, width)[TextIndex(width, row, width)] == '\n'
  {
    RenderedLength(cells, width, height);
    forall row: nat, column: nat | row < height && column <= width
      ensures TextIndex(width, row, column) < |Rendered(cells, width)|
      ensures column < width ==>
                (Index(width, row, column) < |cells| &&
                 Rendered(cells, width)[TextIndex(width, row, column)] == Glyph(cells[Index(width, row, column)]))
      ensures column == width ==> Rendered(cells, width)[TextIndex(width, row, column)] == '\n'
    {
      RenderedAt(cells, width, height, row, column);
    }
  }
}
