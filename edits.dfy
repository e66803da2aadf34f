/** The bulk "make alive" edit of `set_cells`. */
module Edits {
  import opened Cells
  import opened Grid

  /** Some pair of `coords` has row-major index `i`. */
  predicate Named(width: nat, coords: seq<(nat, nat)>, i: nat)
  {
    exists k :: 0 <= k < |coords| && Index(width, coords[k].0, coords[k].1) == i
  }

  /** Every pair of `coords` indexes into a buffer of `size` cells. */
  predicate Writable(width: nat, coords: seq<(nat, nat)>, size: nat)
  {
    forall k :: 0 <= k < |coords| ==> Index(width, coords[k].0, coords[k].1) < size
  }

  /** The buffer after writing Alive at the index of each pair of `coords`, in order. */
  function MarkAlive(cells: seq<Cell>, width: nat, coords: seq<(nat, nat)>): (marked: seq<Cell>)
    requires Writable(width, coords, |cells|)
    ensures |marked| == |cells|
    ensures forall i :: 0 <= i < |cells| ==>
              marked[i] == if Named(width, coords, i) then Alive else cells[i]
  {
    if coords == [] then cells
    else
      var init, (row, column) := coords[..|coords| - 1], coords[|coords| - 1];
      assert forall i :: Named(width, coords, i) <==>
               Named(width, init, i) || i == Index(width, row, column) by {
        forall i ensures Named(width, coords, i) ==> Named(width, init, i) || i == Index(width, row, column) {
          if Named(width, coords, i) {
            var k :| 0 <= k < |coords| && Index(width, coords[k].0, coords[k].1) == i;
            if k < |init| { assert init[k] == coords[k]; }
          }
        }
        forall i | Named(width, init, i) ensures Named(width, coords, i) {
          var k :| 0 <= k < |init| && Index(width, init[k].0, init[k].1) == i;
          assert coords[k] == init[k];
        }
      }
      MarkAlive(cells, width, init)[Index(width, row, column) := Alive]
  }

  /** Applying the same list twice leaves the buffer as applying it once. */
  lemma MarkAliveIdempotent(cells: seq<Cell>, width: nat, coords: seq<(nat, nat)>)
    requires Writable(width, coords, |cells|)
    ensures MarkAlive(MarkAlive(cells, width, coords), width, coords) == MarkAlive(cells, width, coords)
  {
  }
}
