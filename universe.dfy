/**
 * The universe as the source keeps it: fixed dimensions and a row-major cell buffer that
 * generations replace and edits overwrite in place.
 */
module Universes {
  import opened Cells
  import opened Boards

  class Universe {
    var width: nat
    var height: nat
    var cells: array<Cell>

    ghost predicate Valid()
      reads this
    {
      width >= 1 && height >= 1 && cells.Length == width * height
    }

    /** The current universe as a board value. */
    ghost function Snapshot(): (b: Board)
      reads this, cells
      requires Valid()
      ensures b.Valid()
    {
      Board(width, height, cells[..])
    }

    /** A 150 * 150 universe with every cell Dead. */
    constructor ()
      ensures Valid() && fresh(cells)
      ensures width == 150 && height == 150
      ensures Snapshot() == Blank(150, 150)
    {
      width := 150;
      height := 150;
      cells := new Cell[150 * 150](_ => Dead);
    }

    /** Counts the live cells at the eight wrapped neighbour positions, looping over the deltas as the source does. */
    method LiveNeighbourCount(row: nat, col: nat) returns (count: nat)
      requires Valid() && row < height && col < width
      ensures count == NeighbourCount(Snapshot(), row, col)
      ensures count <= 8
    {
      ghost var b := Snapshot();
      var rowDeltas := Deltas(height);
      var colDeltas := Deltas(width);
      count := 0;
      for i := 0 to 3
        invariant count == GridSum(b, row, col, rowDeltas[..i], colDeltas)
      {
        var dr := rowDeltas[i];
        for j := 0 to 3
          invariant count == GridSum(b, row, col, rowDeltas[..i], colDeltas) + RowSum(b, row, col, dr, colDeltas[..j])
        {
          var dc := colDeltas[j];
          assert colDeltas[..j + 1][..j] == colDeltas[..j];
          if dr == 0 && dc == 0 {
            continue;
          }
          var neighbourRow := (row + dr) % height;
          var neighbourCol := (col + dc) % width;
          var idx := Index(width, height, neighbourRow, neighbourCol);
          count := count + Value(cells[idx]);
        }
        assert colDeltas[..3] == colDeltas;
        assert rowDeltas[..i + 1][..i] == rowDeltas[..i];
      }
      assert rowDeltas[..3] == rowDeltas;
      NeighbourCountAtMost8(b, row, col);
    }

    /** Flips the cell at (row, col) in place. */
    method ToggleCell(row: nat, col: nat)
      requires Valid() && row < height && col < width
      modifies cells
      ensures Valid()
      ensures Snapshot() == Toggle(old(Snapshot()), row, col)
    {
      var idx := Index(width, height, row, col);
      cells[idx] := match cells[idx]
        case Alive => Dead
        case Dead => Alive;
    }

    /** Advances one generation: fills a copy of the buffer from the old cells and counts, then replaces the buffer. */
    method Tick()
      requires Valid()
      modifies this`cells
      ensures Valid() && fresh(cells)
      ensures Snapshot() == Step(old(Snapshot()))
    {
      ghost var b := Snapshot();
      var next := new Cell[cells.Length];
      forall k | 0 <= k < next.Length {
        next[k] := cells[k];
      }
      for row := 0 to height
        invariant cells == old(cells) && cells[..] == b.cells
        invariant row * width <= |b.cells|
        invariant forall k :: 0 <= k < row * width ==> next[k] == StepAt(b, k)
      {
        StepRow(next, row, b);
        assert row * width + width == (row + 1) * width;
      }
      assert height * width == |b.cells|;
      StepFromCells(b, next[..]);
      cells := next;
    }

    /** The inner loop of Tick: writes the next state of every cell of one row into `next`. */
    method StepRow(next: array<Cell>, row: nat, ghost b: Board)
      requires Valid() && b == Snapshot() && next != cells && next.Length == cells.Length
      requires row < height
      requires forall k :: 0 <= k < row * width ==> next[k] == StepAt(b, k)
      modifies next
      ensures row * width + width <= |b.cells|
      ensures forall k :: 0 <= k < row * width + width ==> next[k] == StepAt(b, k)
    {
      IndexBelowArea(width, height, row, width - 1);
      ghost var done: nat := row * width;
      for col := 0 to width
        invariant done == row * width + col
        invariant forall k :: 0 <= k < done ==> next[k] == StepAt(b, k)
      {
        var idx := Index(width, height, row, col);
        var cell := cells[idx];
        var liveNeighbours := LiveNeighbourCount(row, col);
        IndexRoundTrip(width, height, row, col);
        next[idx] := NextCell(cell, liveNeighbours);
        done := done + 1;
      }
    }
  }
}
