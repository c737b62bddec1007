/**
 * A snapshot of the universe as a value: its dimensions and its row-major cell buffer,
 * together with the functions that specify the simulation (neighbour count, one generation)
 * and the single-cell edits (toggle, paint).
 */
module Boards {
  import opened Cells

  datatype Board = Board(width: nat, height: nat, cells: seq<Cell>)
  {
    /** Positive dimensions and a buffer of exactly width * height cells. */
    ghost predicate Valid() {
      width >= 1 && height >= 1 && |cells| == width * height
    }
  }

  /** A width * height board with every cell Dead. */
  function Blank(width: nat, height: nat): (b: Board)
    requires width >= 1 && height >= 1
    ensures b.Valid() && b.width == width && b.height == height
    ensures forall k :: 0 <= k < |b.cells| ==> b.cells[k] == Dead
  {
    Board(width, height, seq(width * height, _ => Dead))
  }

  // ---------------------------------------------------------------- indexing

  /** The flat position of (row, col) in a row-major width * height buffer. */
  function Index(width: nat, height: nat, row: nat, col: nat): (i: nat)
    requires row < height && col < width
    ensures i < width * height
  {
    IndexBelowArea(width, height, row, col);
    row * width + col
  }

  lemma IndexBelowArea(width: nat, height: nat, row: nat, col: nat)
    requires row < height && col < width
    ensures row * width + col < width * height
  {
    calc {
      row * width + col;
    <
      row * width + width;
    ==
      (row + 1) * width;
    <=  { MulLeq(row + 1, height, width); }
      height * width;
    }
  }

  lemma MulLeq(a: nat, b: nat, c: nat)
    requires a <= b
    ensures a * c <= b * c
  {
  }

  /** Dividing (q * w + r) by w gives back q and r when r < w. */
  lemma DivModOf(w: nat, q: nat, r: nat)
    requires r < w
    ensures (q * w + r) / w == q && (q * w + r) % w == r
  {
    var i := q * w + r;
    var q', r' := i / w, i % w;
    assert i == q' * w + r';
    if q' < q {
      MulLeq(q' + 1, q, w);
      assert false;
    } else if q' > q {
      MulLeq(q + 1, q', w);
      assert false;
    }
  }

  /** Row and column are recovered from the index by division and remainder. */
  lemma IndexRoundTrip(width: nat, height: nat, row: nat, col: nat)
    requires row < height && col < width
    ensures Index(width, height, row, col) / width == row
    ensures Index(width, height, row, col) % width == col
  {
    DivModOf(width, row, col);
  }

  /** Every position of the buffer is the index of exactly the row and column it encodes. */
  lemma IndexCovers(width: nat, height: nat, i: nat)
    requires width >= 1 && i < width * height
    ensures i / width < height && i % width < width
    ensures Index(width, height, i / width, i % width) == i
  {
    if i / width >= height {
      MulLeq(height, i / width, width);
    }
  }

  /** Distinct in-range positions have distinct indices. */
  lemma IndexInjective(width: nat, height: nat, r1: nat, c1: nat, r2: nat, c2: nat)
    requires r1 < height && c1 < width && r2 < height && c2 < width
    ensures Index(width, height, r1, c1) == Index(width, height, r2, c2) <==> r1 == r2 && c1 == c2
  {
    IndexRoundTrip(width, height, r1, c1);
    IndexRoundTrip(width, height, r2, c2);
  }

  // ---------------------------------------------------------------- neighbour count

  /** The wrapped coordinate `(base + delta) % n` that the count reads. */
  function Wrap(base: nat, delta: nat, n: nat): (r: nat)
    requires n >= 1
    ensures r < n
  {
    (base + delta) % n
  }

  /** The three row (or column) deltas the count iterates over: `n - 1`, `0`, `1`. */
  function Deltas(n: nat): (d: seq<nat>)
    requires n >= 1
    ensures |d| == 3
  {
    [n - 1, 0, 1]
  }

  /** The contribution of one (dr, dc) pair: nothing for (0, 0), otherwise the wrapped cell's value. */
  function Term(b: Board, row: nat, col: nat, dr: nat, dc: nat): (t: nat)
    requires b.Valid() && row < b.height && col < b.width
    ensures t <= 1
  {
    if dr == 0 && dc == 0 then 0
    else Value(b.cells[Index(b.width, b.height, Wrap(row, dr, b.height), Wrap(col, dc, b.width))])
  }

  /** The count accumulated by the inner loop over the column deltas `dcs` for one row delta. */
  function RowSum(b: Board, row: nat, col: nat, dr: nat, dcs: seq<nat>): (s: nat)
    requires b.Valid() && row < b.height && col < b.width
    ensures s <= |dcs|
  {
    if dcs == [] then 0
    else RowSum(b, row, col, dr, dcs[..|dcs| - 1]) + Term(b, row, col, dr, dcs[|dcs| - 1])
  }

  /** The count accumulated by the outer loop over the row deltas `drs`. */
  function GridSum(b: Board, row: nat, col: nat, drs: seq<nat>, dcs: seq<nat>): (s: nat)
    requires b.Valid() && row < b.height && col < b.width
    ensures s <= |drs| * |dcs|
  {
    if drs == [] then 0
    else GridSum(b, row, col, drs[..|drs| - 1], dcs) + RowSum(b, row, col, drs[|drs| - 1], dcs)
  }

  /** The live-neighbour count of (row, col), as the source's nested loops compute it. */
  function NeighbourCount(b: Board, row: nat, col: nat): nat
    requires b.Valid() && row < b.height && col < b.width
  {
    GridSum(b, row, col, Deltas(b.height), Deltas(b.width))
  }

  /** The inner loop over three column deltas adds their three terms. */
  lemma RowSumOfThree(b: Board, row: nat, col: nat, dr: nat, dcs: seq<nat>)
    requires b.Valid() && row < b.height && col < b.width && |dcs| == 3
    ensures RowSum(b, row, col, dr, dcs) ==
      Term(b, row, col, dr, dcs[0]) + Term(b, row, col, dr, dcs[1]) + Term(b, row, col, dr, dcs[2])
  {
    assert dcs[..2][..1] == dcs[..1];
    assert dcs[..1][..0] == [];
    assert RowSum(b, row, col, dr, dcs[..1]) == Term(b, row, col, dr, dcs[0]);
    assert RowSum(b, row, col, dr, dcs[..2]) == RowSum(b, row, col, dr, dcs[..1]) + Term(b, row, col, dr, dcs[1]);
  }

  /** The outer loop over three row deltas adds their three row sums. */
  lemma GridSumOfThree(b: Board, row: nat, col: nat, drs: seq<nat>, dcs: seq<nat>)
    requires b.Valid() && row < b.height && col < b.width && |drs| == 3
    ensures GridSum(b, row, col, drs, dcs) ==
      RowSum(b, row, col, drs[0], dcs) + RowSum(b, row, col, drs[1], dcs) + RowSum(b, row, col, drs[2], dcs)
  {
    assert drs[..2][..1] == drs[..1];
    assert drs[..1][..0] == [];
    assert GridSum(b, row, col, drs[..1], dcs) == RowSum(b, row, col, drs[0], dcs);
    assert GridSum(b, row, col, drs[..2], dcs) == GridSum(b, row, col, drs[..1], dcs) + RowSum(b, row, col, drs[1], dcs);
  }

  /** The nine (dr, dc) terms of the count, written out in loop order. */
  lemma NeighbourCountTerms(b: Board, row: nat, col: nat)
    requires b.Valid() && row < b.height && col < b.width
    ensures var h, w := b.height, b.width;
      NeighbourCount(b, row, col) ==
        Term(b, row, col, h - 1, w - 1) + Term(b, row, col, h - 1, 0) + Term(b, row, col, h - 1, 1) +
        Term(b, row, col, 0, w - 1) + Term(b, row, col, 0, 0) + Term(b, row, col, 0, 1) +
        Term(b, row, col, 1, w - 1) + Term(b, row, col, 1, 0) + Term(b, row, col, 1, 1)
  {
    var drs, dcs := Deltas(b.height), Deltas(b.width);
    GridSumOfThree(b, row, col, drs, dcs);
    RowSumOfThree(b, row, col, drs[0], dcs);
    RowSumOfThree(b, row, col, drs[1], dcs);
    RowSumOfThree(b, row, col, drs[2], dcs);
  }

  /** The count never exceeds 8: the (0, 0) pair contributes nothing and each other pair at most 1. */
  lemma NeighbourCountAtMost8(b: Board, row: nat, col: nat)
    requires b.Valid() && row < b.height && col < b.width
    ensures NeighbourCount(b, row, col) <= 8
  {
    NeighbourCountTerms(b, row, col);
  }

  /** The cell at signed offset position (r, c), wrapping both coordinates around the torus. */
  function TorusCell(b: Board, r: int, c: int): Cell
    requires b.Valid()
  {
    b.cells[Index(b.width, b.height, r % b.height, c % b.width)]
  }

  /** Reference definition: the live cells among the eight toroidal neighbours (row ± 1, col ± 1). */
  function ToroidalCount(b: Board, row: nat, col: nat): (n: nat)
    requires b.Valid()
    ensures n <= 8
  {
    Value(TorusCell(b, row - 1, col - 1)) + Value(TorusCell(b, row - 1, col)) + Value(TorusCell(b, row - 1, col + 1)) +
    Value(TorusCell(b, row, col - 1)) + Value(TorusCell(b, row, col + 1)) +
    Value(TorusCell(b, row + 1, col - 1)) + Value(TorusCell(b, row + 1, col)) + Value(TorusCell(b, row + 1, col + 1))
  }

  /** Adding `n - 1` modulo n steps back by one, adding 1 steps forward by one. */
  lemma WrapIsSigned(base: nat, n: nat)
    requires base < n
    ensures Wrap(base, n - 1, n) == (base - 1) % n
    ensures Wrap(base, 0, n) == base % n == base
    ensures Wrap(base, 1, n) == (base + 1) % n
  {
    if base == 0 {
      assert (base - 1) % n == n - 1;
    } else {
      assert base + (n - 1) == (base - 1) + n;
    }
  }

  /** On a board at least 2 wide and 2 high, the count is exactly the toroidal neighbour count. */
  lemma NeighbourCountIsToroidal(b: Board, row: nat, col: nat)
    requires b.Valid() && row < b.height && col < b.width
    requires b.width >= 2 && b.height >= 2
    ensures NeighbourCount(b, row, col) == ToroidalCount(b, row, col)
  {
    NeighbourCountTerms(b, row, col);
    WrapIsSigned(row, b.height);
    WrapIsSigned(col, b.width);
  }

  lemma TermOneByOne(b: Board, row: nat, col: nat, dr: nat, dc: nat)
    requires b.Valid() && b.width == 1 && b.height == 1 && row < b.height && col < b.width
    ensures Term(b, row, col, dr, dc) == if dr == 0 && dc == 0 then 0 else Value(b.cells[0])
  {
  }

  /** On a 1 * 1 board every pair with a non-zero delta wraps onto the one cell: the count is 5 times its value. */
  lemma NeighbourCountOneByOne(b: Board, row: nat, col: nat)
    requires b.Valid() && b.width == 1 && b.height == 1 && row < b.height && col < b.width
    ensures NeighbourCount(b, row, col) == 5 * Value(b.cells[0])
  {
    var d := Deltas(b.height);
    TermOneByOne(b, row, col, d[0], d[0]);
    TermOneByOne(b, row, col, d[0], d[1]);
    TermOneByOne(b, row, col, d[0], d[2]);
    TermOneByOne(b, row, col, d[2], d[0]);
    TermOneByOne(b, row, col, d[2], d[1]);
    TermOneByOne(b, row, col, d[2], d[2]);
    RowSumOfThree(b, row, col, d[0], d);
    RowSumOfThree(b, row, col, d[2], d);
    GridSumOfThree(b, row, col, d, d);
  }

  /** On a board at least 2 wide and 2 high, no neighbour position read by the count is the centre. */
  lemma CentreNotCounted(b: Board, row: nat, col: nat, di: int, dj: int)
    requires b.Valid() && row < b.height && col < b.width
    requires b.width >= 2 && b.height >= 2
    requires -1 <= di <= 1 && -1 <= dj <= 1 && (di, dj) != (0, 0)
    ensures Index(b.width, b.height, (row + di) % b.height, (col + dj) % b.width) != Index(b.width, b.height, row, col)
  {
    IndexInjective(b.width, b.height, (row + di) % b.height, (col + dj) % b.width, row, col);
    if di == -1 {
      assert (row + di) % b.height != row by { WrapIsSigned(row, b.height); }
    } else if di == 1 {
      assert (row + di) % b.height != row by { WrapIsSigned(row, b.height); }
    } else if dj == -1 {
      assert (col + dj) % b.width != col by { WrapIsSigned(col, b.width); }
    } else {
      assert (col + dj) % b.width != col by { WrapIsSigned(col, b.width); }
    }
  }

  // ---------------------------------------------------------------- one generation

  /** The next state of the cell at flat position i, from the counts of the current board. */
  function StepAt(b: Board, i: nat): Cell
    requires b.Valid() && i < |b.cells|
  {
    IndexCovers(b.width, b.height, i);
    NextCell(b.cells[i], NeighbourCount(b, i / b.width, i % b.width))
  }

  /** One generation: every cell is replaced by the rule applied to the old cell and its old count. */
  function Step(b: Board): (r: Board)
    requires b.Valid()
    ensures r.Valid() && r.width == b.width && r.height == b.height
  {
    Board(b.width, b.height, seq(|b.cells|, i requires 0 <= i < |b.cells| => StepAt(b, i)))
  }

  /** A buffer holding the next state of every cell is the next generation. */
  lemma StepFromCells(b: Board, next: seq<Cell>)
    requires b.Valid() && |next| == |b.cells|
    requires forall k :: 0 <= k < |next| ==> next[k] == StepAt(b, k)
    ensures Step(b) == Board(b.width, b.height, next)
  {
  }

  /** Cell (row, col) of the next generation is the rule applied to the old cell and its old count. */
  lemma StepRule(b: Board, row: nat, col: nat)
    requires b.Valid() && row < b.height && col < b.width
    ensures var i := Index(b.width, b.height, row, col);
      Step(b).cells[i] == NextCell(b.cells[i], NeighbourCount(b, row, col))
  {
    IndexRoundTrip(b.width, b.height, row, col);
  }

  lemma {:induction false} RowSumDead(b: Board, row: nat, col: nat, dr: nat, dcs: seq<nat>)
    requires b.Valid() && row < b.height && col < b.width
    requires forall k :: 0 <= k < |b.cells| ==> b.cells[k] == Dead
    ensures RowSum(b, row, col, dr, dcs) == 0
  {
    if dcs != [] {
      RowSumDead(b, row, col, dr, dcs[..|dcs| - 1]);
    }
  }

  lemma {:induction false} GridSumDead(b: Board, row: nat, col: nat, drs: seq<nat>, dcs: seq<nat>)
    requires b.Valid() && row < b.height && col < b.width
    requires forall k :: 0 <= k < |b.cells| ==> b.cells[k] == Dead
    ensures GridSum(b, row, col, drs, dcs) == 0
  {
    if drs != [] {
      GridSumDead(b, row, col, drs[..|drs| - 1], dcs);
      RowSumDead(b, row, col, drs[|drs| - 1], dcs);
    }
  }

  /** No spontaneous birth: an all-Dead board stays all-Dead. */
  lemma StepAllDead(b: Board)
    requires b.Valid()
    requires forall k :: 0 <= k < |b.cells| ==> b.cells[k] == Dead
    ensures Step(b) == b
  {
    forall i | 0 <= i < |b.cells|
      ensures Step(b).cells[i] == Dead
    {
      IndexCovers(b.width, b.height, i);
      GridSumDead(b, i / b.width, i % b.width, Deltas(b.height), Deltas(b.width));
    }
  }

  /** Only the cell at (row, col) may be Alive. */
  ghost predicate AloneAt(b: Board, row: nat, col: nat)
    requires b.Valid() && row < b.height && col < b.width
  {
    forall k :: 0 <= k < |b.cells| && k != Index(b.width, b.height, row, col) ==> b.cells[k] == Dead
  }

  lemma NeighbourOfLoneCellDead(b: Board, row: nat, col: nat, di: int, dj: int)
    requires b.Valid() && row < b.height && col < b.width
    requires b.width >= 2 && b.height >= 2 && AloneAt(b, row, col)
    requires -1 <= di <= 1 && -1 <= dj <= 1 && (di, dj) != (0, 0)
    ensures Value(TorusCell(b, row + di, col + dj)) == 0
  {
    CentreNotCounted(b, row, col, di, dj);
  }

  /** Isolation death: on a board at least 2 * 2, a lone Alive cell is Dead one generation later. */
  lemma StepIsolatedDies(b: Board, row: nat, col: nat)
    requires b.Valid() && row < b.height && col < b.width
    requires b.width >= 2 && b.height >= 2
    requires b.cells[Index(b.width, b.height, row, col)] == Alive
    requires AloneAt(b, row, col)
    ensures Step(b).cells[Index(b.width, b.height, row, col)] == Dead
  {
    NeighbourOfLoneCellDead(b, row, col, -1, -1);
    NeighbourOfLoneCellDead(b, row, col, -1, 0);
    NeighbourOfLoneCellDead(b, row, col, -1, 1);
    NeighbourOfLoneCellDead(b, row, col, 0, -1);
    NeighbourOfLoneCellDead(b, row, col, 0, 1);
    NeighbourOfLoneCellDead(b, row, col, 1, -1);
    NeighbourOfLoneCellDead(b, row, col, 1, 0);
    NeighbourOfLoneCellDead(b, row, col, 1, 1);
    NeighbourCountIsToroidal(b, row, col);
    StepRule(b, row, col);
  }

  // ---------------------------------------------------------------- single-cell edits

  /** The board with cell (row, col) flipped. */
  function Toggle(b: Board, row: nat, col: nat): (r: Board)
    requires b.Valid() && row < b.height && col < b.width
    ensures r.Valid() && r.width == b.width && r.height == b.height
  {
    var i := Index(b.width, b.height, row, col);
    b.(cells := b.cells[i := Flip(b.cells[i])])
  }

  /** A toggle changes cell (row, col), and only it. */
  lemma ToggleChangesOnlyTarget(b: Board, row: nat, col: nat, r: nat, c: nat)
    requires b.Valid() && row < b.height && col < b.width && r < b.height && c < b.width
    ensures var i := Index(b.width, b.height, r, c);
      Toggle(b, row, col).cells[i] != b.cells[i] <==> r == row && c == col
  {
    IndexInjective(b.width, b.height, r, c, row, col);
  }

  /** Toggling the same cell twice restores the board. */
  lemma ToggleTwice(b: Board, row: nat, col: nat)
    requires b.Valid() && row < b.height && col < b.width
    ensures Toggle(Toggle(b, row, col), row, col) == b
  {
    var i := Index(b.width, b.height, row, col);
    FlipFlip(b.cells[i]);
    assert Toggle(Toggle(b, row, col), row, col).cells == b.cells;
  }

  /** The board with cell (row, col) set to v when (row, col) is in range; otherwise the board itself. */
  function Paint(b: Board, row: nat, col: nat, v: Cell): (r: Board)
    requires b.Valid()
    ensures r.Valid() && r.width == b.width && r.height == b.height
  {
    if row < b.height && col < b.width then
      var i := Index(b.width, b.height, row, col);
      b.(cells := b.cells[i := v])
    else b
  }

  /** Painting writes v at the in-range target and leaves every other cell, and any out-of-range target, alone. */
  lemma PaintEffect(b: Board, row: nat, col: nat, v: Cell, r: nat, c: nat)
    requires b.Valid() && r < b.height && c < b.width
    ensures var i := Index(b.width, b.height, r, c);
      Paint(b, row, col, v).cells[i] == if r == row && c == col then v else b.cells[i]
  {
    if row < b.height && col < b.width {
      IndexInjective(b.width, b.height, r, c, row, col);
    }
  }

  /** Painting the same cell with the same value twice is the same as painting it once. */
  lemma PaintIdempotent(b: Board, row: nat, col: nat, v: Cell)
    requires b.Valid()
    ensures Paint(Paint(b, row, col, v), row, col, v) == Paint(b, row, col, v)
  {
    if row < b.height && col < b.width {
      var i := Index(b.width, b.height, row, col);
      assert Paint(Paint(b, row, col, v), row, col, v).cells == Paint(b, row, col, v).cells;
    }
  }
}
